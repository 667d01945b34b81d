/** That dBFT moves on: the requests of a quorum change the view and the signatures of a quorum make
    the block, in whatever order they come, and (n-1)/3 silent bookkeepers cannot prevent either. */
module DbftProgress {
  import opened Words
  import opened DbftModel
  import opened DbftSafety
  import opened DbftEffects
  import opened DbftQuorums

  /** The bookkeepers heard from. */
  function Senders(es: seq<Event>): set<nat> {
    set i: nat | i < |es| && es[i].Payload? :: es[i].sender
  }

  lemma SendersStep(es: seq<Event>)
    requires es != [] && es[0].Payload?
    ensures Senders(es) == {es[0].sender} + Senders(es[1..])
  {
    forall who | who in Senders(es) ensures who in {es[0].sender} + Senders(es[1..]) {
      var i: nat :| i < |es| && es[i].Payload? && es[i].sender == who;
      if i > 0 { assert es[1..][i - 1] == es[i]; }
    }
    forall who | who in {es[0].sender} + Senders(es[1..]) ensures who in Senders(es) {
      if who != es[0].sender {
        var i: nat :| i < |es[1..]| && es[1..][i].Payload? && es[1..][i].sender == who;
        assert es[i + 1].sender == who;
      }
    }
  }

  /** A payload for the place the context is at. */
  predicate Reaches(c: Context, e: Event) {
    && e.Payload? && LedgerOk(e.l) && e.sender < c.n && e.sender as int != c.index
    && e.height == c.height && e.prevHash == c.prevHash
  }

  /** Payloads alone make a legal run. */
  lemma PayloadStep(hash: BlockHash, s: Service, e: Event)
    requires Inv(s) && e.Payload? && LedgerOk(e.l)
    ensures Tame(s, e) && Inv(Step(hash, s, e))
  {
    hide Step;
    InvViews(s);
    NoReset(s, e);
    StepKeeps(hash, s, e);
  }

  // ---------------------------------------------------------------- views

  /** A request for view v by a bookkeeper that asked for no later one. */
  predicate RequestFor(c: Context, v: Byte, e: Event)
    requires |c.expectedView| == c.n
  {
    Reaches(c, e) && e.msg == ChangeViewMsg(v) && c.expectedView[e.sender] <= v
  }

  /** Not past view v, and in it exactly if a quorum asks for it. */
  predicate Turned(c: Context, v: Byte)
    requires c.n > 0
  {
    && BlockGenerated !in c.state && 0 < v && c.view <= v
    && (c.view == v <==> |Asking(c.expectedView, v)| >= M(c.n))
  }

  lemma MoreAsking(views: seq<Byte>, i: nat, v: Byte)
    requires i < |views|
    ensures Asking(views[i := v], v) == Asking(views, v) + {i}
    ensures |Asking(views[i := v], v)| >= |Asking(views, v)|
  {
    SubsetSize(Asking(views, v), Asking(views[i := v], v));
  }

  lemma RequestStep(hash: BlockHash, s: Service, e: Event, v: Byte)
    requires Shaped(s.ctx) && Turned(s.ctx, v) && RequestFor(s.ctx, v, e)
    ensures var d := Step(hash, s, e).ctx;
      && SamePlace(s.ctx.(expectedView := s.ctx.expectedView[e.sender := v]), d)
      && d.n > 0 && Turned(d, v)
  {
    hide Asking, M, Receive, PrimaryOf;
    PayloadHas(hash, s, e);
    MoreAsking(s.ctx.expectedView, e.sender, v);
    if s.ctx.expectedView[e.sender] == v {
      assert s.ctx.expectedView[e.sender := v] == s.ctx.expectedView;
    }
  }

  /** Requests for one view, in any order and any number: the view is entered if and only if those
      that ask for it are a quorum. */
  lemma {:induction false} RequestsMove(hash: BlockHash, s: Service, es: seq<Event>, v: Byte)
    requires Inv(s) && s.ctx.n > 0 && Turned(s.ctx, v)
    requires |s.ctx.expectedView| == s.ctx.n && forall i :: 0 <= i < |es| ==> RequestFor(s.ctx, v, es[i])
    ensures Legal(hash, s, es)
    ensures var d := Run(hash, s, es).ctx;
      && d.height == s.ctx.height && d.n == s.ctx.n
      && (d.view == v <==> |Asking(s.ctx.expectedView, v) + Senders(es)| >= M(s.ctx.n))
    decreases |es|
  {
    hide Inv, Asking, M, Step, Tame, Senders, LedgerOk;
    InvViews(s);
    if es == [] {
      NoSenders();
      assert Asking(s.ctx.expectedView, v) + {} == Asking(s.ctx.expectedView, v);
    } else {
      var t := Step(hash, s, es[0]);
      RequestStep(hash, s, es[0], v);
      PayloadStep(hash, s, es[0]);
      InvViews(t);
      SendersStep(es);
      MoreAsking(s.ctx.expectedView, es[0].sender, v);
      forall i | 0 <= i < |es[1..]| ensures RequestFor(t.ctx, v, es[1..][i]) {
        assert RequestFor(s.ctx, v, es[i + 1]);
      }
      RequestsMove(hash, t, es[1..], v);
      assert Asking(s.ctx.expectedView, v) + Senders(es) == Asking(t.ctx.expectedView, v) + Senders(es[1..]);
    }
  }

  lemma NoSenders()
    ensures Senders([]) == {}
  {}

  /** When all but (n-1)/3 bookkeepers ask for a view, the view is entered. */
  lemma SilentCannotHoldView(hash: BlockHash, s: Service, es: seq<Event>, v: Byte, silent: set<nat>)
    requires Inv(s) && s.ctx.n > 0 && Turned(s.ctx, v)
    requires |s.ctx.expectedView| == s.ctx.n && forall i :: 0 <= i < |es| ==> RequestFor(s.ctx, v, es[i])
    requires silent <= Seats(s.ctx.n) && |silent| <= (s.ctx.n - 1) / 3
    requires Seats(s.ctx.n) - silent <= Asking(s.ctx.expectedView, v) + Senders(es)
    ensures Legal(hash, s, es) && Run(hash, s, es).ctx.view == v
  {
    hide Inv, Asking, M, Senders, Legal, Run, RequestFor, Turned;
    RequestsMove(hash, s, es, v);
    QuorumLeft(s.ctx.n, silent);
    SubsetSize(Seats(s.ctx.n) - silent, Asking(s.ctx.expectedView, v) + Senders(es));
  }

  // ---------------------------------------------------------------- signatures

  /** A good signature of the block on file, which the ledger takes. */
  predicate SignatureFor(hash: BlockHash, c: Context, e: Event) {
    && Reaches(c, e) && e.view == c.view
    && e.msg == PrepareResponseMsg(Some(Sig(e.sender, hash(OnFile(c)))), true)
  }

  /** The block is made exactly if a quorum of signatures is on file. */
  predicate Made(c: Context)
    requires c.n > 0
  {
    BlockGenerated in c.state <==> |Signed(c.signatures)| >= M(c.n)
  }

  lemma MoreSigned(slots: seq<Option<Sig>>, i: nat, sig: Option<Sig>)
    requires i < |slots| && sig.Some?
    ensures Signed(slots[i := sig]) == Signed(slots) + {i}
  {}

  lemma SignatureStep(hash: BlockHash, s: Service, e: Event)
    requires Shaped(s.ctx) && Made(s.ctx) && SignatureFor(hash, s.ctx, e)
    ensures var d := Step(hash, s, e).ctx;
      && d.n == s.ctx.n && Made(d)
      && (if BlockGenerated in s.ctx.state then d == s.ctx
          else
            && SamePlace(s.ctx, d) && d.view == s.ctx.view && OnFile(d) == OnFile(s.ctx)
            && Signed(d.signatures) == Signed(s.ctx.signatures) + {e.sender})
  {
    hide Signed, M, Receive;
    PayloadHas(hash, s, e);
    MoreSigned(s.ctx.signatures, e.sender, e.msg.sig);
    if s.ctx.signatures[e.sender].Some? { AlreadySigned(s.ctx.signatures, e.sender); }
  }

  lemma AlreadySigned(slots: seq<Option<Sig>>, i: nat)
    requires i < |slots| && slots[i].Some?
    ensures Signed(slots) == Signed(slots) + {i}
  {}

  /** Good signatures, in any order and any number: the block is made if and only if the signers are a
      quorum. */
  lemma {:induction false} SignaturesMake(hash: BlockHash, s: Service, es: seq<Event>)
    requires Inv(s) && s.ctx.n > 0 && Made(s.ctx)
    requires forall i :: 0 <= i < |es| ==> SignatureFor(hash, s.ctx, es[i])
    ensures Legal(hash, s, es)
    ensures BlockGenerated in Run(hash, s, es).ctx.state <==> |Signed(s.ctx.signatures) + Senders(es)| >= M(s.ctx.n)
    decreases |es|
  {
    hide Inv, Signed, M, Step, Tame, Senders, LedgerOk;
    InvViews(s);
    if es == [] {
      NoSenders();
      assert Signed(s.ctx.signatures) + {} == Signed(s.ctx.signatures);
    } else {
      var t := Step(hash, s, es[0]);
      SignatureStep(hash, s, es[0]);
      PayloadStep(hash, s, es[0]);
      InvViews(t);
      SendersStep(es);
      forall i | 0 <= i < |es[1..]| ensures SignatureFor(hash, t.ctx, es[1..][i]) {
        assert SignatureFor(hash, s.ctx, es[i + 1]);
      }
      SignaturesMake(hash, t, es[1..]);
      SubsetSize(Signed(s.ctx.signatures), Signed(s.ctx.signatures) + Senders(es));
      if BlockGenerated in s.ctx.state {
        SubsetSize(Signed(s.ctx.signatures), Signed(s.ctx.signatures) + Senders(es[1..]));
      } else {
        assert Signed(s.ctx.signatures) + Senders(es) == Signed(t.ctx.signatures) + Senders(es[1..]);
      }
    }
  }

  /** When all but (n-1)/3 bookkeepers sign, the block is made. */
  lemma SilentCannotStopBlock(hash: BlockHash, s: Service, es: seq<Event>, silent: set<nat>)
    requires Inv(s) && s.ctx.n > 0 && Made(s.ctx)
    requires forall i :: 0 <= i < |es| ==> SignatureFor(hash, s.ctx, es[i])
    requires silent <= Seats(s.ctx.n) && |silent| <= (s.ctx.n - 1) / 3
    requires Seats(s.ctx.n) - silent <= Signed(s.ctx.signatures) + Senders(es)
    ensures Legal(hash, s, es) && BlockGenerated in Run(hash, s, es).ctx.state
  {
    hide Inv, Signed, M, Senders, Legal, Run, SignatureFor, Made;
    SignaturesMake(hash, s, es);
    QuorumLeft(s.ctx.n, silent);
    SubsetSize(Seats(s.ctx.n) - silent, Signed(s.ctx.signatures) + Senders(es));
  }
}
