/** What every run of a bookkeeper keeps, and agreement among bookkeepers that keep it. */
module DbftSafety {
  import opened Words
  import opened DbftModel

  // ---------------------------------------------------------------- counting views

  function CountFrom(s: seq<Byte>, v: Byte): nat {
    if s == [] then 0 else (if s[0] >= v then 1 else 0) + CountFrom(s[1..], v)
  }

  lemma {:induction false} CountApart(s: seq<Byte>, v: Byte, w: Byte)
    requires v < w
    ensures CountEq(s, v) + CountFrom(s, w) <= |s|
  {
    if s != [] { CountApart(s[1..], v, w); }
  }

  lemma {:induction false} CountEqFrom(s: seq<Byte>, v: Byte)
    ensures CountEq(s, v) <= CountFrom(s, v)
  {
    if s != [] { CountEqFrom(s[1..], v); }
  }

  predicate Above(s: seq<Byte>, t: seq<Byte>) {
    |s| == |t| && forall i :: 0 <= i < |s| ==> s[i] <= t[i]
  }

  lemma {:induction false} CountGrows(s: seq<Byte>, t: seq<Byte>, v: Byte)
    requires Above(s, t)
    ensures CountFrom(s, v) <= CountFrom(t, v)
  {
    if s != [] {
      assert Above(s[1..], t[1..]);
      CountGrows(s[1..], t[1..], v);
    }
  }

  lemma {:induction false} CountSum(s: seq<Byte>, t: seq<Byte>, v: Byte)
    ensures CountEq(s + t, v) == CountEq(s, v) + CountEq(t, v)
  {
    if s == [] {
      assert s + t == t;
    } else {
      assert (s + t)[1..] == s[1..] + t;
      CountSum(s[1..], t, v);
    }
  }

  /** What the others ask for; an observer, with index -1, has only others. */
  function Others(s: seq<Byte>, me: int): seq<Byte> {
    if 0 <= me < |s| then s[..me] + s[me + 1..] else s
  }

  lemma {:induction false} CountOthers(s: seq<Byte>, me: int, v: Byte)
    ensures CountEq(s, v) <= CountEq(Others(s, me), v) + if me >= 0 then 1 else 0
  {
    hide CountEq;
    if 0 <= me < |s| {
      assert s == s[..me] + ([s[me]] + s[me + 1..]);
      CountSum(s[..me], [s[me]] + s[me + 1..], v);
      CountSum([s[me]], s[me + 1..], v);
      CountSum(s[..me], s[me + 1..], v);
      CountSingle(s[me], v);
    }
  }

  lemma CountSingle(b: Byte, v: Byte)
    ensures CountEq([b], v) <= 1
  {
    assert [b][1..] == [];
  }

  // ---------------------------------------------------------------- the invariant

  /** The others that a quorum for a view needs beside this bookkeeper ask for it or a later one. A
      lone bookkeeper does so itself. */
  predicate Behind(c: Context, view: Byte)
    requires Shaped(c)
  {
    view > 0 ==>
      if c.n >= 2 then CountFrom(Others(c.expectedView, c.index), view) >= M(c.n) - if c.index >= 0 then 1 else 0
      else CountFrom(c.expectedView, view) >= M(c.n)
  }

  predicate ViewsOk(c: Context) {
    && Shaped(c)
    && c.primaryIndex == PrimaryOf(c.height, c.view, c.n)
    && Behind(c, c.view)
  }

  predicate Roles(c: Context) {
    && (Primary in c.state ==> c.index == c.primaryIndex)
    && (Backup in c.state ==> c.index != c.primaryIndex)
  }

  /** A vote of the current view shows in the flags. */
  predicate Marked(c: Context) {
    if c.index == c.primaryIndex then RequestSent in c.state else RequestReceived in c.state
  }

  predicate NotLater(v: Vote, c: Context) {
    v.height < c.height || (v.height == c.height && v.view <= c.view)
  }

  predicate Current(v: Vote, c: Context) {
    v.height == c.height && v.view == c.view
  }

  predicate OneHash(votes: set<Vote>) {
    forall v, w :: v in votes && w in votes && v.height == w.height && v.view == w.view ==> v.hash == w.hash
  }

  predicate VotesOk(votes: set<Vote>, c: Context) {
    && OneHash(votes)
    && (forall v :: v in votes ==> NotLater(v, c))
    && (forall v :: v in votes && Current(v, c) ==> Marked(c))
  }

  predicate Inv(s: Service) {
    ViewsOk(s.ctx) && Roles(s.ctx) && VotesOk(s.votes, s.ctx)
  }

  // ---------------------------------------------------------------- one step

  /** The context moved on: to a later height, or within the height to no earlier view with nothing
      taken back that the others ask for. */
  predicate Ahead(c: Context, d: Context) {
    || d.height > c.height
    || (d.height == c.height && d.view >= c.view && d.index == c.index && |d.expectedView| == |c.expectedView|
        && Above(Others(c.expectedView, c.index), Others(d.expectedView, d.index)))
  }

  /** No byte wraps around when this bookkeeper next asks for a view. */
  predicate NoWrap(c: Context)
    requires Shaped(c)
  {
    c.index >= 0 ==> NextView(c) != 0
  }

  /** No vote was cast at the height or beyond. */
  predicate Unvoted(votes: set<Vote>, height: Uint32) {
    forall v :: v in votes ==> v.height < height
  }

  /** The timer runs out on a bookkeeper that then asks for another view. */
  predicate Asks(s: Service, e: Event) {
    && e.Expired? && s.timerHeight == s.ctx.height && s.timeView == s.ctx.view && BlockGenerated !in s.ctx.state
    && ((Primary in s.ctx.state && RequestSent in s.ctx.state) || (Primary !in s.ctx.state && Backup in s.ctx.state))
  }

  /** The context is reset: by a saved block, or by a lone bookkeeper whose next view wraps to 0. */
  predicate Resets(s: Service, e: Event)
    requires Shaped(s.ctx)
  {
    e.BlockSaved? || (s.ctx.n == 1 && s.ctx.view > 0 && Asks(s, e) && NextView(s.ctx) == 0)
  }

  /** The one thing the code relies on without checking: a reset leads to a height without votes. */
  predicate Tame(s: Service, e: Event)
    requires Shaped(s.ctx)
  {
    Resets(s, e) ==> Unvoted(s.votes, NextHeight(e.l))
  }

  /** A reset raises the height. */
  predicate Rising(s: Service, e: Event)
    requires Shaped(s.ctx)
  {
    Resets(s, e) ==> NextHeight(e.l) > s.ctx.height
  }

  /** Votes are never taken back, and new ones are of the current view. */
  predicate VotesGrow(s: Service, t: Service) {
    s.votes <= t.votes && forall v :: v in t.votes && v !in s.votes ==> Current(v, t.ctx)
  }

  /** d differs from c in what no vote depends on, and has more flags but the same role. */
  predicate Settled(c: Context, d: Context) {
    && d.height == c.height && d.view == c.view && d.n == c.n && d.index == c.index
    && d.primaryIndex == c.primaryIndex && d.expectedView == c.expectedView
    && |d.signatures| == |c.signatures| && c.state <= d.state
    && (Primary in d.state ==> Primary in c.state) && (Backup in d.state ==> Backup in c.state)
  }

  lemma SettledKeeps(s: Service, d: Context)
    requires Inv(s) && Settled(s.ctx, d)
    ensures Inv(s.(ctx := d)) && Ahead(s.ctx, d)
  {
    hide PrimaryOf, CountFrom, M, Others;
  }

  /** A vote is cast only by a bookkeeper without the mark, and leaves the mark. */
  lemma VoteKeeps(s: Service, d: Context, x: Digest)
    requires Inv(s) && Settled(s.ctx, d) && !Marked(s.ctx) && Marked(d)
    ensures Inv(s.(ctx := d, votes := s.votes + {Vote(d.height, d.view, x)})) && Ahead(s.ctx, d)
  {
    hide PrimaryOf, CountFrom, M, Others;
    SettledKeeps(s, d);
    var v := Vote(d.height, d.view, x);
    forall w | w in s.votes ensures !Current(w, d) {
    }
  }

  /** Two quorums among n bookkeepers overlap. */
  lemma QuorumMajority(n: nat)
    requires n > 0
    ensures 2 * M(n) > n
  {}

  /** Two quorums but for one bookkeeper overlap among the others. */
  lemma OthersMajority(n: nat)
    requires n >= 2
    ensures 2 * (M(n) - 1) > n - 1
  {}

  /** A quorum asking for one view other than the current one asks for a later one. */
  lemma ViewsForward(c: Context, v: Byte)
    requires ViewsOk(c) && v != c.view && CountEq(c.expectedView, v) >= M(c.n)
    ensures v > c.view && Behind(c, v)
  {
    hide CountEq, CountFrom, M;
    QuorumMajority(c.n);
    CountEqFrom(c.expectedView, v);
    CountEqFrom(Others(c.expectedView, c.index), v);
    CountOthers(c.expectedView, c.index, v);
    if c.n >= 2 { OthersMajority(c.n); }
    if v < c.view {
      CountApart(c.expectedView, v, c.view);
      CountApart(Others(c.expectedView, c.index), v, c.view);
    }
  }

  lemma ChangeKeeps(s: Service, v: Byte, l: Ledger)
    requires Inv(s) && LedgerOk(l) && v > s.ctx.view && Behind(s.ctx, v)
    ensures Inv(Initialize(s, v, l)) && Ahead(s.ctx, Initialize(s, v, l).ctx)
  {
    hide PrimaryOf, CountFrom, M, Others;
  }

  lemma CheckKeeps(s: Service, v: Byte, l: Ledger)
    requires Inv(s) && LedgerOk(l)
    ensures Inv(CheckExpectedView(s, v, l)) && Ahead(s.ctx, CheckExpectedView(s, v, l).ctx)
  {
    hide Initialize, PrimaryOf, CountFrom, M, Inv, Ahead, VotesOk, CountEq, Behind;
    InvViews(s);
    if BlockGenerated in s.ctx.state || s.ctx.view == v || CountEq(s.ctx.expectedView, v) < M(s.ctx.n) {
      StaysAhead(s);
    } else {
      ViewsForward(s.ctx, v);
      ChangeKeeps(s, v, l);
    }
  }

  lemma StaysAhead(s: Service)
    ensures Ahead(s.ctx, s.ctx)
  {}

  lemma InvViews(s: Service)
    requires Inv(s)
    ensures ViewsOk(s.ctx)
  {}

  /** An expected view raised. */
  lemma RaiseKeeps(s: Service, i: nat, v: Byte)
    requires Inv(s) && i < s.ctx.n && v >= s.ctx.expectedView[i]
    ensures var d := s.ctx.(expectedView := s.ctx.expectedView[i := v]);
      Inv(s.(ctx := d)) && Ahead(s.ctx, d)
  {
    hide PrimaryOf, CountFrom, M, Others;
    var e := s.ctx.expectedView;
    OthersRaised(e, s.ctx.index, i, v);
    CountGrows(e, e[i := v], s.ctx.view);
    CountGrows(Others(e, s.ctx.index), Others(e[i := v], s.ctx.index), s.ctx.view);
  }

  lemma OthersRaised(s: seq<Byte>, me: int, i: nat, v: Byte)
    requires i < |s|
    ensures i == me ==> Others(s[i := v], me) == Others(s, me)
    ensures v >= s[i] ==> Above(Others(s, me), Others(s[i := v], me))
  {}

  /** The own expected view changed, to whatever, where there are others. */
  lemma OwnKeeps(s: Service, v: Byte)
    requires Inv(s) && s.ctx.index >= 0 && s.ctx.n >= 2
    ensures var d := s.ctx.(expectedView := s.ctx.expectedView[s.ctx.index := v]);
      Inv(s.(ctx := d)) && Ahead(s.ctx, d)
  {
    hide PrimaryOf, CountFrom, M, Others;
    OthersRaised(s.ctx.expectedView, s.ctx.index, s.ctx.index, v);
  }

  lemma AheadTwice(c: Context, d: Context, e: Context)
    requires Ahead(c, d) && Ahead(d, e)
    ensures Ahead(c, e)
  {
    hide Others;
  }

  lemma RaiseAndCheckKeeps(s: Service, i: nat, v: Byte, l: Ledger)
    requires Inv(s) && i < s.ctx.n && v >= s.ctx.expectedView[i] && LedgerOk(l)
    ensures var t := CheckExpectedView(s.(ctx := s.ctx.(expectedView := s.ctx.expectedView[i := v])), v, l);
      Inv(t) && Ahead(s.ctx, t.ctx)
  {
    hide Inv, Ahead, CheckExpectedView;
    InvViews(s);
    RaiseKeeps(s, i, v);
    var d := s.(ctx := s.ctx.(expectedView := s.ctx.expectedView[i := v]));
    CheckKeeps(d, v, l);
    AheadTwice(s.ctx, d.ctx, CheckExpectedView(d, v, l).ctx);
  }

  lemma NextViewGrows(c: Context)
    requires Shaped(c) && c.index >= 0
    ensures NoWrap(c) <==> NextView(c) > c.view && NextView(c) > c.expectedView[c.index]
    ensures !NoWrap(c) <==> c.view == 255 || c.expectedView[c.index] == 255
  {}

  lemma RequestKeeps(s: Service, l: Ledger)
    requires Inv(s) && s.ctx.index >= 0 && (s.ctx.n >= 2 || NoWrap(s.ctx) || s.ctx.view == 0) && LedgerOk(l)
    ensures Inv(RequestChangeView(s, l)) && Ahead(s.ctx, RequestChangeView(s, l).ctx)
  {
    hide Inv, Ahead, CheckExpectedView;
    InvViews(s);
    NextViewGrows(s.ctx);
    StaysAhead(s);
    if BlockGenerated !in s.ctx.state {
      if s.ctx.n >= 2 {
        OwnKeeps(s, NextView(s.ctx));
        var d := s.(ctx := s.ctx.(expectedView := s.ctx.expectedView[s.ctx.index := NextView(s.ctx)]));
        CheckKeeps(d, NextView(s.ctx), l);
        AheadTwice(s.ctx, d.ctx, CheckExpectedView(d, NextView(s.ctx), l).ctx);
      } else if NoWrap(s.ctx) {
        RaiseAndCheckKeeps(s, s.ctx.index, NextView(s.ctx), l);
      } else {
        LoneStays(s, l);
      }
    }
  }

  /** A lone bookkeeper at view 0 that wraps to 0 stays there. */
  lemma LoneStays(s: Service, l: Ledger)
    requires Inv(s) && s.ctx.index >= 0 && s.ctx.n == 1 && s.ctx.view == 0 && NextView(s.ctx) == 0 && LedgerOk(l)
    ensures Inv(RequestChangeView(s, l)) && Ahead(s.ctx, RequestChangeView(s, l).ctx)
  {
    hide PrimaryOf, CountFrom, M;
  }

  lemma InvRoles(s: Service)
    requires Inv(s)
    ensures Roles(s.ctx)
  {}

  lemma AcceptKeeps(s: Service, sender: nat, p: Proposal, sig: Option<Sig>, x: Digest, signs: bool)
    requires Inv(s) && Backup in s.ctx.state && RequestReceived !in s.ctx.state && sender < s.ctx.n
    ensures var d := Accept(s.ctx, sender, p, sig, x, signs);
      && Inv(s.(ctx := d, votes := if signs then s.votes + {Vote(s.ctx.height, s.ctx.view, x)} else s.votes))
      && Ahead(s.ctx, d)
  {
    hide PrimaryOf, CountFrom, M, Inv, Ahead, VotesOk;
    InvViews(s);
    InvRoles(s);
    var d := Accept(s.ctx, sender, p, sig, x, signs);
    if signs {
      VoteKeeps(s, d, x);
    } else {
      SettledKeeps(s, d);
      assert s.(ctx := d) == s.(ctx := d, votes := s.votes);
    }
  }

  lemma ProposalKeeps(hash: BlockHash, s: Service, sender: nat, p: Proposal, sig: Option<Sig>, q: Checks, l: Ledger)
    requires Inv(s) && sender < s.ctx.n && LedgerOk(l)
    ensures var t := PrepareRequestReceived(hash, s, sender, p, sig, q, l); Inv(t) && Ahead(s.ctx, t.ctx)
  {
    hide RequestChangeView, Accept, Inv, Ahead;
    InvViews(s);
    InvRoles(s);
    var x := hash(Header(s.ctx.prevHash, s.ctx.height, p));
    match Examine(s.ctx, sender, p, sig, x, q)
    case Ignored => StaysAhead(s);
    case Refused => RequestKeeps(s, l);
    case Accepted => AcceptKeeps(s, sender, p, sig, x, q.signs);
  }

  lemma SendKeeps(s: Service, d: Context)
    requires Inv(s) && Settled(s.ctx, d) && !Marked(s.ctx) && Marked(d) && d.index >= 0
    requires Shaped(d)
    ensures Inv(SendRequest(s.(ctx := d))) && Ahead(s.ctx, d) && SendRequest(s.(ctx := d)).ctx == d
  {
    hide Inv, Ahead, Settled;
    var mine := d.signatures[d.index];
    if mine.Some? {
      VoteKeeps(s, d, mine.value.hash);
      assert SendRequest(s.(ctx := d)) == s.(ctx := d, votes := s.votes + {Vote(d.height, d.view, mine.value.hash)});
    } else {
      SettledKeeps(s, d);
    }
  }

  lemma RequestOutKeeps(hash: BlockHash, s: Service, p: Proposal, q: Checks)
    requires Inv(s) && Primary in s.ctx.state && RequestSent !in s.ctx.state
    ensures var t := RequestOut(hash, s, p, q); Inv(t) && Ahead(s.ctx, t.ctx)
  {
    hide PrimaryOf, CountFrom, M, Inv, Ahead, VotesOk, SendRequest;
    InvViews(s);
    InvRoles(s);
    var d := s.ctx.(state := s.ctx.state + {RequestSent});
    if SignatureSent in s.ctx.state {
      SendKeeps(s, d);
    } else if !q.headerFound {
      SettledKeeps(s, d);
    } else if !q.validatorsOk {
      SettledKeeps(s, d.(proposal := p));
    } else {
      SendKeeps(s, Propose(hash, s.ctx, p, q.signs));
    }
  }

  lemma TimeoutKeeps(hash: BlockHash, s: Service, p: Proposal, q: Checks, l: Ledger)
    requires Inv(s) && LedgerOk(l) && !Resets(s, Expired(p, q, l))
    ensures var t := Timeout(hash, s, p, q, l); Inv(t) && Ahead(s.ctx, t.ctx)
  {
    hide RequestOut, CheckExpectedView, NextView, Inv, Ahead;
    InvViews(s);
    StaysAhead(s);
    if s.timerHeight == s.ctx.height && s.timeView == s.ctx.view {
      if Primary in s.ctx.state && RequestSent !in s.ctx.state {
        RequestOutKeeps(hash, s, p, q);
      } else if (Primary in s.ctx.state || Backup in s.ctx.state) && BlockGenerated !in s.ctx.state {
        RequestKeeps(s, l);
      }
    }
  }

  /** A lone bookkeeper whose next view wraps is reset. */
  lemma LoneReset(hash: BlockHash, s: Service, p: Proposal, q: Checks, l: Ledger)
    requires Shaped(s.ctx) && LedgerOk(l) && Resets(s, Expired(p, q, l))
    ensures Timeout(hash, s, p, q, l) == Initialize(s, 0, l)
  {
    var e := s.ctx.expectedView[s.ctx.index := 0];
    assert e == [0];
    CountOne(0);
    var u := s.(ctx := s.ctx.(expectedView := e));
    assert Timeout(hash, s, p, q, l) == CheckExpectedView(u, 0, l);
    assert Reset(u.ctx, l) == Reset(s.ctx, l);
  }

  lemma CountOne(e: Byte)
    ensures CountEq([e], e) == 1 && M(1) == 1
  {
    assert [e][1..] == [];
  }

  lemma SavedKeeps(s: Service, l: Ledger)
    requires OneHash(s.votes) && Unvoted(s.votes, NextHeight(l)) && LedgerOk(l)
    ensures Inv(Initialize(s, 0, l))
  {
    hide CountFrom, M, NoSigs, NoViews;
  }

  lemma ResponseKeeps(hash: BlockHash, s: Service, sender: nat, sig: Option<Sig>, submitted: bool)
    requires Inv(s) && sender < s.ctx.n
    ensures var t := PrepareResponseReceived(hash, s, sender, sig, submitted); Inv(t) && Ahead(s.ctx, t.ctx)
  {
    hide PrimaryOf, CountFrom, M, Inv, Ahead, VotesOk, CountSigs;
    InvViews(s);
    var t := PrepareResponseReceived(hash, s, sender, sig, submitted);
    assert t == s.(ctx := t.ctx);
    SettledKeeps(s, t.ctx);
  }

  lemma RelayKeeps(hash: BlockHash, s: Service, sender: nat, sigs: Relayed, submitted: bool)
    requires Inv(s) && sender < s.ctx.n
    ensures var t := BlockSignaturesReceived(hash, s, sender, sigs, submitted); Inv(t) && Ahead(s.ctx, t.ctx)
  {
    hide PrimaryOf, CountFrom, M, Inv, Ahead, VotesOk, CountSigs, AddSignatures;
    InvViews(s);
    var t := BlockSignaturesReceived(hash, s, sender, sigs, submitted);
    SettledKeeps(s, t.ctx);
    PanicAside(s.(ctx := t.ctx), t);
  }

  lemma PanicAside(s: Service, t: Service)
    requires s.ctx == t.ctx && s.votes == t.votes
    ensures Inv(s) <==> Inv(t)
  {}

  lemma ReceiveKeeps(hash: BlockHash, s: Service, e: Event)
    requires Inv(s) && e.Payload? && LedgerOk(e.l)
    ensures var t := Receive(hash, s, e); Inv(t) && Ahead(s.ctx, t.ctx)
  {
    hide Inv, Ahead, PrepareRequestReceived, PrepareResponseReceived, BlockSignaturesReceived, CheckExpectedView;
    InvViews(s);
    StaysAhead(s);
    if e.sender < s.ctx.n {
      match e.msg
      case ChangeViewMsg(v) =>
        if v > s.ctx.expectedView[e.sender] { RaiseAndCheckKeeps(s, e.sender, v, e.l); }
      case PrepareRequestMsg(p, sig, q) => ProposalKeeps(hash, s, e.sender, p, sig, q, e.l);
      case PrepareResponseMsg(sig, ok) => ResponseKeeps(hash, s, e.sender, sig, ok);
      case BlockSignaturesMsg(sigs, ok) => RelayKeeps(hash, s, e.sender, sigs, ok);
    }
  }

  /** Every event keeps the invariant, unless it resets to a height with votes; and unless it resets
      to no later height it takes nothing back. */
  lemma StepKeeps(hash: BlockHash, s: Service, e: Event)
    requires Inv(s) && LedgerOk(e.l) && Tame(s, e)
    ensures Inv(Step(hash, s, e))
    ensures Rising(s, e) ==> Ahead(s.ctx, Step(hash, s, e).ctx)
  {
    hide Receive, Timeout, Resets;
    InvViews(s);
    match e
    case Payload(_, _, _, _, _, _) =>
      ReceiveKeeps(hash, s, e);
      NoReset(s, e);
    case Expired(p, q, l) =>
      if Resets(s, e) {
        LoneReset(hash, s, p, q, l);
        SavedKeeps(s, l);
      } else {
        TimeoutKeeps(hash, s, p, q, l);
      }
    case BlockSaved(l) =>
      NoReset(s, e);
      SavedKeeps(s, l);
  }

  lemma NoReset(s: Service, e: Event)
    requires Shaped(s.ctx) && !e.Expired?
    ensures Resets(s, e) <==> e.BlockSaved?
  {}

  // ---------------------------------------------------------------- below view 255

  /** A quorum, this bookkeeper included, asks for the view or a later one. */
  predicate Quorate(c: Context)
    requires c.n > 0
  {
    c.view > 0 ==> CountFrom(c.expectedView, c.view) >= M(c.n)
  }

  /** No expected view is taken back, the own one included. */
  predicate Rises(c: Context, d: Context) {
    d.height > c.height || (d.height == c.height && Above(c.expectedView, d.expectedView))
  }

  /** Should the event make this bookkeeper ask for a view, no byte wraps around. */
  predicate Below(s: Service, e: Event)
    requires Shaped(s.ctx)
  {
    e.Expired? || (e.Payload? && e.msg.PrepareRequestMsg?) ==> NoWrap(s.ctx)
  }

  lemma RaiseRises(s: Service, i: nat, v: Byte, l: Ledger)
    requires Shaped(s.ctx) && Quorate(s.ctx) && i < s.ctx.n && v > s.ctx.expectedView[i] && LedgerOk(l)
    ensures var t := CheckExpectedView(s.(ctx := s.ctx.(expectedView := s.ctx.expectedView[i := v])), v, l);
      t.ctx.n > 0 && Quorate(t.ctx) && Rises(s.ctx, t.ctx)
  {
    hide CountEq, CountFrom, M, PrimaryOf;
    var e := s.ctx.expectedView;
    CountGrows(e, e[i := v], s.ctx.view);
    CountEqFrom(e[i := v], v);
  }

  lemma RequestRises(s: Service, l: Ledger)
    requires Shaped(s.ctx) && s.ctx.index >= 0 && Quorate(s.ctx) && NoWrap(s.ctx) && LedgerOk(l)
    ensures var t := RequestChangeView(s, l); t.ctx.n > 0 && Quorate(t.ctx) && Rises(s.ctx, t.ctx)
  {
    hide CheckExpectedView, Quorate;
    NextViewGrows(s.ctx);
    if BlockGenerated !in s.ctx.state { RaiseRises(s, s.ctx.index, NextView(s.ctx), l); }
  }

  /** As long as no byte wraps around, whole quorums stay behind the views and no expected view is
      taken back. */
  lemma StepRises(hash: BlockHash, s: Service, e: Event)
    requires Shaped(s.ctx) && Quorate(s.ctx) && LedgerOk(e.l) && Below(s, e)
    ensures var t := Step(hash, s, e); t.ctx.n > 0 && Quorate(t.ctx) && (Rising(s, e) ==> Rises(s.ctx, t.ctx))
  {
    hide RequestChangeView, CheckExpectedView, CountFrom, M, CountSigs, AddSignatures, NoWrap;
    if s.ctx.index >= 0 && NoWrap(s.ctx) { RequestRises(s, e.l); }
    if e.Payload? && e.msg.ChangeViewMsg? && e.sender < s.ctx.n && e.msg.newView > s.ctx.expectedView[e.sender] {
      RaiseRises(s, e.sender, e.msg.newView, e.l);
    }
  }

  // ---------------------------------------------------------------- votes

  lemma VotesKept(s: Service, t: Service)
    requires VotesGrow(s, t)
    ensures s.votes <= t.votes
  {}

  /** Asking for, or moving to, another view casts no vote. */
  lemma ViewVotes(s: Service, v: Byte, l: Ledger)
    requires LedgerOk(l) && (v == 0 || s.ctx.n > 0)
    ensures Initialize(s, v, l).votes == s.votes
    ensures s.ctx.n > 0 ==> CheckExpectedView(s, v, l).votes == s.votes
    ensures Shaped(s.ctx) && s.ctx.index >= 0 ==> RequestChangeView(s, l).votes == s.votes
  {
    hide CountEq, M;
  }

  lemma StepVotes(hash: BlockHash, s: Service, e: Event)
    requires Shaped(s.ctx) && LedgerOk(e.l)
    ensures VotesGrow(s, Step(hash, s, e))
  {
    hide Initialize, CheckExpectedView, RequestChangeView, AddSignatures, CountSigs, M;
    ViewVotes(s, 0, e.l);
    if e.Payload? && e.msg.ChangeViewMsg? && e.sender < s.ctx.n {
      var v := e.msg.newView;
      ViewVotes(s.(ctx := s.ctx.(expectedView := s.ctx.expectedView[e.sender := v])), v, e.l);
    }
  }

  // ---------------------------------------------------------------- generated blocks

  /** A backup that took a proposal over holds only signatures of that block, and a quorum of them
      once it generated the block. */
  predicate Backed(hash: BlockHash, c: Context) {
    RequestReceived in c.state && Shaped(c) ==>
      && Backup in c.state
      && c.header.Some?
      && (forall i :: 0 <= i < c.n && c.signatures[i].Some? ==> c.signatures[i].value == Sig(i, hash(c.header.value)))
      && (BlockGenerated in c.state ==> CountSigs(c.signatures) >= M(c.n))
  }

  lemma InitializeBacks(hash: BlockHash, s: Service, v: Byte, l: Ledger)
    requires Backed(hash, s.ctx) && LedgerOk(l) && (v == 0 || s.ctx.n > 0)
    ensures Backed(hash, Initialize(s, v, l).ctx)
  {}

  lemma CheckBacks(hash: BlockHash, s: Service, i: nat, v: Byte, w: Byte, l: Ledger)
    requires Shaped(s.ctx) && Backed(hash, s.ctx) && LedgerOk(l) && i < s.ctx.n
    ensures Backed(hash, CheckExpectedView(s.(ctx := s.ctx.(expectedView := s.ctx.expectedView[i := v])), w, l).ctx)
  {
    hide Initialize, CountEq, CountSigs, M;
    InitializeBacks(hash, s.(ctx := s.ctx.(expectedView := s.ctx.expectedView[i := v])), w, l);
  }

  lemma {:induction false} AddBacks(hash: BlockHash, c: Context, sigs: Relayed)
    requires Shaped(c) && Backed(hash, c) && BlockGenerated !in c.state
    ensures Backed(hash, AddSignatures(hash, c, sigs).0)
    decreases |sigs|
  {
    hide CountSigs, M;
    if sigs != [] {
      var (i, sig) := sigs[0];
      AddBacks(hash, c, sigs[1..]);
      if i < c.n && sig == Some(Sig(i, hash(MakeHeader(c)))) {
        AddBacks(hash, c.(signatures := c.signatures[i := sig]), sigs[1..]);
      }
    }
  }

  lemma GenerateBacks(hash: BlockHash, c: Context, submitted: bool)
    requires Shaped(c) && Backed(hash, c) && BlockGenerated !in c.state
    ensures Backed(hash, CheckSignatures(c, submitted))
  {
    hide CountSigs, M;
  }

  lemma ProposalBacks(hash: BlockHash, s: Service, sender: nat, p: Proposal, sig: Option<Sig>, q: Checks, l: Ledger)
    requires Shaped(s.ctx) && Backed(hash, s.ctx) && sender < s.ctx.n && LedgerOk(l) && BlockGenerated !in s.ctx.state
    ensures Backed(hash, PrepareRequestReceived(hash, s, sender, p, sig, q, l).ctx)
  {
    hide CountSigs, M, CheckExpectedView;
    if s.ctx.index >= 0 { CheckBacks(hash, s, s.ctx.index, NextView(s.ctx), NextView(s.ctx), l); }
  }

  lemma ResponseBacks(hash: BlockHash, s: Service, sender: nat, sig: Option<Sig>, submitted: bool)
    requires Shaped(s.ctx) && Backed(hash, s.ctx) && sender < s.ctx.n
    ensures Backed(hash, PrepareResponseReceived(hash, s, sender, sig, submitted).ctx)
  {
    hide CountSigs, M, CheckSignatures;
    var c := s.ctx;
    if BlockGenerated !in c.state && sig == Some(Sig(sender, hash(MakeHeader(c)))) {
      GenerateBacks(hash, c.(header := Some(MakeHeader(c)), signatures := c.signatures[sender := sig]), submitted);
    }
  }

  lemma RelayBacks(hash: BlockHash, s: Service, sender: nat, sigs: Relayed, submitted: bool)
    requires Shaped(s.ctx) && Backed(hash, s.ctx) && sender < s.ctx.n
    ensures Backed(hash, BlockSignaturesReceived(hash, s, sender, sigs, submitted).ctx)
  {
    hide CountSigs, M, AddSignatures, CheckSignatures;
    if BlockGenerated !in s.ctx.state {
      var d := s.ctx.(header := Some(MakeHeader(s.ctx)));
      AddBacks(hash, d, sigs);
      GenerateBacks(hash, AddSignatures(hash, d, sigs).0, submitted);
    }
  }

  lemma ReceiveBacks(hash: BlockHash, s: Service, e: Event)
    requires Shaped(s.ctx) && Backed(hash, s.ctx) && e.Payload? && LedgerOk(e.l)
    ensures Backed(hash, Receive(hash, s, e).ctx)
  {
    hide Backed, CheckExpectedView, PrepareRequestReceived, PrepareResponseReceived, BlockSignaturesReceived;
    if e.sender < s.ctx.n && BlockGenerated !in s.ctx.state {
      match e.msg
      case ChangeViewMsg(v) => CheckBacks(hash, s, e.sender, v, v, e.l);
      case PrepareRequestMsg(p, sig, q) => ProposalBacks(hash, s, e.sender, p, sig, q, e.l);
      case PrepareResponseMsg(sig, ok) => ResponseBacks(hash, s, e.sender, sig, ok);
      case BlockSignaturesMsg(sigs, ok) => RelayBacks(hash, s, e.sender, sigs, ok);
    }
  }

  lemma TimeoutBacks(hash: BlockHash, s: Service, p: Proposal, q: Checks, l: Ledger)
    requires Shaped(s.ctx) && Roles(s.ctx) && Backed(hash, s.ctx) && LedgerOk(l)
    ensures Backed(hash, Timeout(hash, s, p, q, l).ctx)
  {
    hide CountSigs, M, CheckExpectedView;
    if s.ctx.index >= 0 { CheckBacks(hash, s, s.ctx.index, NextView(s.ctx), NextView(s.ctx), l); }
  }

  lemma StepBacks(hash: BlockHash, s: Service, e: Event)
    requires Shaped(s.ctx) && Roles(s.ctx) && Backed(hash, s.ctx) && LedgerOk(e.l)
    ensures Backed(hash, Step(hash, s, e).ctx)
  {
    hide Backed, Receive, Timeout, Initialize, Roles;
    match e
    case Payload(_, _, _, _, _, _) => ReceiveBacks(hash, s, e);
    case Expired(p, q, l) => TimeoutBacks(hash, s, p, q, l);
    case BlockSaved(l) => InitializeBacks(hash, s, 0, l);
  }

  // ---------------------------------------------------------------- whole runs

  /** Every reset of the run leads to a height without votes. */
  predicate Legal(hash: BlockHash, s: Service, es: seq<Event>)
    requires Inv(s)
    decreases |es|
  {
    es == [] ||
    (LedgerOk(es[0].l) && Tame(s, es[0]) &&
     (StepKeeps(hash, s, es[0]); Legal(hash, Step(hash, s, es[0]), es[1..])))
  }

  function Run(hash: BlockHash, s: Service, es: seq<Event>): Service
    requires Inv(s) && Legal(hash, s, es)
    decreases |es|
  {
    if es == [] then s
    else
      StepKeeps(hash, s, es[0]);
      Run(hash, Step(hash, s, es[0]), es[1..])
  }

  lemma StartOk(l: Ledger)
    requires LedgerOk(l)
    ensures Inv(Start(l))
  {
    SavedKeeps(Service(Start(l).ctx, 0, 0, {}, false), l);
    hide CountFrom, M, NoSigs, NoViews;
  }

  /** Every reset of the run raises the height. */
  predicate AllRising(hash: BlockHash, s: Service, es: seq<Event>)
    requires Inv(s) && Legal(hash, s, es)
    decreases |es|
  {
    es == [] ||
    (Rising(s, es[0]) && (StepKeeps(hash, s, es[0]); AllRising(hash, Step(hash, s, es[0]), es[1..])))
  }

  /** No byte wraps around in the run. */
  predicate AllBelow(hash: BlockHash, s: Service, es: seq<Event>)
    requires Inv(s) && Legal(hash, s, es)
    decreases |es|
  {
    es == [] ||
    (Below(s, es[0]) && (StepKeeps(hash, s, es[0]); AllBelow(hash, Step(hash, s, es[0]), es[1..])))
  }

  lemma {:induction false} RunKeeps(hash: BlockHash, s: Service, es: seq<Event>)
    requires Inv(s) && Legal(hash, s, es)
    ensures Inv(Run(hash, s, es)) && s.votes <= Run(hash, s, es).votes
    ensures AllRising(hash, s, es) ==> Ahead(s.ctx, Run(hash, s, es).ctx)
    decreases |es|
  {
    hide Inv, Ahead, Step, LedgerOk, Tame, VotesGrow, Rising;
    StaysAhead(s);
    InvViews(s);
    if es != [] {
      StepKeeps(hash, s, es[0]);
      StepVotes(hash, s, es[0]);
      var t := Step(hash, s, es[0]);
      VotesKept(s, t);
      RunKeeps(hash, t, es[1..]);
      if AllRising(hash, s, es) { AheadTwice(s.ctx, t.ctx, Run(hash, t, es[1..]).ctx); }
    }
  }

  lemma {:induction false} RunRises(hash: BlockHash, s: Service, es: seq<Event>)
    requires Inv(s) && Quorate(s.ctx) && Legal(hash, s, es) && AllBelow(hash, s, es)
    ensures var t := Run(hash, s, es); t.ctx.n > 0 && Quorate(t.ctx) && (AllRising(hash, s, es) ==> Rises(s.ctx, t.ctx))
    decreases |es|
  {
    hide Inv, Step, LedgerOk, Tame, Below, Rising, Quorate;
    InvViews(s);
    if es != [] {
      StepRises(hash, s, es[0]);
      StepKeeps(hash, s, es[0]);
      RunRises(hash, Step(hash, s, es[0]), es[1..]);
    }
  }

  lemma {:induction false} RunBacks(hash: BlockHash, s: Service, es: seq<Event>)
    requires Inv(s) && Backed(hash, s.ctx) && Legal(hash, s, es)
    ensures Backed(hash, Run(hash, s, es).ctx)
    decreases |es|
  {
    hide Inv, Backed, Step, LedgerOk, Tame;
    InvViews(s);
    InvRoles(s);
    if es != [] {
      StepBacks(hash, s, es[0]);
      StepKeeps(hash, s, es[0]);
      RunBacks(hash, Step(hash, s, es[0]), es[1..]);
    }
  }

  /** What a service can come to from its start. */
  ghost predicate Reached(hash: BlockHash, s: Service) {
    exists l, es :: LedgerOk(l) && RunsTo(hash, l, es, s)
  }

  ghost predicate RunsTo(hash: BlockHash, l: Ledger, es: seq<Event>, s: Service)
    requires LedgerOk(l)
  {
    StartOk(l);
    Legal(hash, Start(l), es) && s == Run(hash, Start(l), es)
  }

  lemma ReachedOk(hash: BlockHash, s: Service)
    requires Reached(hash, s)
    ensures Inv(s) && Backed(hash, s.ctx)
  {
    hide Run, Legal, Inv, Backed;
    var l, es :| LedgerOk(l) && RunsTo(hash, l, es, s);
    StartOk(l);
    StartBacks(hash, l);
    RunKeeps(hash, Start(l), es);
    RunBacks(hash, Start(l), es);
  }

  lemma StartBacks(hash: BlockHash, l: Ledger)
    requires LedgerOk(l)
    ensures Backed(hash, Start(l).ctx)
  {}

  // ---------------------------------------------------------------- agreement

  /** The bookkeepers of one height, 0 up to n. */
  function Seats(n: nat): (r: set<nat>)
    ensures |r| == n && forall i: nat :: i in r <==> i < n
  {
    if n == 0 then {} else Seats(n - 1) + {n - 1}
  }

  /** Two quorums share more bookkeepers than may be faulty. */
  lemma QuorumsMeet(n: nat, a: set<nat>, b: set<nat>)
    requires n > 0 && a <= Seats(n) && b <= Seats(n) && |a| >= M(n) && |b| >= M(n)
    ensures |a * b| > (n - 1) / 3
  {
    assert a + b <= Seats(n);
    SubsetSize(a + b, Seats(n));
    assert |a| + |b| == |a + b| + |a * b|;
  }

  /** In one view of one height, all but (n-1)/3 bookkeepers running the code from their start, no
      two quorums of votes are for different blocks, whatever payloads and answers they got. */
  lemma Agreement(hash: BlockHash, n: nat, honest: map<nat, Service>, a: set<nat>, b: set<nat>,
                  height: Uint32, view: Byte, x: Digest, y: Digest)
    requires n > 0 && honest.Keys <= Seats(n) && |Seats(n) - honest.Keys| <= (n - 1) / 3
    requires forall i :: i in honest ==> Reached(hash, honest[i])
    requires a <= Seats(n) && b <= Seats(n) && |a| >= M(n) && |b| >= M(n)
    requires forall i :: i in honest && i in a ==> Vote(height, view, x) in honest[i].votes
    requires forall i :: i in honest && i in b ==> Vote(height, view, y) in honest[i].votes
    ensures x == y
  {
    hide Reached, M;
    QuorumsMeet(n, a, b);
    if (a * b) * honest.Keys == {} {
      assert a * b <= Seats(n) - honest.Keys;
      SubsetSize(a * b, Seats(n) - honest.Keys);
      assert false;
    }
    var i :| i in a * b && i in honest;
    ReachedOk(hash, honest[i]);
    OneEach(honest[i].votes, Vote(height, view, x), Vote(height, view, y));
  }

  lemma OneEach(votes: set<Vote>, v: Vote, w: Vote)
    requires OneHash(votes) && v in votes && w in votes && v.height == w.height && v.view == w.view
    ensures v.hash == w.hash
  {}
}
