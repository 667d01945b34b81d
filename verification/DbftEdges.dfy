/** dBFT at the edges of what its code relies on without checking: when a reset, a relayed index and,
    for a lone bookkeeper, the last view break it. */
module DbftEdges {
  import opened Words
  import opened DbftModel
  import opened DbftSafety

  // ---------------------------------------------------------------- resets

  /** A reset keeps the invariant, and with it one block hash per height and view, if and only if
      no vote was cast at the new height or beyond: always when it raises the height, and at an
      unchanged height exactly when nothing was voted for there yet. */
  lemma ResetKeepsExact(s: Service, l: Ledger)
    requires Inv(s) && LedgerOk(l)
    ensures Inv(Initialize(s, 0, l)) <==> Unvoted(s.votes, NextHeight(l))
    ensures NextHeight(l) > s.ctx.height ==> Unvoted(s.votes, NextHeight(l))
    ensures NextHeight(l) == s.ctx.height ==>
      (Unvoted(s.votes, NextHeight(l)) <==> forall v :: v in s.votes ==> v.height != s.ctx.height)
  {
    if Unvoted(s.votes, NextHeight(l)) {
      SavedKeeps(s, l);
    } else {
      var v :| v in s.votes && v.height >= NextHeight(l);
      Unmarked(s, l);
      LateVote(Initialize(s, 0, l), v);
    }
  }

  /** Every event keeps the invariant if and only if it is no reset to a height with votes. Where
      there are two bookkeepers or more only a saved block resets; no payload and no timeout, past
      view 255 or not, does any harm. */
  lemma StepExact(hash: BlockHash, s: Service, e: Event)
    requires Inv(s) && LedgerOk(e.l)
    ensures Inv(Step(hash, s, e)) <==> Tame(s, e)
    ensures Resets(s, e) <==> e.BlockSaved? || LoneWraps(s, e)
    ensures Resets(s, e) ==> Step(hash, s, e) == Initialize(s, 0, e.l)
    ensures s.ctx.n >= 2 && !e.BlockSaved? ==> Tame(s, e) && Rising(s, e)
  {
    hide Inv, Unvoted, Initialize, Receive, Timeout;
    InvViews(s);
    if Resets(s, e) {
      if e.Expired? { LoneReset(hash, s, e.proposal, e.checks, e.l); }
      ResetKeepsExact(s, e.l);
    } else {
      StepKeeps(hash, s, e);
    }
  }

  /** The timer of a lone bookkeeper past view 0 runs out with a counter at 255. */
  predicate LoneWraps(s: Service, e: Event)
    requires Shaped(s.ctx)
  {
    s.ctx.n == 1 && s.ctx.view > 0 && Asks(s, e) && (s.ctx.view == 255 || s.ctx.expectedView == [255])
  }

  /** A vote of the start of a height, or beyond, is out of place in a context there without a mark. */
  lemma LateVote(t: Service, v: Vote)
    requires v in t.votes && v.height >= t.ctx.height && t.ctx.view == 0 && !Marked(t.ctx)
    ensures !Inv(t)
  {
    if NotLater(v, t.ctx) { assert Current(v, t.ctx); }
  }

  /** A reset leaves no mark of a vote. */
  lemma Unmarked(s: Service, l: Ledger)
    requires LedgerOk(l)
    ensures var t := Initialize(s, 0, l);
            t.ctx.height == NextHeight(l) && t.ctx.view == 0 && !Marked(t.ctx) && t.votes == s.votes
  {}

  const ALL_WELL := Checks(true, true, true, true, true, true)

  /** A second Reset at the same height lets the primary vote again, for another block. */
  lemma SecondResetVotesAgain(hash: BlockHash, l: Ledger, p: Proposal, q: Proposal)
    requires LedgerOk(l) && NextHeight(l) % l.bookkeepers == l.seat
    ensures var s := Timeout(hash, Start(l), p, ALL_WELL, l);
      var t := Timeout(hash, Initialize(s, 0, l), q, ALL_WELL, l);
      && Vote(NextHeight(l), 0, hash(Header(l.hash, NextHeight(l), p))) in t.votes
      && Vote(NextHeight(l), 0, hash(Header(l.hash, NextHeight(l), q))) in t.votes
  {
    hide NoViews, NoSigs;
    var s0 := Start(l);
    assert s0.ctx.state == {Primary};
    var s := Timeout(hash, s0, p, ALL_WELL, l);
    assert Vote(NextHeight(l), 0, hash(Header(l.hash, NextHeight(l), p))) in s.votes;
    var s1 := Initialize(s, 0, l);
    assert s1.ctx.state == {Primary} && s1.votes == s.votes;
  }

  // ---------------------------------------------------------------- relayed indices

  /** All the relayed signatures that check out and are new, without stopping. */
  function Filled(slots: seq<Option<Sig>>, x: Digest, sigs: Relayed): (r: seq<Option<Sig>>)
    requires forall i :: 0 <= i < |sigs| ==> sigs[i].0 < |slots|
    ensures |r| == |slots|
    decreases |sigs|
  {
    if sigs == [] then slots
    else
      var (i, sig) := sigs[0];
      Filled(if slots[i] == None && sig == Some(Sig(i, x)) then slots[i := sig] else slots, x, sigs[1..])
  }

  lemma {:induction false} OneSlot(slots: seq<Option<Sig>>, i: nat, sig: Sig)
    requires i < |slots| && slots[i] == None
    ensures CountSigs(slots[i := Some(sig)]) == CountSigs(slots) + 1
  {
    if i > 0 {
      OneSlot(slots[1..], i - 1, sig);
      assert slots[i := Some(sig)][1..] == slots[1..][i - 1 := Some(sig)];
    } else {
      assert slots[0 := Some(sig)][1..] == slots[1..];
    }
  }

  lemma {:induction false} FilledGrows(slots: seq<Option<Sig>>, x: Digest, sigs: Relayed)
    requires forall i :: 0 <= i < |sigs| ==> sigs[i].0 < |slots|
    ensures CountSigs(Filled(slots, x, sigs)) >= CountSigs(slots)
    ensures CountSigs(Filled(slots, x, sigs)) == CountSigs(slots) ==> Filled(slots, x, sigs) == slots
    decreases |sigs|
  {
    hide CountSigs;
    if sigs != [] {
      var (i, sig) := sigs[0];
      if slots[i] == None && sig == Some(Sig(i, x)) {
        OneSlot(slots, i, Sig(i, x));
        FilledGrows(slots[i := sig], x, sigs[1..]);
      } else {
        FilledGrows(slots, x, sigs[1..]);
      }
    }
  }

  /** Position i holds the first index out of range, and the signatures before it added none or
      not enough. */
  predicate PanicsAt(c: Context, x: Digest, sigs: Relayed, i: nat)
    requires |c.signatures| == c.n > 0
  {
    && i < |sigs| && sigs[i].0 >= c.n
    && (forall j :: 0 <= j < i ==> sigs[j].0 < c.n)
    && var filled := Filled(c.signatures, x, sigs[..i]);
       filled == c.signatures || CountSigs(filled) < M(c.n)
  }

  /** When the loop over relayed signatures panics. */
  lemma {:induction false} PanicExact(hash: BlockHash, c: Context, sigs: Relayed)
    requires |c.signatures| == c.n > 0
    ensures AddSignatures(hash, c, sigs).1 <==> exists i: nat :: PanicsAt(c, hash(MakeHeader(c)), sigs, i)
    decreases |sigs|
  {
    hide M, CountSigs, Filled;
    var x := hash(MakeHeader(c));
    if sigs == [] {
    } else if sigs[0].0 >= c.n {
      NothingFilled(c.signatures, x);
      assert sigs[..0] == [];
      assert PanicsAt(c, x, sigs, 0);
    } else {
      var d := AfterFirst(hash, c, sigs);
      PanicExact(hash, d, sigs[1..]);
      PanicShift(hash, c, sigs);
    }
  }

  lemma NothingFilled(slots: seq<Option<Sig>>, x: Digest)
    ensures Filled(slots, x, []) == slots
  {}

  function AfterFirst(hash: BlockHash, c: Context, sigs: Relayed): (d: Context)
    requires |c.signatures| == c.n > 0 && sigs != [] && sigs[0].0 < c.n
    ensures d == c.(signatures := d.signatures) && |d.signatures| == c.n
  {
    var (i, sig) := sigs[0];
    if c.signatures[i] == None && sig == Some(Sig(i, hash(MakeHeader(c))))
    then c.(signatures := c.signatures[i := sig])
    else c
  }

  lemma PanicShift(hash: BlockHash, c: Context, sigs: Relayed)
    requires |c.signatures| == c.n > 0 && sigs != [] && sigs[0].0 < c.n
    requires var d := AfterFirst(hash, c, sigs);
      AddSignatures(hash, d, sigs[1..]).1 <==> exists i: nat :: PanicsAt(d, hash(MakeHeader(d)), sigs[1..], i)
    ensures AddSignatures(hash, c, sigs).1 <==> exists i: nat :: PanicsAt(c, hash(MakeHeader(c)), sigs, i)
  {
    hide M, CountSigs, Filled, PanicsAt;
    var d, x := AfterFirst(hash, c, sigs), hash(MakeHeader(c));
    assert MakeHeader(d) == MakeHeader(c);
    forall i: nat | i > 0
      ensures PanicsAt(c, x, sigs, i) ==
              (PanicsAt(d, x, sigs[1..], i - 1) && (d == c || CountSigs(d.signatures) < M(c.n)))
    {
      PanicTail(hash, c, sigs, i);
    }
    assert !PanicsAt(c, x, sigs, 0) by { InRangeFirst(c, x, sigs); }
    if AddSignatures(hash, c, sigs).1 {
      var i: nat :| PanicsAt(d, x, sigs[1..], i);
      assert PanicsAt(c, x, sigs, i + 1);
    }
    if exists i: nat :: PanicsAt(c, x, sigs, i) {
      var i: nat :| PanicsAt(c, x, sigs, i);
      assert i > 0;
      assert PanicsAt(d, x, sigs[1..], i - 1);
    }
  }

  lemma InRangeFirst(c: Context, x: Digest, sigs: Relayed)
    requires |c.signatures| == c.n > 0 && sigs != [] && sigs[0].0 < c.n
    ensures !PanicsAt(c, x, sigs, 0)
  {}

  lemma PanicTail(hash: BlockHash, c: Context, sigs: Relayed, i: nat)
    requires |c.signatures| == c.n > 0 && sigs != [] && sigs[0].0 < c.n && i > 0
    ensures var d, x := AfterFirst(hash, c, sigs), hash(MakeHeader(c));
      PanicsAt(c, x, sigs, i) == (PanicsAt(d, x, sigs[1..], i - 1) && (d == c || CountSigs(d.signatures) < M(c.n)))
  {
    hide M, CountSigs;
    var d, x := AfterFirst(hash, c, sigs), hash(MakeHeader(c));
    var tail := sigs[1..];
    assert forall j :: 0 < j < |sigs| ==> sigs[j] == tail[j - 1];
    assert forall j :: 0 <= j < |tail| ==> tail[j] == sigs[j + 1];
    if i < |sigs| && sigs[i].0 >= c.n && forall j :: 0 <= j < i ==> sigs[j].0 < c.n {
      assert sigs[..i][1..] == tail[..i - 1] && sigs[..i][0] == sigs[0];
      assert Filled(c.signatures, x, sigs[..i]) == Filled(d.signatures, x, tail[..i - 1]);
      FilledGrows(d.signatures, x, tail[..i - 1]);
      if d != c { OneSlot(c.signatures, sigs[0].0, Sig(sigs[0].0, x)); }
    }
  }

  // ---------------------------------------------------------------- a lone bookkeeper past view 255

  /** The timer runs out and every answer is good. */
  function Tick(hash: BlockHash, s: Service, p: Proposal, l: Ledger): (t: Service)
    requires Shaped(s.ctx) && LedgerOk(l)
    ensures Shaped(t.ctx)
  {
    TimeoutShaped(hash, s, p, ALL_WELL, l);
    Timeout(hash, s, p, ALL_WELL, l)
  }

  lemma InitializeShaped(s: Service, v: Byte, l: Ledger)
    requires Shaped(s.ctx) && LedgerOk(l)
    ensures Shaped(Initialize(s, v, l).ctx)
  {
    hide PrimaryOf;
  }

  lemma TimeoutShaped(hash: BlockHash, s: Service, p: Proposal, q: Checks, l: Ledger)
    requires Shaped(s.ctx) && LedgerOk(l)
    ensures Shaped(Timeout(hash, s, p, q, l).ctx)
  {
    hide Initialize, CountEq, M;
    if s.ctx.index >= 0 {
      var e := NextView(s.ctx);
      InitializeShaped(s.(ctx := s.ctx.(expectedView := s.ctx.expectedView[s.ctx.index := e])), e, l);
    }
  }

  function Ticks(hash: BlockHash, s: Service, p: Proposal, l: Ledger, k: nat): (t: Service)
    requires Shaped(s.ctx) && LedgerOk(l)
    ensures Shaped(t.ctx)
  {
    if k == 0 then s else Tick(hash, Ticks(hash, s, p, l, k - 1), p, l)
  }

  /** A lone bookkeeper at the start of a view. */
  predicate Lone(s: Service, l: Ledger, view: Byte) {
    && Shaped(s.ctx) && s.ctx.n == 1 && s.ctx.index == 0 && s.ctx.state == {Primary}
    && s.ctx.prevHash == l.hash && s.ctx.height == NextHeight(l) == s.timerHeight
    && s.ctx.view == view == s.timeView && s.ctx.expectedView == [view]
  }

  /** Its request is out, and with it its vote. */
  predicate LoneSent(s: Service, l: Ledger, view: Byte) {
    && s.ctx.n == 1 && s.ctx.index == 0 && s.ctx.state == {Primary, RequestSent} && |s.ctx.signatures| == 1
    && s.ctx.prevHash == l.hash && s.ctx.height == NextHeight(l) == s.timerHeight
    && s.ctx.view == view == s.timeView && s.ctx.expectedView == [view]
  }

  lemma LoneSends(hash: BlockHash, s: Service, p: Proposal, l: Ledger, view: Byte)
    requires LedgerOk(l) && Lone(s, l, view)
    ensures var t := Tick(hash, s, p, l);
      && LoneSent(t, l, view) && s.votes <= t.votes
      && Vote(NextHeight(l), view, hash(Header(l.hash, NextHeight(l), p))) in t.votes
  {
    var x := Header(l.hash, NextHeight(l), p);
    var c := Propose(hash, s.ctx, p, true);
    assert c.signatures[0] == Some(Sig(0, hash(x)));
    assert c.state == {Primary, RequestSent};
    assert Tick(hash, s, p, l) == SendRequest(s.(ctx := c));
    hide Propose, PrimaryOf;
  }

  lemma LoneAsks(hash: BlockHash, t: Service, p: Proposal, l: Ledger, view: Byte)
    requires LedgerOk(l) && l.bookkeepers == 1 && l.seat == 0 && Shaped(t.ctx) && LoneSent(t, l, view)
    ensures Lone(Tick(hash, t, p, l), l, (view as int + 1) % 0x100) && Tick(hash, t, p, l).votes == t.votes
  {
    hide Initialize, Lone, PrimaryOf;
    var e := (view as int + 1) % 0x100;
    assert NextView(t.ctx) == e;
    assert t.ctx.expectedView[0 := e] == [e];
    CountOne(e);
    var u := t.(ctx := t.ctx.(expectedView := [e]));
    assert Tick(hash, t, p, l) == Initialize(u, e, l);
    LoneStart(u, e, l);
  }

  /** It sends its request, with its vote, and then asks for the next view and has it. */
  lemma LoneTurn(hash: BlockHash, s: Service, p: Proposal, l: Ledger, view: Byte)
    requires LedgerOk(l) && l.bookkeepers == 1 && l.seat == 0 && Lone(s, l, view)
    ensures Shaped(s.ctx)
    ensures var t := Tick(hash, s, p, l);
      && s.votes <= t.votes
      && Vote(NextHeight(l), view, hash(Header(l.hash, NextHeight(l), p))) in t.votes
      && Lone(Tick(hash, t, p, l), l, (view as int + 1) % 0x100) && t.votes <= Tick(hash, t, p, l).votes
  {
    hide Tick, Lone, LoneSent, Shaped;
    LoneShape(s, l, view);
    LoneSends(hash, s, p, l, view);
    LoneAsks(hash, Tick(hash, s, p, l), p, l, view);
  }

  lemma LoneStart(u: Service, e: Byte, l: Ledger)
    requires LedgerOk(l) && l.bookkeepers == 1 && l.seat == 0 && u.ctx.n == 1 && u.ctx.index == 0
    requires u.ctx.prevHash == l.hash && u.ctx.height == NextHeight(l)
    requires u.ctx.expectedView == [e] && u.ctx.state == {Primary, RequestSent} && |u.ctx.signatures| == 1
    ensures Lone(Initialize(u, e, l), l, e) && Initialize(u, e, l).votes == u.votes
  {
    if e == 0 {
      assert NoViews(1) == [0];
    }
  }

  lemma LoneBegins(l: Ledger)
    requires LedgerOk(l) && l.bookkeepers == 1 && l.seat == 0
    ensures Lone(Start(l), l, 0)
  {
    assert NoViews(1) == [0];
  }

  /** Two timeouts for each view: a lone bookkeeper comes to every view, and then to view 0 again. */
  lemma {:induction false} LoneTicks(hash: BlockHash, l: Ledger, p: Proposal, k: nat)
    requires LedgerOk(l) && l.bookkeepers == 1 && l.seat == 0 && k <= 0x100
    ensures Shaped(Start(l).ctx)
    ensures var s := Ticks(hash, Start(l), p, l, 2 * k);
      && Lone(s, l, k % 0x100)
      && (k > 0 ==> Vote(NextHeight(l), 0, hash(Header(l.hash, NextHeight(l), p))) in s.votes)
  {
    hide Tick, Ticks, Start, Lone, Shaped;
    LoneBegins(l);
    LoneShape(Start(l), l, 0);
    NoTicks(hash, Start(l), p, l);
    if k > 0 {
      LoneTicks(hash, l, p, k - 1);
      LoneNext(hash, l, p, Ticks(hash, Start(l), p, l, 2 * k - 2), k - 1);
      TwoTicks(hash, Start(l), p, l, 2 * k - 2);
    }
  }

  lemma LoneNext(hash: BlockHash, l: Ledger, p: Proposal, s: Service, view: Byte)
    requires LedgerOk(l) && l.bookkeepers == 1 && l.seat == 0 && Lone(s, l, view)
    requires view > 0 ==> Vote(NextHeight(l), 0, hash(Header(l.hash, NextHeight(l), p))) in s.votes
    ensures Shaped(s.ctx) && Lone(Tick(hash, Tick(hash, s, p, l), p, l), l, (view as int + 1) % 0x100)
    ensures var t := Tick(hash, Tick(hash, s, p, l), p, l);
      Vote(NextHeight(l), 0, hash(Header(l.hash, NextHeight(l), p))) in t.votes
  {
    hide Tick, Lone, Shaped;
    LoneShape(s, l, view);
    LoneTurn(hash, s, p, l, view);
  }

  lemma NoTicks(hash: BlockHash, s: Service, p: Proposal, l: Ledger)
    requires Shaped(s.ctx) && LedgerOk(l)
    ensures Ticks(hash, s, p, l, 0) == s
  {}

  lemma LoneShape(s: Service, l: Ledger, view: Byte)
    requires Lone(s, l, view)
    ensures Shaped(s.ctx)
  {}

  lemma TwoTicks(hash: BlockHash, s: Service, p: Proposal, l: Ledger, k: nat)
    requires Shaped(s.ctx) && LedgerOk(l)
    ensures Ticks(hash, s, p, l, k + 2) == Tick(hash, Tick(hash, Ticks(hash, s, p, l, k), p, l), p, l)
  {
    hide Tick;
  }

  /** A lone bookkeeper whose timer runs out 512 times is back at view 0 of its height, and then
      votes there for another block. */
  lemma WrapVotesAgain(hash: BlockHash, l: Ledger, p: Proposal, q: Proposal)
    requires LedgerOk(l) && l.bookkeepers == 1 && l.seat == 0
    ensures Shaped(Start(l).ctx)
    ensures var s := Ticks(hash, Start(l), p, l, 0x200);
      && s.ctx.view == 0 && s.ctx.height == NextHeight(l)
      && Vote(NextHeight(l), 0, hash(Header(l.hash, NextHeight(l), p))) in Tick(hash, s, q, l).votes
      && Vote(NextHeight(l), 0, hash(Header(l.hash, NextHeight(l), q))) in Tick(hash, s, q, l).votes
  {
    hide Tick, Ticks, Start;
    LoneTicks(hash, l, p, 0x100);
    LoneTurn(hash, Ticks(hash, Start(l), p, l, 0x200), q, l, 0);
  }
}
