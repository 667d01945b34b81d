/** What every event does to a dBFT service, said as a relation between the service before and after:
    which conditions decide, what changes and what stays. */
module DbftEffects {
  import opened Words
  import opened DbftModel

  // ---------------------------------------------------------------- counting

  /** The bookkeepers that ask for a view. */
  function Asking(views: seq<Byte>, v: Byte): set<nat> {
    set i: nat | i < |views| && views[i] == v
  }

  /** The bookkeepers whose signature is on file. */
  function Signed(signatures: seq<Option<Sig>>): set<nat> {
    set i: nat | i < |signatures| && signatures[i].Some?
  }

  lemma {:induction false} CountEqIs(s: seq<Byte>, v: Byte)
    ensures CountEq(s, v) == |Asking(s, v)|
  {
    if s == [] {
      assert Asking(s, v) == {};
    } else {
      CountEqIs(s[..|s| - 1], v);
      CountEqLast(s, v);
      AskingLast(s, v);
    }
  }

  lemma {:induction false} AskingLast(s: seq<Byte>, v: Byte)
    requires s != []
    ensures |Asking(s, v)| == |Asking(s[..|s| - 1], v)| + if s[|s| - 1] == v then 1 else 0
  {
    var last := |s| - 1;
    var front := Asking(s[..last], v);
    assert last !in front;
    if s[last] == v {
      assert Asking(s, v) == front + {last};
    } else {
      assert Asking(s, v) == front;
    }
  }

  lemma {:induction false} CountEqLast(s: seq<Byte>, v: Byte)
    requires s != []
    ensures CountEq(s, v) == CountEq(s[..|s| - 1], v) + if s[|s| - 1] == v then 1 else 0
  {
    if |s| > 1 {
      CountEqLast(s[1..], v);
      assert s[..|s| - 1][1..] == s[1..][..|s| - 2];
    }
  }

  lemma {:induction false} CountSigsIs(s: seq<Option<Sig>>)
    ensures CountSigs(s) == |Signed(s)|
  {
    if s == [] {
      assert Signed(s) == {};
    } else {
      CountSigsIs(s[..|s| - 1]);
      CountSigsLast(s);
      SignedLast(s);
    }
  }

  lemma {:induction false} SignedLast(s: seq<Option<Sig>>)
    requires s != []
    ensures |Signed(s)| == |Signed(s[..|s| - 1])| + if s[|s| - 1].Some? then 1 else 0
  {
    var last := |s| - 1;
    var front := Signed(s[..last]);
    assert last !in front;
    if s[last].Some? {
      assert Signed(s) == front + {last};
    } else {
      assert Signed(s) == front;
    }
  }

  lemma {:induction false} CountSigsLast(s: seq<Option<Sig>>)
    requires s != []
    ensures CountSigs(s) == CountSigs(s[..|s| - 1]) + if s[|s| - 1].Some? then 1 else 0
  {
    if |s| > 1 {
      CountSigsLast(s[1..]);
      assert s[..|s| - 1][1..] == s[1..][..|s| - 2];
    }
  }

  // ---------------------------------------------------------------- views

  /** The flags that survive a move to a view: none at a new height, SignatureSent else. */
  function Surviving(c: Context, v: Byte): set<Flag> {
    if v != 0 && SignatureSent in c.state then {SignatureSent} else {}
  }

  /** From s to t the view v is entered, view 0 being a new height read from the ledger; only a
      generated block keeps a service where it is. */
  predicate Enters(s: Service, v: Byte, l: Ledger, t: Service)
    requires LedgerOk(l) && (v == 0 || s.ctx.n > 0)
  {
    var c, d := s.ctx, t.ctx;
    if v != 0 && BlockGenerated in c.state then t == s
    else
      && t.votes == s.votes && t.panicked == s.panicked && d.view == v
      && (if v == 0 then NewHeight(l, d) else SamePlace(c, d))
      && d.primaryIndex == PrimaryOf(d.height, v, d.n)
      && d.proposal == (if Surviving(c, v) == {} then c.proposal.(transactions := []) else c.proposal)
      && (if Surviving(c, v) == {} then
            && d.header == None && |d.signatures| == d.n && (forall i :: 0 <= i < d.n ==> d.signatures[i] == None)
          else d.header == c.header && d.signatures == c.signatures)
      && TakesRole(s, v, Surviving(c, v), t)
  }

  predicate NewHeight(l: Ledger, d: Context) {
    && d.height as int == (l.height as int + 1) % TWO_32 && d.prevHash == l.hash
    && d.n == l.bookkeepers && d.index == l.seat
    && |d.expectedView| == d.n && forall i :: 0 <= i < d.n ==> d.expectedView[i] == 0
  }

  predicate SamePlace(c: Context, d: Context) {
    && d.height == c.height && d.prevHash == c.prevHash && d.n == c.n && d.index == c.index
    && d.expectedView == c.expectedView
  }

  /** The primary is Primary and any other bookkeeper just Backup, both with the timer at the new
      height and view; an observer has no role and its timer stays. */
  predicate TakesRole(s: Service, v: Byte, kept: set<Flag>, t: Service) {
    if t.ctx.index < 0 then t.ctx.state == kept && t.timerHeight == s.timerHeight && t.timeView == s.timeView
    else
      && t.ctx.state == (if t.ctx.index == t.ctx.primaryIndex then kept + {Primary} else {Backup})
      && t.timerHeight == t.ctx.height && t.timeView == v
  }

  lemma InitializeEnters(s: Service, v: Byte, l: Ledger)
    requires LedgerOk(l) && (v == 0 || s.ctx.n > 0)
    ensures Enters(s, v, l, Initialize(s, v, l))
  {
    hide PrimaryOf;
    FirstPrimary(NextHeight(l), l.bookkeepers);
    assert s.ctx.state * {SignatureSent} == if SignatureSent in s.ctx.state then {SignatureSent} else {};
  }

  /** In view 0 the height decides the primary. */
  lemma FirstPrimary(height: Uint32, n: nat)
    requires n > 0
    ensures PrimaryOf(height, 0, n) == height % n
  {}

  /** The service with one expected view replaced. */
  function WithView(s: Service, i: nat, v: Byte): Service
    requires i < |s.ctx.expectedView|
  {
    s.(ctx := s.ctx.(expectedView := s.ctx.expectedView[i := v]))
  }

  /** Bookkeeper i asks for view v, and that view is entered exactly when it is another than the
      current one and those asking for it are a quorum. */
  predicate Asked(s: Service, i: nat, v: Byte, l: Ledger, t: Service)
    requires Shaped(s.ctx) && i < s.ctx.n && LedgerOk(l)
  {
    if BlockGenerated !in s.ctx.state && v != s.ctx.view && |Asking(s.ctx.expectedView[i := v], v)| >= M(s.ctx.n)
    then Enters(WithView(s, i, v), v, l, t)
    else t == WithView(s, i, v)
  }

  lemma CheckAsked(s: Service, i: nat, v: Byte, l: Ledger)
    requires Shaped(s.ctx) && i < s.ctx.n && LedgerOk(l)
    ensures Asked(s, i, v, l, CheckExpectedView(WithView(s, i, v), v, l))
  {
    hide Enters, Initialize, Asking, M, CountEq;
    CountEqIs(s.ctx.expectedView[i := v], v);
    InitializeEnters(WithView(s, i, v), v, l);
  }

  /** A request for a view: a later one than the sender asked for before counts. */
  predicate ViewEffect(s: Service, sender: nat, v: Byte, l: Ledger, t: Service)
    requires Shaped(s.ctx) && sender < s.ctx.n && LedgerOk(l)
  {
    if v > s.ctx.expectedView[sender] then Asked(s, sender, v, l, t) else t == s
  }

  /** The own request: one past the later of the view and what was asked for before, in a byte. */
  predicate RequestEffect(s: Service, l: Ledger, t: Service)
    requires Shaped(s.ctx) && s.ctx.index >= 0 && LedgerOk(l)
  {
    var mine := s.ctx.expectedView[s.ctx.index];
    var next: Byte := ((if mine >= s.ctx.view then mine else s.ctx.view) as int + 1) % 0x100;
    if BlockGenerated in s.ctx.state then t == s else Asked(s, s.ctx.index, next, l, t)
  }

  lemma RequestHas(s: Service, l: Ledger)
    requires Shaped(s.ctx) && s.ctx.index >= 0 && LedgerOk(l)
    ensures RequestEffect(s, l, RequestChangeView(s, l))
  {
    hide Asked, CheckExpectedView;
    CheckAsked(s, s.ctx.index, NextView(s.ctx), l);
  }

  // ---------------------------------------------------------------- proposals

  /** A proposal is looked at by a backup without one, from the primary, and with the last block and
      the time in order. */
  predicate Heard(c: Context, sender: nat, q: Checks) {
    && Backup in c.state && RequestReceived !in c.state && sender == c.primaryIndex
    && q.headerFound && q.timeOk
  }

  /** What a look finds wrong and answers with a request for another view: the signature, the
      transactions, or the bookkeepers named for the next block, once these could be found. */
  predicate Objected(sender: nat, p: Proposal, sig: Option<Sig>, x: Digest, q: Checks) {
    || sig != Some(Sig(sender, x))
    || (p.transactions != [] && !q.txsOk)
    || (q.validatorsOk && !q.nextMatches)
  }

  /** All the slots but the primary's and the own are empty. */
  predicate FirstSlots(c: Context, sender: nat, sig: Option<Sig>, mine: Option<Sig>, slots: seq<Option<Sig>>) {
    && |slots| == c.n
    && forall i :: 0 <= i < c.n ==>
         slots[i] == if i == c.index && mine.Some? then mine else if i == sender then sig else None
  }

  predicate ProposalEffect(hash: BlockHash, s: Service, sender: nat, p: Proposal, sig: Option<Sig>, q: Checks,
                           l: Ledger, t: Service)
    requires Shaped(s.ctx) && sender < s.ctx.n && LedgerOk(l)
  {
    var c, d := s.ctx, t.ctx;
    var header := Header(c.prevHash, c.height, p);
    var x := hash(header);
    if !Heard(c, sender, q) then t == s
    else if Objected(sender, p, sig, x, q) then RequestEffect(s, l, t)
    else if !q.validatorsOk then t == s
    else
      && t == s.(ctx := d, votes := t.votes)
      && t.votes == (if q.signs then s.votes + {Vote(c.height, c.view, x)} else s.votes)
      && d == c.(state := c.state + {RequestReceived, SignatureSent}, proposal := p, header := Some(header),
                 signatures := d.signatures)
      && FirstSlots(c, sender, sig, if q.signs then Some(Sig(c.index, x)) else None, d.signatures)
  }

  lemma ProposalHas(hash: BlockHash, s: Service, sender: nat, p: Proposal, sig: Option<Sig>, q: Checks, l: Ledger)
    requires Shaped(s.ctx) && sender < s.ctx.n && LedgerOk(l)
    ensures ProposalEffect(hash, s, sender, p, sig, q, l, PrepareRequestReceived(hash, s, sender, p, sig, q, l))
  {
    hide RequestEffect, RequestChangeView;
    if s.ctx.index >= 0 { RequestHas(s, l); }
  }

  // ---------------------------------------------------------------- signatures

  /** The header signatures are for: the one on file, or that of the proposal on file. */
  function OnFile(c: Context): Header {
    match c.header
    case Some(header) => header
    case None => Header(c.prevHash, c.height, c.proposal)
  }

  /** Whether signatures make a block: a quorum of them, and the ledger takes it. */
  predicate Generates(c: Context, slots: seq<Option<Sig>>, submitted: bool)
    requires c.n > 0
  {
    |Signed(slots)| >= M(c.n) && submitted
  }

  /** The service with other signatures on file, and the flag of a block they make. */
  function WithSlots(s: Service, slots: seq<Option<Sig>>, generated: bool): Service {
    s.(ctx := s.ctx.(header := Some(OnFile(s.ctx)), signatures := slots,
                     state := if generated then s.ctx.state + {BlockGenerated} else s.ctx.state))
  }

  /** A new signature that checks out is filed, any other is not. */
  predicate ResponseEffect(hash: BlockHash, s: Service, sender: nat, sig: Option<Sig>, submitted: bool, t: Service)
    requires Shaped(s.ctx) && sender < s.ctx.n
  {
    var c := s.ctx;
    if BlockGenerated in c.state || c.signatures[sender] != None then t == s
    else if sig != Some(Sig(sender, hash(OnFile(c)))) then t == WithSlots(s, c.signatures, false)
    else
      var slots := c.signatures[sender := sig];
      t == WithSlots(s, slots, Generates(c, slots, submitted))
  }

  lemma ResponseHas(hash: BlockHash, s: Service, sender: nat, sig: Option<Sig>, submitted: bool)
    requires Shaped(s.ctx) && sender < s.ctx.n
    ensures ResponseEffect(hash, s, sender, sig, submitted, PrepareResponseReceived(hash, s, sender, sig, submitted))
  {
    hide CountSigs, M, Signed;
    CountSigsIs(s.ctx.signatures[sender := sig]);
  }

  // ---------------------------------------------------------------- relayed signatures

  /** The slots with the first k relayed signatures filed: those that check out, where none was. */
  function FiledAfter(slots: seq<Option<Sig>>, x: Digest, sigs: Relayed, k: nat): (r: seq<Option<Sig>>)
    requires k <= |sigs|
    ensures |r| == |slots|
  {
    seq(|slots|, i requires 0 <= i < |slots| =>
      if slots[i].None? && (i, Some(Sig(i, x))) in sigs[..k] then Some(Sig(i, x)) else slots[i])
  }

  /** Something was filed and there is a quorum. */
  predicate Full(slots: seq<Option<Sig>>, x: Digest, sigs: Relayed, k: nat)
    requires k <= |sigs| && |slots| > 0
  {
    FiledAfter(slots, x, sigs, k) != slots && |Signed(FiledAfter(slots, x, sigs, k))| >= M(|slots|)
  }

  /** The loop ends after k signatures: the first point with enough, before an index that is no
      bookkeeper's, or at the end. */
  predicate StopsAt(slots: seq<Option<Sig>>, x: Digest, sigs: Relayed, k: nat)
    requires |slots| > 0
  {
    && k <= |sigs| && (Full(slots, x, sigs, k) || k == |sigs| || sigs[k].0 >= |slots|)
    && forall j: nat :: j < k ==> !Full(slots, x, sigs, j) && sigs[j].0 < |slots|
  }

  /** An index that is no bookkeeper's, come to without enough, panics; else the block is made exactly
      when there is a quorum, were it there before, and the ledger takes it. */
  ghost predicate RelayEffect(hash: BlockHash, s: Service, sender: nat, sigs: Relayed, submitted: bool, t: Service)
    requires Shaped(s.ctx) && sender < s.ctx.n
  {
    var c := s.ctx;
    if BlockGenerated in c.state || c.signatures[sender] != None then t == s
    else exists k: nat :: StopsAt(c.signatures, hash(OnFile(c)), sigs, k) && RelayedUpTo(hash, s, sigs, k, submitted, t)
  }

  predicate RelayedUpTo(hash: BlockHash, s: Service, sigs: Relayed, k: nat, submitted: bool, t: Service)
    requires Shaped(s.ctx) && k <= |sigs|
  {
    var x := hash(OnFile(s.ctx));
    var slots := FiledAfter(s.ctx.signatures, x, sigs, k);
    if k < |sigs| && !Full(s.ctx.signatures, x, sigs, k)
    then t == WithSlots(s, slots, false).(panicked := true)
    else t == WithSlots(s, slots, Generates(s.ctx, slots, submitted))
  }

  /** AddSignatures files the first k signatures and stops there. */
  predicate AddsUpTo(hash: BlockHash, c: Context, sigs: Relayed, k: nat)
    requires |c.signatures| == c.n > 0
  {
    var x := hash(MakeHeader(c));
    && StopsAt(c.signatures, x, sigs, k)
    && AddSignatures(hash, c, sigs) == (c.(signatures := FiledAfter(c.signatures, x, sigs, k)),
                                        k < |sigs| && !Full(c.signatures, x, sigs, k))
  }

  lemma {:induction false} AddStops(hash: BlockHash, c: Context, sigs: Relayed) returns (k: nat)
    requires |c.signatures| == c.n > 0
    ensures AddsUpTo(hash, c, sigs, k)
    decreases |sigs|
  {
    hide AddsUpTo, CountSigs, M;
    var x := hash(MakeHeader(c));
    if sigs == [] || sigs[0].0 >= c.n {
      k := 0;
      AddsNone(hash, c, sigs);
    } else if c.signatures[sigs[0].0].Some? || sigs[0].1 != Some(Sig(sigs[0].0, x)) {
      var j := AddStops(hash, c, sigs[1..]);
      k := j + 1;
      AddsLater(hash, c, c, sigs, j);
    } else {
      var d := c.(signatures := c.signatures[sigs[0].0 := sigs[0].1]);
      if CountSigs(d.signatures) >= M(c.n) {
        k := 1;
        AddsEnough(hash, c, sigs);
      } else {
        var j := AddStops(hash, d, sigs[1..]);
        k := j + 1;
        AddsLater(hash, c, d, sigs, j);
      }
    }
  }

  lemma AddsNone(hash: BlockHash, c: Context, sigs: Relayed)
    requires |c.signatures| == c.n > 0 && (sigs == [] || sigs[0].0 >= c.n)
    ensures AddsUpTo(hash, c, sigs, 0)
  {
    hide FiledAfter, M, Signed;
    NoneFiled(c.signatures, hash(MakeHeader(c)), sigs);
  }

  lemma AddsEnough(hash: BlockHash, c: Context, sigs: Relayed)
    requires |c.signatures| == c.n > 0 && sigs != [] && sigs[0].0 < c.n && c.signatures[sigs[0].0].None?
    requires sigs[0].1 == Some(Sig(sigs[0].0, hash(MakeHeader(c))))
    requires CountSigs(c.signatures[sigs[0].0 := sigs[0].1]) >= M(c.n)
    ensures AddsUpTo(hash, c, sigs, 1)
  {
    hide FiledAfter, M, Signed, CountSigs;
    var x := hash(MakeHeader(c));
    NoneFiled(c.signatures, x, sigs);
    FirstFiled(c.signatures, x, sigs);
    CountSigsIs(c.signatures[sigs[0].0 := sigs[0].1]);
  }

  /** From the signatures after the first to all of them; d is c with the first filed, if it is. */
  lemma AddsLater(hash: BlockHash, c: Context, d: Context, sigs: Relayed, j: nat)
    requires |c.signatures| == c.n > 0 && sigs != [] && sigs[0].0 < c.n
    requires |d.signatures| == d.n > 0 && AddsUpTo(hash, d, sigs[1..], j)
    requires var x := hash(MakeHeader(c));
      if c.signatures[sigs[0].0].Some? || sigs[0].1 != Some(Sig(sigs[0].0, x)) then d == c
      else
        && d == c.(signatures := c.signatures[sigs[0].0 := sigs[0].1])
        && CountSigs(d.signatures) < M(c.n)
    ensures AddsUpTo(hash, c, sigs, j + 1)
  {
    hide FiledAfter, M, Signed, CountSigs, Full, StopsAt;
    var x := hash(MakeHeader(c));
    FirstFiled(c.signatures, x, sigs);
    CountSigsIs(d.signatures);
    StopsShort(d.signatures, x, sigs[1..], j);
    StopsLater(c.signatures, d.signatures, x, sigs, j);
  }

  lemma NoneFiled(slots: seq<Option<Sig>>, x: Digest, sigs: Relayed)
    ensures FiledAfter(slots, x, sigs, 0) == slots
  {
    assert sigs[..0] == [];
  }

  lemma FirstFiled(slots: seq<Option<Sig>>, x: Digest, sigs: Relayed)
    requires sigs != [] && sigs[0].0 < |slots|
    ensures FiledAfter(slots, x, sigs, 1) ==
      if slots[sigs[0].0].Some? || sigs[0].1 != Some(Sig(sigs[0].0, x)) then slots else slots[sigs[0].0 := sigs[0].1]
  {
    assert sigs[..1] == [sigs[0]];
  }

  /** Filing the first signature and then the others is filing them all. */
  lemma FiledTwice(slots: seq<Option<Sig>>, x: Digest, sigs: Relayed, j: nat)
    requires sigs != [] && j < |sigs|
    ensures FiledAfter(FiledAfter(slots, x, sigs, 1), x, sigs[1..], j) == FiledAfter(slots, x, sigs, j + 1)
  {
    assert sigs[..1] == [sigs[0]];
    assert sigs[..j + 1] == [sigs[0]] + sigs[1..][..j];
  }

  lemma StopsLater(slots: seq<Option<Sig>>, after: seq<Option<Sig>>, x: Digest, sigs: Relayed, j: nat)
    requires sigs != [] && |slots| > 0 && sigs[0].0 < |slots| && after == FiledAfter(slots, x, sigs, 1)
    requires after == slots || |Signed(after)| < M(|slots|)
    requires StopsAt(after, x, sigs[1..], j)
    ensures StopsAt(slots, x, sigs, j + 1)
    ensures FiledAfter(after, x, sigs[1..], j) == FiledAfter(slots, x, sigs, j + 1)
    ensures Full(after, x, sigs[1..], j) <==> Full(slots, x, sigs, j + 1)
  {
    hide FiledAfter, M, Signed;
    NoneFiled(slots, x, sigs);
    forall m: nat | m < |sigs|
      ensures FiledAfter(after, x, sigs[1..], m) == FiledAfter(slots, x, sigs, m + 1)
      ensures Full(after, x, sigs[1..], m) <==> Full(slots, x, sigs, m + 1)
    {
      FiledTwice(slots, x, sigs, m);
      FullLater(slots, after, x, sigs, m);
    }
    forall i: nat | i < j + 1 ensures !Full(slots, x, sigs, i) && sigs[i].0 < |slots| {
      if i > 0 { assert !Full(after, x, sigs[1..], i - 1) && sigs[1..][i - 1].0 < |after|; }
    }
  }

  lemma FullLater(slots: seq<Option<Sig>>, after: seq<Option<Sig>>, x: Digest, sigs: Relayed, m: nat)
    requires sigs != [] && |slots| > 0 && m < |sigs| && after == FiledAfter(slots, x, sigs, 1)
    requires after == slots || |Signed(after)| < M(|slots|)
    requires FiledAfter(after, x, sigs[1..], m) == FiledAfter(slots, x, sigs, m + 1)
    ensures Full(after, x, sigs[1..], m) <==> Full(slots, x, sigs, m + 1)
  {
    hide M, Signed;
    var all := FiledAfter(slots, x, sigs, m + 1);
    if after != slots {
      var i :| 0 <= i < |slots| && after[i] != slots[i];
      assert all[i] != slots[i];
    }
  }

  lemma RelayHas(hash: BlockHash, s: Service, sender: nat, sigs: Relayed, submitted: bool)
    requires Shaped(s.ctx) && sender < s.ctx.n
    ensures RelayEffect(hash, s, sender, sigs, submitted, BlockSignaturesReceived(hash, s, sender, sigs, submitted))
  {
    hide CountSigs, M, Signed, AddSignatures, StopsAt, FiledAfter, Full;
    var c := s.ctx;
    if BlockGenerated !in c.state && c.signatures[sender] == None {
      var d := c.(header := Some(MakeHeader(c)));
      var k := AddStops(hash, d, sigs);
      StopsShort(c.signatures, hash(OnFile(c)), sigs, k);
      CountSigsIs(FiledAfter(c.signatures, hash(OnFile(c)), sigs, k));
      assert RelayedUpTo(hash, s, sigs, k, submitted, BlockSignaturesReceived(hash, s, sender, sigs, submitted));
    }
  }

  lemma StopsShort(slots: seq<Option<Sig>>, x: Digest, sigs: Relayed, k: nat)
    requires |slots| > 0 && StopsAt(slots, x, sigs, k)
    ensures k <= |sigs|
  {}

  /** The loop stops at one place only. */
  lemma StopsOnce(slots: seq<Option<Sig>>, x: Digest, sigs: Relayed, j: nat, k: nat)
    requires |slots| > 0 && StopsAt(slots, x, sigs, j) && StopsAt(slots, x, sigs, k)
    ensures j == k
  {}

  // ---------------------------------------------------------------- timeouts

  /** The request goes out with the signature on file, if there is one. */
  predicate Sends(s: Service, d: Context, t: Service)
    requires 0 <= d.index < |d.signatures|
  {
    var mine := d.signatures[d.index];
    t == s.(ctx := d,
            votes := if mine.Some? then s.votes + {Vote(d.height, d.view, mine.value.hash)} else s.votes)
  }

  /** The primary's request: its own proposal, newly signed, unless an earlier signature survived. */
  predicate ProposeEffect(hash: BlockHash, s: Service, p: Proposal, q: Checks, t: Service)
    requires Shaped(s.ctx) && s.ctx.index >= 0
  {
    var c := s.ctx.(state := s.ctx.state + {RequestSent});
    var header := Header(c.prevHash, c.height, p);
    var mine := if q.signs then Some(Sig(c.index, hash(header))) else None;
    if SignatureSent in c.state then Sends(s, c, t)
    else if !q.headerFound then t == s.(ctx := c)
    else if !q.validatorsOk then t == s.(ctx := c.(proposal := p))
    else Sends(s, c.(proposal := p, header := Some(header), signatures := c.signatures[c.index := mine]), t)
  }

  /** A timer of another height or view is void; a primary sends its request once, and after that asks
      for another view as a backup does. */
  predicate TimeoutEffect(hash: BlockHash, s: Service, p: Proposal, q: Checks, l: Ledger, t: Service)
    requires Shaped(s.ctx) && LedgerOk(l)
  {
    var c := s.ctx;
    if s.timerHeight != c.height || s.timeView != c.view || c.state * {Primary, Backup} == {} then t == s
    else if Primary in c.state && RequestSent !in c.state then ProposeEffect(hash, s, p, q, t)
    else RequestEffect(s, l, t)
  }

  lemma TimeoutHas(hash: BlockHash, s: Service, p: Proposal, q: Checks, l: Ledger)
    requires Shaped(s.ctx) && LedgerOk(l)
    ensures TimeoutEffect(hash, s, p, q, l, Timeout(hash, s, p, q, l))
  {
    hide RequestEffect, RequestChangeView;
    if s.ctx.index >= 0 { RequestHas(s, l); }
    if Primary in s.ctx.state { assert Primary in s.ctx.state * {Primary, Backup}; }
    if Backup in s.ctx.state { assert Backup in s.ctx.state * {Primary, Backup}; }
  }

  // ---------------------------------------------------------------- payloads and events

  /** The payloads that are looked at: another bookkeeper's, for the same height on the same block,
      before the block is made, and of the same view unless they ask for another. */
  predicate Admitted(c: Context, e: Event)
    requires e.Payload?
  {
    && e.sender < c.n && e.sender as int != c.index && e.height == c.height && e.prevHash == c.prevHash
    && BlockGenerated !in c.state && (e.view == c.view || e.msg.ChangeViewMsg?)
  }

  ghost predicate PayloadEffect(hash: BlockHash, s: Service, e: Event, t: Service)
    requires e.Payload? && Shaped(s.ctx) && LedgerOk(e.l)
  {
    if !Admitted(s.ctx, e) then t == s
    else match e.msg
      case ChangeViewMsg(v) => ViewEffect(s, e.sender, v, e.l, t)
      case PrepareRequestMsg(p, sig, q) => ProposalEffect(hash, s, e.sender, p, sig, q, e.l, t)
      case PrepareResponseMsg(sig, submitted) => ResponseEffect(hash, s, e.sender, sig, submitted, t)
      case BlockSignaturesMsg(sigs, submitted) => RelayEffect(hash, s, e.sender, sigs, submitted, t)
  }

  lemma ViewHas(s: Service, sender: nat, v: Byte, l: Ledger)
    requires Shaped(s.ctx) && sender < s.ctx.n && LedgerOk(l)
    ensures ViewEffect(s, sender, v, l, ChangeViewReceived(s, sender, v, l))
  {
    hide Asked, CheckExpectedView;
    CheckAsked(s, sender, v, l);
  }

  lemma PayloadHas(hash: BlockHash, s: Service, e: Event)
    requires e.Payload? && Shaped(s.ctx) && LedgerOk(e.l)
    ensures PayloadEffect(hash, s, e, Receive(hash, s, e))
  {
    hide ViewEffect, ProposalEffect, ResponseEffect, RelayEffect;
    hide ChangeViewReceived, PrepareRequestReceived, PrepareResponseReceived, BlockSignaturesReceived;
    if e.sender < s.ctx.n {
      match e.msg
      case ChangeViewMsg(v) => ViewHas(s, e.sender, v, e.l);
      case PrepareRequestMsg(p, sig, q) => ProposalHas(hash, s, e.sender, p, sig, q, e.l);
      case PrepareResponseMsg(sig, submitted) => ResponseHas(hash, s, e.sender, sig, submitted);
      case BlockSignaturesMsg(sigs, submitted) => RelayHas(hash, s, e.sender, sigs, submitted);
    }
  }

  ghost predicate Effect(hash: BlockHash, s: Service, e: Event, t: Service)
    requires Shaped(s.ctx) && LedgerOk(e.l)
  {
    match e
    case Payload(_, _, _, _, _, _) => PayloadEffect(hash, s, e, t)
    case Expired(p, q, l) => TimeoutEffect(hash, s, p, q, l, t)
    case BlockSaved(l) => Enters(s, 0, l, t)
  }

  /** Every event does what the relation says. */
  lemma StepHas(hash: BlockHash, s: Service, e: Event)
    requires Shaped(s.ctx) && LedgerOk(e.l)
    ensures Effect(hash, s, e, Step(hash, s, e))
  {
    hide PayloadEffect, TimeoutEffect, Enters, Receive, Timeout, Initialize;
    match e
    case Payload(_, _, _, _, _, _) => PayloadHas(hash, s, e);
    case Expired(p, q, l) => TimeoutHas(hash, s, p, q, l);
    case BlockSaved(l) => InitializeEnters(s, 0, l);
  }

  // ---------------------------------------------------------------- the relation leaves nothing open

  lemma EntersOnce(s: Service, v: Byte, l: Ledger, t: Service, u: Service)
    requires LedgerOk(l) && (v == 0 || s.ctx.n > 0) && Enters(s, v, l, t) && Enters(s, v, l, u)
    ensures t == u
  {
    hide PrimaryOf;
    assert t.ctx.signatures == u.ctx.signatures;
    assert t.ctx.expectedView == u.ctx.expectedView;
    assert t.ctx == u.ctx;
  }

  lemma AskedOnce(s: Service, i: nat, v: Byte, l: Ledger, t: Service, u: Service)
    requires Shaped(s.ctx) && i < s.ctx.n && LedgerOk(l) && Asked(s, i, v, l, t) && Asked(s, i, v, l, u)
    ensures t == u
  {
    hide Enters, Asking, M;
    if t != WithView(s, i, v) || u != WithView(s, i, v) { EntersOnce(WithView(s, i, v), v, l, t, u); }
  }

  lemma RequestOnce(s: Service, l: Ledger, t: Service, u: Service)
    requires Shaped(s.ctx) && s.ctx.index >= 0 && LedgerOk(l) && RequestEffect(s, l, t) && RequestEffect(s, l, u)
    ensures t == u
  {
    hide Asked;
    var mine := s.ctx.expectedView[s.ctx.index];
    var next: Byte := ((if mine >= s.ctx.view then mine else s.ctx.view) as int + 1) % 0x100;
    if BlockGenerated !in s.ctx.state { AskedOnce(s, s.ctx.index, next, l, t, u); }
  }

  lemma ProposalOnce(hash: BlockHash, s: Service, sender: nat, p: Proposal, sig: Option<Sig>, q: Checks, l: Ledger,
                     t: Service, u: Service)
    requires Shaped(s.ctx) && sender < s.ctx.n && LedgerOk(l)
    requires ProposalEffect(hash, s, sender, p, sig, q, l, t) && ProposalEffect(hash, s, sender, p, sig, q, l, u)
    ensures t == u
  {
    hide RequestEffect;
    var x := hash(Header(s.ctx.prevHash, s.ctx.height, p));
    if Heard(s.ctx, sender, q) {
      if Objected(sender, p, sig, x, q) {
        RequestOnce(s, l, t, u);
      } else if q.validatorsOk {
        assert t.ctx.signatures == u.ctx.signatures;
      }
    }
  }

  lemma RelayOnce(hash: BlockHash, s: Service, sender: nat, sigs: Relayed, submitted: bool, t: Service, u: Service)
    requires Shaped(s.ctx) && sender < s.ctx.n
    requires RelayEffect(hash, s, sender, sigs, submitted, t) && RelayEffect(hash, s, sender, sigs, submitted, u)
    ensures t == u
  {
    hide FiledAfter, Full, Generates;
    var c := s.ctx;
    if BlockGenerated !in c.state && c.signatures[sender] == None {
      var x := hash(OnFile(c));
      var j: nat :| StopsAt(c.signatures, x, sigs, j) && RelayedUpTo(hash, s, sigs, j, submitted, t);
      var k: nat :| StopsAt(c.signatures, x, sigs, k) && RelayedUpTo(hash, s, sigs, k, submitted, u);
      StopsOnce(c.signatures, x, sigs, j, k);
    }
  }

  lemma TimeoutOnce(hash: BlockHash, s: Service, p: Proposal, q: Checks, l: Ledger, t: Service, u: Service)
    requires Shaped(s.ctx) && LedgerOk(l)
    requires TimeoutEffect(hash, s, p, q, l, t) && TimeoutEffect(hash, s, p, q, l, u)
    ensures t == u
  {
    hide RequestEffect;
    if t != u && s.ctx.state * {Primary, Backup} != {} && !(Primary in s.ctx.state && RequestSent !in s.ctx.state) {
      RequestOnce(s, l, t, u);
    }
  }

  lemma PayloadOnce(hash: BlockHash, s: Service, e: Event, t: Service, u: Service)
    requires e.Payload? && Shaped(s.ctx) && LedgerOk(e.l)
    requires PayloadEffect(hash, s, e, t) && PayloadEffect(hash, s, e, u)
    ensures t == u
  {
    hide Asked, ProposalEffect, RelayEffect, Generates;
    if Admitted(s.ctx, e) {
      match e.msg
      case ChangeViewMsg(v) =>
        if v > s.ctx.expectedView[e.sender] { AskedOnce(s, e.sender, v, e.l, t, u); }
      case PrepareRequestMsg(p, sig, q) => ProposalOnce(hash, s, e.sender, p, sig, q, e.l, t, u);
      case PrepareResponseMsg(sig, submitted) =>
      case BlockSignaturesMsg(sigs, submitted) => RelayOnce(hash, s, e.sender, sigs, submitted, t, u);
    }
  }

  /** The relation and the step are one. */
  lemma StepIs(hash: BlockHash, s: Service, e: Event, t: Service)
    requires Shaped(s.ctx) && LedgerOk(e.l)
    ensures Effect(hash, s, e, t) <==> t == Step(hash, s, e)
  {
    hide PayloadEffect, TimeoutEffect, Enters, Step;
    StepHas(hash, s, e);
    var u := Step(hash, s, e);
    if Effect(hash, s, e, t) {
      match e
      case Payload(_, _, _, _, _, _) => PayloadOnce(hash, s, e, t, u);
      case Expired(p, q, l) => TimeoutOnce(hash, s, p, q, l, t, u);
      case BlockSaved(l) => EntersOnce(s, 0, l, t, u);
    }
  }
}
