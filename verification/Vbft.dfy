/** consensus/vbft/block_pool.go: endorsements, commits and seals of the candidate blocks. */
module Vbft {
  import opened Words

  const NOBODY: Uint32 := 0xffff_ffff

  datatype Endorsement = Endorsement(proposer: Uint32, signature: Bytes, forEmpty: bool)
  datatype Proposal = Proposal(proposer: Uint32, signature: Bytes)
  datatype Commit = Commit(committer: Uint32, proposer: Uint32, hash: Digest, forEmpty: bool,
                           endorsersSig: map<Uint32, Bytes>, committerSig: Bytes)
  datatype Sealed = Sealed(proposer: Uint32, empty: bool)

  type Endorsements = map<Uint32, seq<Endorsement>>

  datatype Candidate = Candidate(
    committed: Option<Proposal>,
    committedEmpty: Option<Proposal>,
    sealed: Option<Sealed>,
    proposals: seq<Proposal>,
    commits: seq<Commit>,
    endorsed: Endorsements)

  const NEW_CANDIDATE := Candidate(None, None, None, [], [], map[])

  // ---------------------------------------------------------------- what a pool keeps

  /** At most one empty endorsement, the last; the others for different proposers. */
  predicate ListOk(l: seq<Endorsement>) {
    && |l| > 0
    && (forall i :: 0 <= i < |l| - 1 ==> !l[i].forEmpty)
    && (forall i, j :: 0 <= i < j < |l| && !l[j].forEmpty ==> l[i].proposer != l[j].proposer)
  }

  predicate ListsOk(m: Endorsements) {
    forall e :: e in m ==> ListOk(m[e])
  }

  predicate HasProposed(c: Candidate, who: Uint32) {
    exists i :: 0 <= i < |c.proposals| && c.proposals[i].proposer == who
  }

  predicate HasCommitted(c: Candidate, who: Uint32) {
    exists i :: 0 <= i < |c.commits| && c.commits[i].committer == who
  }

  predicate CandidateOk(c: Candidate) {
    && ListsOk(c.endorsed)
    && (forall i, j :: 0 <= i < j < |c.proposals| ==> c.proposals[i].proposer != c.proposals[j].proposer)
    && (forall i, j :: 0 <= i < j < |c.commits| ==> c.commits[i].committer != c.commits[j].committer)
    && (c.committed == None || c.committedEmpty == None)
  }

  // ---------------------------------------------------------------- adding endorsements

  predicate HasEmpty(l: seq<Endorsement>) {
    exists i :: 0 <= i < |l| && l[i].forEmpty
  }

  predicate Backs(l: seq<Endorsement>, p: Uint32) {
    exists i :: 0 <= i < |l| && !l[i].forEmpty && l[i].proposer == p
  }

  /** An endorser's list after one more endorsement; a commitment stands alone. */
  function Extended(m: Endorsements, endorser: Uint32, e: Endorsement, commitment: bool): seq<Endorsement> {
    if endorser !in m || commitment then [e]
    else if HasEmpty(m[endorser]) then m[endorser]
    else if !e.forEmpty && Backs(m[endorser], e.proposer) then m[endorser]
    else m[endorser] + [e]
  }

  lemma ExtendedOk(m: Endorsements, endorser: Uint32, e: Endorsement, commitment: bool)
    requires ListsOk(m)
    ensures ListOk(Extended(m, endorser, e, commitment))
  {
    if endorser in m {
      assert ListOk(m[endorser]);
    }
  }

  function AsEndorsement(c: Commit, signature: Bytes): Endorsement {
    Endorsement(c.proposer, signature, c.forEmpty)
  }

  /** All the signatures a commit carries, in whatever order they are added. */
  function ExtendedAll(m: Endorsements, c: Commit, sigs: map<Uint32, Bytes>): Endorsements {
    map e | e in m.Keys + sigs.Keys ::
      if e in sigs then Extended(m, e, AsEndorsement(c, sigs[e]), false) else m[e]
  }

  /** The commit's own signature comes last and replaces the committer's list. */
  function Committed(m: Endorsements, c: Commit): Endorsements {
    ExtendedAll(m, c, c.endorsersSig)[c.committer := [AsEndorsement(c, c.committerSig)]]
  }

  // ---------------------------------------------------------------- who backs whom

  /** The endorser is on record for the proposer's block. */
  predicate BacksIn(m: Endorsements, e: Uint32, p: Uint32) {
    e in m && Backs(m[e], p)
  }

  /** The endorser is on record for the empty block. */
  predicate EmptyIn(m: Endorsements, e: Uint32) {
    e in m && HasEmpty(m[e])
  }

  /** The endorser's list before. */
  function ListIn(m: Endorsements, e: Uint32): seq<Endorsement> {
    if e in m then m[e] else []
  }

  /** One endorsement more: it counts unless the endorser is on record for the empty block, an empty
      one takes nothing back, and nobody else's record changes. */
  predicate Endorses(m: Endorsements, who: Uint32, p: Uint32, signature: Bytes, forEmpty: bool, r: Endorsements) {
    && r.Keys == m.Keys + {who}
    && (forall e :: e in m && e != who ==> r[e] == m[e])
    && (EmptyIn(m, who) ==> r[who] == m[who])
    && (r[who] == ListIn(m, who) || r[who] == ListIn(m, who) + [Endorsement(p, signature, forEmpty)])
    && (!EmptyIn(m, who) ==>
          && (EmptyIn(r, who) <==> forEmpty)
          && forall q :: BacksIn(r, who, q) <==> BacksIn(m, who, q) || (q == p && !forEmpty))
  }

  /** A commit for a proposer's block or for the empty one: its signers are on record for that block,
      those on record for the empty block before excepted; the committer is for nothing else; nobody
      is newly on record for anything else, and nobody else's record changes. */
  predicate Commits(m: Endorsements, c: Commit, r: Endorsements) {
    && r.Keys == m.Keys + c.endorsersSig.Keys + {c.committer}
    && (EmptyIn(r, c.committer) <==> c.forEmpty)
    && (forall q :: BacksIn(r, c.committer, q) <==> q == c.proposer && !c.forEmpty)
    && (forall e :: e in r && e != c.committer ==>
          if e in c.endorsersSig && !EmptyIn(m, e)
          then
            && (EmptyIn(r, e) <==> c.forEmpty)
            && (r[e] == ListIn(m, e) || r[e] == ListIn(m, e) + [Endorsement(c.proposer, c.endorsersSig[e], c.forEmpty)])
            && forall q :: BacksIn(r, e, q) <==> BacksIn(m, e, q) || (q == c.proposer && !c.forEmpty)
          else e in m && r[e] == m[e])
  }

  lemma AppendedBacks(l: seq<Endorsement>, e: Endorsement)
    ensures HasEmpty(l + [e]) <==> HasEmpty(l) || e.forEmpty
    ensures forall q :: Backs(l + [e], q) <==> Backs(l, q) || (q == e.proposer && !e.forEmpty)
  {
    var all := l + [e];
    assert all[|l|] == e;
    if HasEmpty(l) {
      var i :| 0 <= i < |l| && l[i].forEmpty;
      assert all[i].forEmpty;
    }
    forall q | Backs(l, q) ensures Backs(all, q) {
      var i :| 0 <= i < |l| && !l[i].forEmpty && l[i].proposer == q;
      assert all[i] == l[i];
    }
  }

  lemma AloneBacks(e: Endorsement)
    ensures HasEmpty([e]) <==> e.forEmpty
    ensures forall q :: Backs([e], q) <==> q == e.proposer && !e.forEmpty
  {
    assert [e][0] == e;
  }

  /** The same of one list. */
  lemma ExtendedBacks(m: Endorsements, who: Uint32, e: Endorsement)
    ensures var l := Extended(m, who, e, false);
      if EmptyIn(m, who) then l == m[who]
      else
        && (l == ListIn(m, who) || l == ListIn(m, who) + [e])
        && (HasEmpty(l) <==> e.forEmpty)
        && forall q :: Backs(l, q) <==> BacksIn(m, who, q) || (q == e.proposer && !e.forEmpty)
  {
    hide HasEmpty, Backs;
    AloneBacks(e);
    if who in m { AppendedBacks(m[who], e); }
  }

  lemma EndorsesIt(m: Endorsements, who: Uint32, p: Uint32, signature: Bytes, forEmpty: bool)
    ensures var e := Endorsement(p, signature, forEmpty);
      Endorses(m, who, p, signature, forEmpty, m[who := Extended(m, who, e, false)])
  {
    hide HasEmpty, Backs, Extended;
    ExtendedBacks(m, who, Endorsement(p, signature, forEmpty));
  }

  lemma CommitsIt(m: Endorsements, c: Commit)
    ensures Commits(m, c, Committed(m, c))
  {
    hide HasEmpty, Backs, Extended;
    AloneBacks(AsEndorsement(c, c.committerSig));
    forall e | e in c.endorsersSig
      ensures var l := Extended(m, e, AsEndorsement(c, c.endorsersSig[e]), false);
        if EmptyIn(m, e) then l == m[e]
        else
          && (l == ListIn(m, e) || l == ListIn(m, e) + [Endorsement(c.proposer, c.endorsersSig[e], c.forEmpty)])
          && (HasEmpty(l) <==> c.forEmpty)
          && forall q :: Backs(l, q) <==> BacksIn(m, e, q) || (q == c.proposer && !c.forEmpty)
    {
      ExtendedBacks(m, e, AsEndorsement(c, c.endorsersSig[e]));
    }
  }

  /** A commit counts for its proposer with all its signers that are not for the empty block. */
  lemma CommitCounts(m: Endorsements, c: Commit)
    requires !c.forEmpty
    ensures var r := Committed(m, c);
      && (c.endorsersSig.Keys - Empties(m, m.Keys)) + {c.committer} <= Backers(r, r.Keys, c.proposer)
      && |Backers(r, r.Keys, c.proposer)| >= |(c.endorsersSig.Keys - Empties(m, m.Keys)) + {c.committer}|
  {
    hide HasEmpty, Backs, Extended;
    CommitsIt(m, c);
    var r := Committed(m, c);
    forall e | e in (c.endorsersSig.Keys - Empties(m, m.Keys)) + {c.committer}
      ensures e in Backers(r, r.Keys, c.proposer)
    {
      assert e in r && BacksIn(r, e, c.proposer);
    }
    SubsetSize((c.endorsersSig.Keys - Empties(m, m.Keys)) + {c.committer}, Backers(r, r.Keys, c.proposer));
  }

  // ---------------------------------------------------------------- counting endorsers

  function Backers(m: Endorsements, among: set<Uint32>, p: Uint32): set<Uint32>
    requires among <= m.Keys
  {
    set e | e in among && Backs(m[e], p)
  }

  function Empties(m: Endorsements, among: set<Uint32>): set<Uint32>
    requires among <= m.Keys
  {
    set e | e in among && HasEmpty(m[e])
  }

  lemma OneMoreBacker(m: Endorsements, among: set<Uint32>, e: Uint32, p: Uint32)
    requires among <= m.Keys && e in m && e !in among
    ensures |Backers(m, among + {e}, p)| == |Backers(m, among, p)| + if Backs(m[e], p) then 1 else 0
  {
    hide Backs;
    if Backs(m[e], p) {
      assert Backers(m, among + {e}, p) == Backers(m, among, p) + {e};
    } else {
      assert Backers(m, among + {e}, p) == Backers(m, among, p);
    }
  }

  lemma OneMoreEmpty(m: Endorsements, among: set<Uint32>, e: Uint32)
    requires among <= m.Keys && e in m && e !in among
    ensures |Empties(m, among + {e})| == |Empties(m, among)| + if HasEmpty(m[e]) then 1 else 0
  {
    hide HasEmpty;
    if HasEmpty(m[e]) {
      assert Empties(m, among + {e}) == Empties(m, among) + {e};
    } else {
      assert Empties(m, among + {e}) == Empties(m, among);
    }
  }

  /** The empty endorsements as commitDone counts them: those of nodes that are no endorsers twice. */
  function EmptyWeight(m: Endorsements, among: set<Uint32>, isEndorser: Uint32 -> bool): nat
    requires among <= m.Keys
  {
    |Empties(m, among)| + |Empties(m, set e | e in among && !isEndorser(e))|
  }

  lemma OneMoreWeight(m: Endorsements, among: set<Uint32>, e: Uint32, isEndorser: Uint32 -> bool)
    requires among <= m.Keys && e in m && e !in among
    ensures EmptyWeight(m, among + {e}, isEndorser) ==
            EmptyWeight(m, among, isEndorser) +
            if !HasEmpty(m[e]) then 0 else if isEndorser(e) then 1 else 2
  {
    hide HasEmpty, Empties;
    OneMoreEmpty(m, among, e);
    var out := set x | x in among && !isEndorser(x);
    var out' := set x | x in among + {e} && !isEndorser(x);
    if isEndorser(e) {
      assert out' == out;
    } else {
      assert out' == out + {e};
      OneMoreEmpty(m, out, e);
    }
  }

  lemma WeightGrows(m: Endorsements, some: set<Uint32>, isEndorser: Uint32 -> bool)
    requires some <= m.Keys
    ensures EmptyWeight(m, some, isEndorser) <= EmptyWeight(m, m.Keys, isEndorser)
  {
    hide HasEmpty;
    SubsetSize(Empties(m, some), Empties(m, m.Keys));
    SubsetSize(Empties(m, set e | e in some && !isEndorser(e)), Empties(m, set e | e in m.Keys && !isEndorser(e)));
  }

  /** A list has its empty endorsement last, and so at most one. */
  lemma OneEmptyAtMost(l: seq<Endorsement>, i: nat)
    requires ListOk(l) && i < |l|
    ensures CountEmpty(l[i..]) == if HasEmpty(l) then 1 else 0
    decreases |l| - i
  {
    assert l[i..][1..] == l[i + 1..];
    if i + 1 < |l| { OneEmptyAtMost(l, i + 1); }
  }

  lemma GrowsWith(m: Endorsements, some: set<Uint32>, all: set<Uint32>, p: Uint32)
    requires some <= all <= m.Keys
    ensures |Backers(m, some, p)| <= |Backers(m, all, p)| <= |all|
    ensures |Empties(m, some)| <= |Empties(m, all)| <= |all|
  {
    SubsetSize(Backers(m, some, p), Backers(m, all, p));
    SubsetSize(Backers(m, all, p), all);
    SubsetSize(Empties(m, some), Empties(m, all));
    SubsetSize(Empties(m, all), all);
  }

  /** More than c endorsers for one proposer, or for the empty block. */
  ghost predicate EndorseQuorum(m: Endorsements, c: nat) {
    |Empties(m, m.Keys)| > c || exists p :: |Backers(m, m.Keys, p)| > c
  }

  // ---------------------------------------------------------------- the counting loops

  function CountOf(counts: map<Uint32, nat>, p: Uint32): nat {
    if p in counts then counts[p] else 0
  }

  /** The counters after the endorsers in seen and the first entries of one more list. */
  ghost predicate Counted(m: Endorsements, seen: set<Uint32>, part: seq<Endorsement>, counts: map<Uint32, nat>,
                          empties: nat)
    requires seen <= m.Keys
  {
    Exact(m, seen, part, counts) && empties == |Empties(m, seen)| + if HasEmpty(part) then 1 else 0
  }

  ghost predicate Exact(m: Endorsements, seen: set<Uint32>, part: seq<Endorsement>, counts: map<Uint32, nat>)
    requires seen <= m.Keys
  {
    forall p :: CountOf(counts, p) == |Backers(m, seen, p)| + if Backs(part, p) then 1 else 0
  }

  lemma ExactNext(m: Endorsements, seen: set<Uint32>, e: Uint32, counts: map<Uint32, nat>)
    requires seen <= m.Keys && e in m && e !in seen && Exact(m, seen, m[e], counts)
    ensures Exact(m, seen + {e}, [], counts)
  {
    hide Backs, HasEmpty, Backers;
    NothingYet();
    forall p: Uint32 ensures CountOf(counts, p) == |Backers(m, seen + {e}, p)| {
      OneMoreBacker(m, seen, e, p);
    }
  }

  lemma ExactEntry(m: Endorsements, seen: set<Uint32>, l: seq<Endorsement>, i: nat, counts: map<Uint32, nat>)
    requires seen <= m.Keys && i < |l| && ListOk(l) && Exact(m, seen, l[..i], counts)
    ensures l[i].forEmpty ==> Exact(m, seen, l[..i + 1], counts)
    ensures !l[i].forEmpty ==> Exact(m, seen, l[..i + 1], counts[l[i].proposer := CountOf(counts, l[i].proposer) + 1])
  {
    hide Backers;
    EntryAdds(l, i);
  }

  lemma CountedNext(m: Endorsements, seen: set<Uint32>, e: Uint32, counts: map<Uint32, nat>, empties: nat)
    requires seen <= m.Keys && e in m && e !in seen && Counted(m, seen, m[e], counts, empties)
    ensures Counted(m, seen + {e}, [], counts, empties)
  {
    hide Backs, HasEmpty, Exact, Empties;
    OneMoreEmpty(m, seen, e);
    NothingYet();
    ExactNext(m, seen, e, counts);
  }

  lemma NothingYet()
    ensures !HasEmpty([]) && forall p :: !Backs([], p)
  {}

  /** One entry of a well-formed list counts once. */
  lemma CountedEntry(m: Endorsements, seen: set<Uint32>, l: seq<Endorsement>, i: nat, counts: map<Uint32, nat>,
                     empties: nat)
    requires seen <= m.Keys && i < |l| && ListOk(l) && Counted(m, seen, l[..i], counts, empties)
    ensures l[i].forEmpty ==> Counted(m, seen, l[..i + 1], counts, empties + 1)
    ensures !l[i].forEmpty ==>
      Counted(m, seen, l[..i + 1], counts[l[i].proposer := CountOf(counts, l[i].proposer) + 1], empties)
  {
    hide Exact, Empties;
    ExactEntry(m, seen, l, i, counts);
    EntryAdds(l, i);
  }

  lemma EntryAdds(l: seq<Endorsement>, i: nat)
    requires i < |l| && ListOk(l)
    ensures !HasEmpty(l[..i]) && (HasEmpty(l[..i + 1]) <==> l[i].forEmpty)
    ensures !l[i].forEmpty ==> !Backs(l[..i], l[i].proposer)
    ensures forall p :: Backs(l[..i + 1], p) <==> Backs(l[..i], p) || (!l[i].forEmpty && l[i].proposer == p)
  {
    assert l[..i + 1] == l[..i] + [l[i]];
    assert l[..i + 1][i] == l[i];
    forall p: Uint32 | Backs(l[..i], p) ensures Backs(l[..i + 1], p) {
      var j :| 0 <= j < i && !l[..i][j].forEmpty && l[..i][j].proposer == p;
      assert l[..i + 1][j] == l[..i][j];
    }
  }

  /** One endorser's list: an answer as soon as a counter exceeds c. */
  method CountEntries(m: Endorsements, ghost seen: set<Uint32>, e: Uint32, c: nat, before: map<Uint32, nat>,
                      emptyBefore: nat)
    returns (answer: Option<(Uint32, bool)>, counts: map<Uint32, nat>, empties: nat)
    requires ListsOk(m) && seen <= m.Keys && e in m && e !in seen
    requires Counted(m, seen, [], before, emptyBefore) && NoneAbove(before, emptyBefore, c)
    ensures answer == None ==> Counted(m, seen + {e}, [], counts, empties) && NoneAbove(counts, empties, c)
    ensures answer.Some? && answer.value.1 ==> |Empties(m, m.Keys)| > c
    ensures answer.Some? && !answer.value.1 ==> |Backers(m, m.Keys, answer.value.0)| > c
  {
    hide Backs, HasEmpty, Backers, Empties, Counted, ListOk;
    counts, empties := before, emptyBefore;
    var l := m[e];
    assert l[..0] == [];
    for i := 0 to |l|
      invariant Counted(m, seen, l[..i], counts, empties)
      invariant NoneAbove(counts, empties, c)
    {
      CountedEntry(m, seen, l, i, counts, empties);
      if l[i].forEmpty {
        empties := empties + 1;
        if empties > c {
          Reaches(m, seen, e, l[..i + 1], counts, empties, l[i].proposer);
          return Some((l[i].proposer, true)), counts, empties;
        }
      } else {
        counts := counts[l[i].proposer := CountOf(counts, l[i].proposer) + 1];
        if counts[l[i].proposer] > c {
          Reaches(m, seen, e, l[..i + 1], counts, empties, l[i].proposer);
          return Some((l[i].proposer, false)), counts, empties;
        }
      }
    }
    assert l[..|l|] == m[e];
    CountedNext(m, seen, e, counts, empties);
    return None, counts, empties;
  }

  /** The loops of endorseDone, for any order of the map: done exactly when there is a quorum, and
      the answer names one. */
  method EndorsedEnough(m: Endorsements, c: Uint32) returns (proposer: Uint32, forEmpty: bool, done: bool)
    requires ListsOk(m)
    ensures done <==> EndorseQuorum(m, c)
    ensures done && forEmpty ==> |Empties(m, m.Keys)| > c
    ensures done && !forEmpty ==> |Backers(m, m.Keys, proposer)| > c
  {
    hide Backers, Empties, Counted, ListsOk, NoneAbove;
    if |m| < c as int + 1 {
      Bounded(m, c);
      return NOBODY, false, false;
    }
    var counts: map<Uint32, nat> := map[];
    var empties: nat := 0;
    var rest := m.Keys;
    ghost var seen: set<Uint32> := {};
    NoneSeen(m);
    NoneYet(c);
    while rest != {}
      invariant seen + rest == m.Keys && seen !! rest
      invariant Counted(m, seen, [], counts, empties)
      invariant NoneAbove(counts, empties, c)
      decreases |rest|
    {
      var e :| e in rest;
      rest := rest - {e};
      var answer;
      answer, counts, empties := CountEntries(m, seen, e, c, counts, empties);
      if answer.Some? { return answer.value.0, answer.value.1, true; }
      seen := seen + {e};
    }
    assert seen == m.Keys;
    AllSeen(m, counts, empties, c);
    return NOBODY, false, false;
  }

  predicate NoneAbove(counts: map<Uint32, nat>, empties: nat, c: nat) {
    empties <= c && forall p :: p in counts ==> counts[p] <= c
  }

  lemma NoneSeen(m: Endorsements)
    ensures Counted(m, {}, [], map[], 0) && Exact(m, {}, [], map[]) && AtMost(m, {}, [], map[])
  {
    NothingYet();
    hide Backs, HasEmpty;
    assert Empties(m, {}) == {};
    forall p: Uint32 ensures |Backers(m, {}, p)| == 0 {
      assert Backers(m, {}, p) == {};
    }
  }

  lemma Bounded(m: Endorsements, c: nat)
    requires |m| <= c
    ensures !EndorseQuorum(m, c)
  {
    hide Backs, HasEmpty, Backers, Empties;
    assert |m.Keys| == |m|;
    forall p: Uint32 ensures |Backers(m, m.Keys, p)| <= c && |Empties(m, m.Keys)| <= c {
      GrowsWith(m, m.Keys, m.Keys, p);
    }
    GrowsWith(m, m.Keys, m.Keys, 0);
  }

  lemma AllSeen(m: Endorsements, counts: map<Uint32, nat>, empties: nat, c: nat)
    requires Counted(m, m.Keys, [], counts, empties) && NoneAbove(counts, empties, c)
    ensures !EndorseQuorum(m, c)
  {
    hide Backs, HasEmpty, Backers, Empties;
    NoneReached(m, counts, c);
    NothingYet();
  }

  /** A counter never exceeds the endorsers there are. */
  lemma Reaches(m: Endorsements, seen: set<Uint32>, e: Uint32, part: seq<Endorsement>, counts: map<Uint32, nat>,
                empties: nat, p: Uint32)
    requires seen <= m.Keys && e in m && e !in seen && part <= m[e] && Counted(m, seen, part, counts, empties)
    ensures CountOf(counts, p) <= |Backers(m, m.Keys, p)| && empties <= |Empties(m, m.Keys)|
  {
    hide Backers, Empties;
    OneMoreBacker(m, seen, e, p);
    OneMoreEmpty(m, seen, e);
    GrowsWith(m, seen + {e}, m.Keys, p);
    PartOf(part, m[e], p);
  }

  lemma PartOf(part: seq<Endorsement>, l: seq<Endorsement>, p: Uint32)
    requires part <= l
    ensures (Backs(part, p) ==> Backs(l, p)) && (HasEmpty(part) ==> HasEmpty(l))
  {
    if Backs(part, p) {
      var i :| 0 <= i < |part| && !part[i].forEmpty && part[i].proposer == p;
      assert l[i] == part[i];
    }
    if HasEmpty(part) {
      var i :| 0 <= i < |part| && part[i].forEmpty;
      assert l[i] == part[i];
    }
  }

  // ---------------------------------------------------------------- the signature count of commitDone

  /** No counter exceeds the endorsers seen. */
  ghost predicate AtMost(m: Endorsements, seen: set<Uint32>, part: seq<Endorsement>, counts: map<Uint32, nat>)
    requires seen <= m.Keys
  {
    forall p :: CountOf(counts, p) <= |Backers(m, seen, p)| + if Backs(part, p) then 1 else 0
  }

  lemma AtMostNext(m: Endorsements, seen: set<Uint32>, e: Uint32, part: seq<Endorsement>, counts: map<Uint32, nat>)
    requires seen <= m.Keys && e in m && e !in seen && part <= m[e] && AtMost(m, seen, part, counts)
    ensures AtMost(m, seen + {e}, [], counts)
  {
    hide Backs, HasEmpty, Backers;
    NothingYet();
    forall p: Uint32 ensures CountOf(counts, p) <= |Backers(m, seen + {e}, p)| {
      OneMoreBacker(m, seen, e, p);
      PartOf(part, m[e], p);
    }
  }

  lemma AtMostEntry(m: Endorsements, seen: set<Uint32>, l: seq<Endorsement>, i: nat, counts: map<Uint32, nat>)
    requires seen <= m.Keys && i < |l| && ListOk(l) && AtMost(m, seen, l[..i], counts)
    ensures l[i].forEmpty ==> AtMost(m, seen, l[..i + 1], counts)
    ensures !l[i].forEmpty ==> AtMost(m, seen, l[..i + 1], counts[l[i].proposer := CountOf(counts, l[i].proposer) + 1])
  {
    hide Backers;
    EntryAdds(l, i);
  }

  lemma AtMostReaches(m: Endorsements, seen: set<Uint32>, e: Uint32, part: seq<Endorsement>,
                      counts: map<Uint32, nat>, p: Uint32)
    requires seen <= m.Keys && e in m && e !in seen && part <= m[e] && AtMost(m, seen, part, counts)
    ensures CountOf(counts, p) <= |Backers(m, m.Keys, p)|
  {
    hide Backs, Backers;
    NothingYet();
    AtMostNext(m, seen, e, part, counts);
    GrowsWith(m, seen + {e}, m.Keys, p);
  }

  /** One endorser's list in the signature count: stops at a proposer above the bound. */
  method CountList(m: Endorsements, ghost seen: set<Uint32>, e: Uint32, bound: nat, before: map<Uint32, nat>,
                   emptyBefore: nat)
    returns (proposer: Uint32, above: bool, counts: map<Uint32, nat>, emptyCnt: nat)
    requires ListsOk(m) && seen <= m.Keys && e in m && e !in seen
    requires AtMost(m, seen, [], before)
    ensures AtMost(m, seen + {e}, [], counts)
    ensures above ==> |Backers(m, m.Keys, proposer)| > bound
    ensures emptyCnt <= emptyBefore + if HasEmpty(m[e]) then 1 else 0
    ensures !above && Exact(m, seen, [], before) && NoneAbove(before, 0, bound) ==>
      NoneAbove(counts, 0, bound) && Exact(m, seen + {e}, [], counts)
  {
    hide Backs, Backers, Exact, ListOk, AtMost, HasEmpty;
    counts, emptyCnt := before, emptyBefore;
    var l := m[e];
    ListCount(m, e);
    assert l[0..] == l;
    assert l[..0] == [];
    ghost var exact := Exact(m, seen, [], before);
    for i := 0 to |l|
      invariant AtMost(m, seen, l[..i], counts)
      invariant emptyCnt + CountEmpty(l[i..]) == emptyBefore + CountEmpty(l)
      invariant exact ==> Exact(m, seen, l[..i], counts)
      invariant NoneAbove(before, 0, bound) ==> NoneAbove(counts, 0, bound)
    {
      AtMostEntry(m, seen, l, i, counts);
      assert l[i..][1..] == l[i + 1..];
      if exact { ExactEntry(m, seen, l, i, counts); }
      if l[i].forEmpty {
        emptyCnt := emptyCnt + 1;
      } else {
        counts := counts[l[i].proposer := CountOf(counts, l[i].proposer) + 1];
        if counts[l[i].proposer] > bound {
          AtMostReaches(m, seen, e, l[..i + 1], counts, l[i].proposer);
          AtMostNext(m, seen, e, l[..i + 1], counts);
          return l[i].proposer, true, counts, emptyCnt;
        }
      }
    }
    assert l[..|l|] == m[e];
    AtMostNext(m, seen, e, m[e], counts);
    if exact { ExactNext(m, seen, e, counts); }
    return NOBODY, false, counts, emptyCnt;
  }

  lemma ListCount(m: Endorsements, e: Uint32)
    requires ListsOk(m) && e in m
    ensures CountEmpty(m[e]) == if HasEmpty(m[e]) then 1 else 0
  {
    OneEmptyAtMost(m[e], 0);
    assert m[e][0..] == m[e];
  }

  /** The counters after some endorsers: exact, unless a proposer above the bound cut a list short. */
  ghost predicate Tally(m: Endorsements, isEndorser: Uint32 -> bool, seen: set<Uint32>, bound: nat,
                        counts: map<Uint32, nat>, emptyCnt: nat, exact: bool)
    requires seen <= m.Keys
  {
    && AtMost(m, seen, [], counts) && emptyCnt <= EmptyWeight(m, seen, isEndorser)
    && (exact ==> Exact(m, seen, [], counts) && NoneAbove(counts, 0, bound))
  }

  /** One turn of the signature count: a node that is no endorser has its empty endorsements
      counted once more. */
  method CountEndorser(m: Endorsements, isEndorser: Uint32 -> bool, ghost seen: set<Uint32>, e: Uint32, bound: nat,
                       before: map<Uint32, nat>, emptyBefore: nat, ghost exact: bool)
    returns (proposer: Uint32, above: bool, counts: map<Uint32, nat>, emptyCnt: nat)
    requires ListsOk(m) && seen <= m.Keys && e in m && e !in seen
    requires Tally(m, isEndorser, seen, bound, before, emptyBefore, exact)
    ensures Tally(m, isEndorser, seen + {e}, bound, counts, emptyCnt, exact && !above)
    ensures emptyCnt <= EmptyWeight(m, m.Keys, isEndorser)
    ensures above ==> |Backers(m, m.Keys, proposer)| > bound
  {
    hide Backs, HasEmpty, Backers, Empties, EmptyWeight, Exact, ListsOk, AtMost, NoneAbove, CountEmpty;
    OneMoreWeight(m, seen, e, isEndorser);
    WeightGrows(m, seen + {e}, isEndorser);
    ListCount(m, e);
    var empties := if isEndorser(e) then emptyBefore else emptyBefore + CountEmpty(m[e]);
    proposer, above, counts, emptyCnt := CountList(m, seen, e, bound, before, empties);
  }

  method CountSignatures(m: Endorsements, isEndorser: Uint32 -> bool, bound: nat)
    returns (proposer: Uint32, forEmpty: bool)
    requires ListsOk(m)
    ensures proposer != NOBODY ==> |Backers(m, m.Keys, proposer)| > bound
    ensures proposer == NOBODY && |Backers(m, m.Keys, NOBODY)| <= bound ==>
      forall p :: |Backers(m, m.Keys, p)| <= bound
    ensures forEmpty ==> EmptyWeight(m, m.Keys, isEndorser) > bound
  {
    hide Backers, EmptyWeight, Tally, ListsOk;
    proposer, forEmpty := NOBODY, false;
    var counts: map<Uint32, nat> := map[];
    var emptyCnt: nat := 0;
    var rest := m.Keys;
    ghost var seen: set<Uint32> := {};
    ghost var exact := true;
    NoTally(m, isEndorser, bound);
    while rest != {} && proposer == NOBODY
      invariant seen <= m.Keys && rest == m.Keys - seen
      invariant Tally(m, isEndorser, seen, bound, counts, emptyCnt, exact)
      invariant proposer != NOBODY || !exact ==> |Backers(m, m.Keys, proposer)| > bound
      invariant forEmpty ==> EmptyWeight(m, m.Keys, isEndorser) > bound
      decreases |rest|
    {
      var e :| e in rest;
      rest := rest - {e};
      var found, above;
      found, above, counts, emptyCnt := CountEndorser(m, isEndorser, seen, e, bound, counts, emptyCnt, exact);
      seen, exact := seen + {e}, exact && !above;
      if above {
        proposer := found;
        forEmpty := forEmpty || emptyCnt > bound;
      }
    }
    if exact && proposer == NOBODY {
      assert seen == m.Keys;
      TallyAll(m, isEndorser, bound, counts, emptyCnt);
    }
  }

  lemma NoTally(m: Endorsements, isEndorser: Uint32 -> bool, bound: nat)
    ensures Tally(m, isEndorser, {}, bound, map[], 0, true)
  {
    NoneSeen(m);
    NoneYet(bound);
  }

  lemma TallyAll(m: Endorsements, isEndorser: Uint32 -> bool, bound: nat, counts: map<Uint32, nat>, emptyCnt: nat)
    requires Tally(m, isEndorser, m.Keys, bound, counts, emptyCnt, true)
    ensures forall p :: |Backers(m, m.Keys, p)| <= bound
  {
    NoneReached(m, counts, bound);
  }

  lemma NoneYet(bound: nat)
    ensures NoneAbove(map[], 0, bound)
  {}

  /** The decision of commitDone; consensus is what the commit messages alone decide. Failing them, a proposer is
      found by counting only with N - C signers, and none is found only if no proposer has them,
      unless the one numbered NOBODY has; counting makes it a commit for the empty block only when
      the empty endorsements, counted as there, are more than N - 1 - C. */
  method CommittedEnough(m: Endorsements, isEndorser: Uint32 -> bool, c: Uint32, n: Uint32, consensus: (Uint32, bool))
    returns (proposer: Uint32, forEmpty: bool, done: bool)
    requires ListsOk(m)
    ensures consensus.0 != NOBODY ==> proposer == consensus.0 && forEmpty == consensus.1 && done
    ensures done <==> proposer != NOBODY
    ensures consensus.0 == NOBODY && c < n ==>
      && (done ==> |Backers(m, m.Keys, proposer)| >= n - c)
      && (!done && |Backers(m, m.Keys, NOBODY)| < n - c ==> forall p :: |Backers(m, m.Keys, p)| < n - c)
      && (forEmpty ==> consensus.1 || EmptyWeight(m, m.Keys, isEndorser) >= n - c)
  {
    hide Backers, ListsOk, EmptyWeight;
    proposer, forEmpty := consensus.0, consensus.1;
    var bound := (n as int - 1 - c as int) % TWO_32;
    if proposer == NOBODY {
      var empty;
      proposer, empty := CountSignatures(m, isEndorser, bound);
      forEmpty := forEmpty || empty;
    }
    if proposer != NOBODY { return proposer, forEmpty, true; }
    return NOBODY, false, false;
  }

  function CountEmpty(l: seq<Endorsement>): nat {
    if l == [] then 0 else (if l[0].forEmpty then 1 else 0) + CountEmpty(l[1..])
  }

  lemma NoneReached(m: Endorsements, counts: map<Uint32, nat>, bound: nat)
    requires Exact(m, m.Keys, [], counts) && NoneAbove(counts, 0, bound)
    ensures forall p :: |Backers(m, m.Keys, p)| <= bound
  {
    hide Backs, Backers;
    NothingYet();
    forall p: Uint32 ensures |Backers(m, m.Keys, p)| <= bound {
      assert CountOf(counts, p) == |Backers(m, m.Keys, p)|;
    }
  }

  // ---------------------------------------------------------------- the pool

  method FindEmpty(l: seq<Endorsement>) returns (found: bool)
    ensures found <==> HasEmpty(l)
  {
    for i := 0 to |l|
      invariant forall j :: 0 <= j < i ==> !l[j].forEmpty
    {
      if l[i].forEmpty { return true; }
    }
    return false;
  }

  /** The duplicate check; the caller has seen that no entry is empty. */
  method FindProposer(l: seq<Endorsement>, p: Uint32) returns (found: bool)
    requires !HasEmpty(l)
    ensures found <==> Backs(l, p)
  {
    for i := 0 to |l|
      invariant forall j :: 0 <= j < i ==> l[j].proposer != p
    {
      if l[i].proposer == p {
        assert !l[i].forEmpty;
        return true;
      }
    }
    return false;
  }

  /** addBlockEndorsementLocked. */
  method AddEndorsement(m: Endorsements, endorser: Uint32, e: Endorsement, commitment: bool) returns (r: Endorsements)
    requires ListsOk(m)
    ensures r == m[endorser := Extended(m, endorser, e, commitment)] && ListsOk(r)
  {
    hide HasEmpty, Backs, ListOk;
    ExtendedOk(m, endorser, e, commitment);
    if endorser in m && !commitment {
      var l := m[endorser];
      var same := m[endorser := l];
      assert same == m;
      var empty := FindEmpty(l);
      if empty { return m; }
      if e.forEmpty { return m[endorser := l + [e]]; }
      var dup := FindProposer(l, e.proposer);
      if dup { return m; }
      r := m[endorser := l + [e]];
    } else {
      r := m[endorser := [e]];
    }
  }

  /** The loop over a commit's signatures, in any order. */
  method AddSignatures(m: Endorsements, c: Commit) returns (r: Endorsements)
    requires ListsOk(m)
    ensures r == ExtendedAll(m, c, c.endorsersSig) && ListsOk(r)
  {
    hide Extended, ListsOk, ExtendedAll;
    r := m;
    var rest := c.endorsersSig.Keys;
    ghost var done: map<Uint32, Bytes> := map[];
    ExtendedNone(m, c);
    while rest != {}
      invariant rest == c.endorsersSig.Keys - done.Keys
      invariant forall e :: e in done ==> e in c.endorsersSig && done[e] == c.endorsersSig[e]
      invariant ListsOk(r) && r == ExtendedAll(m, c, done)
      decreases |rest|
    {
      var e :| e in rest;
      ExtendedNext(m, c, done, e, c.endorsersSig[e]);
      r := AddEndorsement(r, e, AsEndorsement(c, c.endorsersSig[e]), false);
      done := done[e := c.endorsersSig[e]];
      rest := rest - {e};
    }
    assert done == c.endorsersSig;
  }

  lemma ExtendedNone(m: Endorsements, c: Commit)
    ensures ExtendedAll(m, c, map[]) == m
  {}

  lemma ExtendedNext(m: Endorsements, c: Commit, done: map<Uint32, Bytes>, e: Uint32, signature: Bytes)
    requires e !in done
    ensures var r := ExtendedAll(m, c, done);
      r[e := Extended(r, e, AsEndorsement(c, signature), false)] == ExtendedAll(m, c, done[e := signature])
  {
    var r := ExtendedAll(m, c, done);
    assert e in r <==> e in m;
    assert Extended(r, e, AsEndorsement(c, signature), false) == Extended(m, e, AsEndorsement(c, signature), false);
    hide Extended;
    var s, t := r[e := Extended(r, e, AsEndorsement(c, signature), false)], ExtendedAll(m, c, done[e := signature]);
    assert s.Keys == t.Keys;
    assert forall k :: k in s ==> s[k] == t[k];
  }

  class BlockPool {
    /** The candidates by block number. */
    var candidates: map<Uint32, Candidate>

    ghost predicate Valid()
      reads this
    {
      forall k :: k in candidates ==> CandidateOk(candidates[k])
    }

    function At(blkNum: Uint32): Candidate
      reads this
    {
      if blkNum in candidates then candidates[blkNum] else NEW_CANDIDATE
    }

    constructor ()
      ensures Valid() && candidates == map[]
    {
      candidates := map[];
    }

    /** A proposal of a proposer already heard from is not kept: no error for the same signature. */
    method NewBlockProposal(blkNum: Uint32, p: Proposal) returns (ok: bool)
      requires Valid()
      modifies this
      ensures Valid()
      ensures var c := old(At(blkNum));
        && (ok <==> forall i :: 0 <= i < |c.proposals| && c.proposals[i].proposer == p.proposer ==>
                                c.proposals[i].signature == p.signature)
        && candidates == old(candidates)[blkNum :=
             if exists i :: 0 <= i < |c.proposals| && c.proposals[i].proposer == p.proposer then c
             else c.(proposals := c.proposals + [p],
                     endorsed := c.endorsed[p.proposer :=
                       Extended(c.endorsed, p.proposer, Endorsement(p.proposer, p.signature, false), false)])]
      ensures !old(HasProposed(At(blkNum), p.proposer)) ==>
        && At(blkNum).proposals == old(At(blkNum)).proposals + [p]
        && Endorses(old(At(blkNum)).endorsed, p.proposer, p.proposer, p.signature, false, At(blkNum).endorsed)
    {
      hide Extended, ListOk, Endorses;
      var c := At(blkNum);
      assert CandidateOk(c);
      candidates := candidates[blkNum := c];
      for i := 0 to |c.proposals|
        invariant candidates == old(candidates)[blkNum := c]
        invariant forall j :: 0 <= j < i ==> c.proposals[j].proposer != p.proposer
      {
        if c.proposals[i].proposer == p.proposer {
          return c.proposals[i].signature == p.signature;
        }
      }
      EndorsesIt(c.endorsed, p.proposer, p.proposer, p.signature, false);
      var endorsed := AddEndorsement(c.endorsed, p.proposer, Endorsement(p.proposer, p.signature, false), false);
      candidates := candidates[blkNum := c.(proposals := c.proposals + [p], endorsed := endorsed)];
      return true;
    }

    method NewBlockEndorsement(blkNum: Uint32, endorser: Uint32, e: Endorsement)
      requires Valid()
      modifies this
      ensures Valid()
      ensures var c := old(At(blkNum));
        candidates == old(candidates)[blkNum :=
          c.(endorsed := c.endorsed[endorser := Extended(c.endorsed, endorser, e, false)])]
      ensures Endorses(old(At(blkNum)).endorsed, endorser, e.proposer, e.signature, e.forEmpty, At(blkNum).endorsed)
    {
      hide Extended, ListOk, Endorses;
      var c := At(blkNum);
      assert CandidateOk(c);
      EndorsesIt(c.endorsed, endorser, e.proposer, e.signature, e.forEmpty);
      var endorsed := AddEndorsement(c.endorsed, endorser, e, false);
      candidates := candidates[blkNum := c.(endorsed := endorsed)];
    }

    /** One committer, one commit. */
    method NewBlockCommitment(blkNum: Uint32, m: Commit) returns (ok: bool)
      requires Valid()
      modifies this
      ensures Valid()
      ensures var c := old(At(blkNum));
        && (ok <==> forall i :: 0 <= i < |c.commits| && c.commits[i].committer == m.committer ==>
                                c.commits[i].hash == m.hash)
        && candidates == old(candidates)[blkNum :=
             if exists i :: 0 <= i < |c.commits| && c.commits[i].committer == m.committer then c
             else c.(commits := c.commits + [m], endorsed := Committed(c.endorsed, m))]
      ensures !old(HasCommitted(At(blkNum), m.committer)) ==>
        && At(blkNum).commits == old(At(blkNum)).commits + [m]
        && Commits(old(At(blkNum)).endorsed, m, At(blkNum).endorsed)
        && At(blkNum).endorsed[m.committer] == [Endorsement(m.proposer, m.committerSig, m.forEmpty)]
    {
      hide Extended, ListOk, ExtendedAll, Commits;
      var c := At(blkNum);
      assert CandidateOk(c);
      candidates := candidates[blkNum := c];
      for i := 0 to |c.commits|
        invariant candidates == old(candidates)[blkNum := c]
        invariant forall j :: 0 <= j < i ==> c.commits[j].committer != m.committer
      {
        if c.commits[i].committer == m.committer {
          return c.commits[i].hash == m.hash;
        }
      }
      CommitsIt(c.endorsed, m);
      var endorsed := AddSignatures(c.endorsed, m);
      OwnLast(endorsed, m);
      endorsed := AddEndorsement(endorsed, m.committer, AsEndorsement(m, m.committerSig), true);
      candidates := candidates[blkNum := c.(commits := c.commits + [m], endorsed := endorsed)];
      return true;
    }

    /** In every pool its operations can make, endorsement is done exactly on a quorum. */
    method EndorseDone(blkNum: Uint32, c: Uint32) returns (proposer: Uint32, forEmpty: bool, done: bool)
      requires Valid()
      ensures done <==> EndorseQuorum(At(blkNum).endorsed, c)
      ensures done && forEmpty ==> |Empties(At(blkNum).endorsed, At(blkNum).endorsed.Keys)| > c
      ensures done && !forEmpty ==> |Backers(At(blkNum).endorsed, At(blkNum).endorsed.Keys, proposer)| > c
    {
      if blkNum !in candidates {
        Bounded(map[], c);
        return NOBODY, false, false;
      }
      assert CandidateOk(candidates[blkNum]);
      proposer, forEmpty, done := EndorsedEnough(candidates[blkNum].endorsed, c);
    }

    method CommitDone(blkNum: Uint32, isEndorser: Uint32 -> bool, c: Uint32, n: Uint32, consensus: (Uint32, bool))
      returns (proposer: Uint32, forEmpty: bool, done: bool)
      requires Valid()
      ensures done ==> blkNum in candidates && proposer != NOBODY
      ensures done && consensus.0 == NOBODY && c < n ==>
        |Backers(At(blkNum).endorsed, At(blkNum).endorsed.Keys, proposer)| >= n - c
      ensures blkNum in candidates && !done && c < n &&
              |Backers(At(blkNum).endorsed, At(blkNum).endorsed.Keys, NOBODY)| < n - c ==>
        consensus.0 == NOBODY && forall p :: |Backers(At(blkNum).endorsed, At(blkNum).endorsed.Keys, p)| < n - c
      ensures forEmpty && c < n ==>
        consensus.1 || EmptyWeight(At(blkNum).endorsed, At(blkNum).endorsed.Keys, isEndorser) >= n - c
      ensures done && consensus.0 != NOBODY ==> (proposer, forEmpty) == consensus
    {
      hide EmptyWeight, Backers;
      if blkNum !in candidates { return NOBODY, false, false; }
      assert CandidateOk(candidates[blkNum]);
      proposer, forEmpty, done := CommittedEnough(candidates[blkNum].endorsed, isEndorser, c, n, consensus);
    }

    /** At most one proposal is ever committed for a block. */
    method SetProposalCommitted(blkNum: Uint32, p: Proposal, forEmpty: bool) returns (ok: bool)
      requires Valid()
      modifies this
      ensures Valid()
      ensures ok <==>
              blkNum in old(candidates) && old(At(blkNum)).committed == None && old(At(blkNum)).committedEmpty == None
      ensures !ok ==> candidates == old(candidates)
      ensures ok ==> candidates == old(candidates)[blkNum :=
        if forEmpty then old(At(blkNum)).(committedEmpty := Some(p)) else old(At(blkNum)).(committed := Some(p))]
    {
      if blkNum !in candidates { return false; }
      var c := candidates[blkNum];
      assert CandidateOk(c);
      if c.committed != None || c.committedEmpty != None { return false; }
      if forEmpty {
        c := c.(committedEmpty := Some(p));
      } else {
        c := c.(committed := Some(p));
      }
      candidates := candidates[blkNum := c];
      return true;
    }

    /** A sealed block stays; hasEmpty says the block carries an empty variant, stored that the
        chain store took it. */
    method SetBlockSealed(blkNum: Uint32, proposer: Uint32, hasEmpty: bool, forEmpty: bool, sigdata: bool, stored: bool)
      returns (ok: bool)
      requires Valid()
      modifies this
      ensures Valid()
      ensures var c := old(At(blkNum));
        && (c.sealed.Some? ==>
              candidates == old(candidates)[blkNum := c] && (ok <==> c.sealed.value.proposer == proposer))
        && (c.sealed == None && sigdata && forEmpty && !hasEmpty ==> !ok && candidates == old(candidates)[blkNum := c])
        && (c.sealed == None && !(sigdata && forEmpty && !hasEmpty) ==>
              ok == stored && candidates == old(candidates)[blkNum := c.(sealed := Some(Sealed(proposer, forEmpty)))])
    {
      var c := At(blkNum);
      assert CandidateOk(c);
      candidates := candidates[blkNum := c];
      if c.sealed != None {
        return c.sealed.value.proposer == proposer;
      }
      if sigdata && forEmpty && !hasEmpty { return false; }
      candidates := candidates[blkNum := c.(sealed := Some(Sealed(proposer, forEmpty)))];
      return stored;
    }
  }

  lemma OwnLast(m: Endorsements, c: Commit)
    ensures m[c.committer := Extended(m, c.committer, AsEndorsement(c, c.committerSig), true)]
         == m[c.committer := [AsEndorsement(c, c.committerSig)]]
  {}
}
