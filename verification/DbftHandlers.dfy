/** What each handler does for a service in good standing, in terms a caller can use. */
module DbftHandlers {
  import opened Words
  import opened DbftModel
  import opened DbftSafety
  import opened DbftEdges
  import opened DbftEffects

  /** Every invariant of the service. */
  predicate Good(hash: BlockHash, s: Service) {
    Inv(s) && Backed(hash, s.ctx)
  }

  /** A quorum asks for one view, another than the current one. */
  predicate Moves(c: Context, v: Byte)
    requires c.n > 0
  {
    BlockGenerated !in c.state && v != c.view && CountEq(c.expectedView, v) >= M(c.n)
  }

  /** Everything kept, nothing taken back but the own expected view, no vote cast. */
  predicate Quiet(hash: BlockHash, s: Service, t: Service) {
    Good(hash, t) && Ahead(s.ctx, t.ctx) && t.votes == s.votes
  }

  /** Everything kept, nothing taken back but the own expected view, new votes of the current view only. */
  predicate Onward(hash: BlockHash, s: Service, t: Service) {
    Good(hash, t) && Ahead(s.ctx, t.ctx) && VotesGrow(s, t)
  }

  lemma GoodShape(hash: BlockHash, s: Service)
    requires Good(hash, s)
    ensures Inv(s) && Backed(hash, s.ctx) && ViewsOk(s.ctx) && Roles(s.ctx)
  {}

  lemma StartGood(hash: BlockHash, l: Ledger)
    requires LedgerOk(l)
    ensures Good(hash, Start(l))
  {
    hide Inv, Backed, Start;
    StartOk(l);
    StartBacks(hash, l);
  }

  /** The view changes exactly on a quorum, and to a later one. */
  lemma CheckMeans(hash: BlockHash, s: Service, v: Byte, l: Ledger)
    requires Good(hash, s) && LedgerOk(l)
    ensures var t := CheckExpectedView(s, v, l);
      && Quiet(hash, s, t) && t.ctx.expectedView == s.ctx.expectedView
      && t.ctx.view == if Moves(s.ctx, v) then v else s.ctx.view
    ensures Moves(s.ctx, v) ==> v > s.ctx.view
  {
    hide Inv, Backed, Ahead, CountEq, M, ViewsOk, Roles;
    GoodShape(hash, s);
    InvViews(s);
    CheckKeeps(s, v, l);
    ViewsShape(s.ctx);
    CheckBacks(hash, s, 0, s.ctx.expectedView[0], v, l);
    assert s == s.(ctx := s.ctx.(expectedView := s.ctx.expectedView[0 := s.ctx.expectedView[0]]));
    ViewVotes(s, v, l);
    if Moves(s.ctx, v) { ViewsForward(s.ctx, v); }
  }

  lemma ViewsShape(c: Context)
    requires ViewsOk(c)
    ensures Shaped(c)
  {}

  /** An expected view is only raised. */
  lemma RaiseMeans(hash: BlockHash, s: Service, i: nat, v: Byte, l: Ledger)
    requires Good(hash, s) && LedgerOk(l) && i < s.ctx.n && v >= s.ctx.expectedView[i]
    ensures var t := CheckExpectedView(s.(ctx := s.ctx.(expectedView := s.ctx.expectedView[i := v])), v, l);
      Quiet(hash, s, t) && t.ctx.expectedView == s.ctx.expectedView[i := v]
  {
    hide Inv, Backed, Ahead, CheckExpectedView, ViewsOk, Roles;
    GoodShape(hash, s);
    ViewsShape(s.ctx);
    RaiseKeeps(s, i, v);
    var u := s.(ctx := s.ctx.(expectedView := s.ctx.expectedView[i := v]));
    BackedAside(hash, s.ctx, u.ctx);
    CheckMeans(hash, u, v, l);
    AheadTwice(s.ctx, u.ctx, CheckExpectedView(u, v, l).ctx);
  }

  lemma BackedAside(hash: BlockHash, c: Context, d: Context)
    requires Backed(hash, c) && Shaped(c) && d == c.(expectedView := d.expectedView)
    ensures Backed(hash, d)
  {}

  lemma ChangeViewMeans(hash: BlockHash, s: Service, sender: nat, v: Byte, l: Ledger)
    requires Good(hash, s) && LedgerOk(l) && sender < s.ctx.n
    ensures var t := ChangeViewReceived(s, sender, v, l);
      var was := s.ctx.expectedView[sender];
      Quiet(hash, s, t) && t.ctx.expectedView == s.ctx.expectedView[sender := if v > was then v else was]
  {
    hide Good, Ahead, CheckExpectedView, ViewsOk, Roles;
    GoodShape(hash, s);
    ViewsShape(s.ctx);
    StaysAhead(s);
    if v > s.ctx.expectedView[sender] { RaiseMeans(hash, s, sender, v, l); }
  }

  /** The own expected view becomes the next view; that of a lone bookkeeper must not wrap. */
  lemma RequestMeans(hash: BlockHash, s: Service, l: Ledger)
    requires Good(hash, s) && LedgerOk(l) && s.ctx.index >= 0 && (s.ctx.n >= 2 || NoWrap(s.ctx) || s.ctx.view == 0)
    ensures var t := RequestChangeView(s, l);
      && Quiet(hash, s, t)
      && (BlockGenerated !in s.ctx.state ==>
            t.ctx.expectedView == s.ctx.expectedView[s.ctx.index := NextView(s.ctx)])
  {
    hide Inv, Backed, Ahead, ViewsOk, Roles, CountEq, M;
    GoodShape(hash, s);
    ViewsShape(s.ctx);
    RequestKeeps(s, l);
    CheckBacks(hash, s, s.ctx.index, NextView(s.ctx), NextView(s.ctx), l);
    ViewVotes(s, 0, l);
    if BlockGenerated !in s.ctx.state { RequestViews(hash, s, l); }
  }

  lemma RequestViews(hash: BlockHash, s: Service, l: Ledger)
    requires Good(hash, s) && LedgerOk(l) && s.ctx.index >= 0 && (s.ctx.n >= 2 || NoWrap(s.ctx) || s.ctx.view == 0)
    requires BlockGenerated !in s.ctx.state
    ensures RequestChangeView(s, l).ctx.expectedView == s.ctx.expectedView[s.ctx.index := NextView(s.ctx)]
  {
    hide Backed, Ahead, ViewsOk, CheckExpectedView, NextView, VotesOk, Roles;
    GoodShape(hash, s);
    ViewsShape(s.ctx);
    var e := NextView(s.ctx);
    var u := s.(ctx := s.ctx.(expectedView := s.ctx.expectedView[s.ctx.index := e]));
    if s.ctx.n >= 2 {
      OwnKeeps(s, e);
    } else if NoWrap(s.ctx) {
      NextViewGrows(s.ctx);
      RaiseKeeps(s, s.ctx.index, e);
    }
    if s.ctx.n >= 2 || NoWrap(s.ctx) {
      BackedAside(hash, s.ctx, u.ctx);
      CheckMeans(hash, u, e, l);
    } else {
      SameView(u, l);
    }
  }

  lemma SameView(s: Service, l: Ledger)
    requires s.ctx.n > 0 && LedgerOk(l)
    ensures CheckExpectedView(s, s.ctx.view, l) == s
  {}

  /** What a proposal means for the votes. A backup votes exactly for a first proposal of the primary,
      signed by it, whose time, transactions and next bookkeepers are in order, as far as it can sign;
      a wrong signature, transaction or list of next bookkeepers makes it ask for the next view; and
      nothing else has any effect. */
  predicate ProposalVotes(hash: BlockHash, s: Service, sender: nat, p: Proposal, sig: Option<Sig>, q: Checks,
                          t: Service)
    requires Shaped(s.ctx)
  {
    var c, x := s.ctx, hash(Header(s.ctx.prevHash, s.ctx.height, p));
    var looked :=
      && Backup in c.state && RequestReceived !in c.state && sender == c.primaryIndex && q.headerFound && q.timeOk;
    var signed, txsFine := sig == Some(Sig(sender, x)), p.transactions == [] || q.txsOk;
    && (t.votes != s.votes <==> looked && signed && txsFine && q.validatorsOk && q.nextMatches && q.signs)
    && (t.votes != s.votes ==> t.votes == s.votes + {Vote(c.height, c.view, x)})
    && (looked && (!signed || !txsFine || (q.validatorsOk && !q.nextMatches)) ==>
          c.index >= 0 && t.ctx.expectedView == c.expectedView[c.index := NextView(c)])
    && (!looked || (signed && txsFine && !q.validatorsOk) ==> t == s)
  }

  /** Everything is kept, and the votes are as they should be. */
  predicate ProposalMeaning(hash: BlockHash, s: Service, sender: nat, p: Proposal, sig: Option<Sig>, q: Checks,
                            t: Service)
    requires Shaped(s.ctx)
  {
    Good(hash, s) && BlockGenerated !in s.ctx.state ==>
      Onward(hash, s, t) && ProposalVotes(hash, s, sender, p, sig, q, t)
  }

  lemma ProposalMeans(hash: BlockHash, s: Service, sender: nat, p: Proposal, sig: Option<Sig>, q: Checks, l: Ledger)
    requires Shaped(s.ctx) && LedgerOk(l) && sender < s.ctx.n
    ensures ProposalMeaning(hash, s, sender, p, sig, q, PrepareRequestReceived(hash, s, sender, p, sig, q, l))
  {
    hide Good, ProposalVotes, Onward, PrepareRequestReceived;
    if Good(hash, s) && BlockGenerated !in s.ctx.state {
      ProposalOnward(hash, s, sender, p, sig, q, l);
      ProposalVoted(hash, s, sender, p, sig, q, l);
    }
  }

  lemma ProposalOnward(hash: BlockHash, s: Service, sender: nat, p: Proposal, sig: Option<Sig>, q: Checks, l: Ledger)
    requires Shaped(s.ctx) && Good(hash, s) && LedgerOk(l) && sender < s.ctx.n && BlockGenerated !in s.ctx.state
    ensures Onward(hash, s, PrepareRequestReceived(hash, s, sender, p, sig, q, l))
  {
    hide Inv, Backed, Ahead, CheckExpectedView, RequestChangeView, ViewsOk, Roles, Accept;
    GoodShape(hash, s);
    ViewsShape(s.ctx);
    ProposalKeeps(hash, s, sender, p, sig, q, l);
    ProposalBacks(hash, s, sender, p, sig, q, l);
    if s.ctx.index >= 0 { ViewVotes(s, 0, l); }
    AcceptPlace(s.ctx, sender, p, sig, hash(Header(s.ctx.prevHash, s.ctx.height, p)), q.signs);
  }

  lemma ProposalVoted(hash: BlockHash, s: Service, sender: nat, p: Proposal, sig: Option<Sig>, q: Checks, l: Ledger)
    requires Shaped(s.ctx) && Good(hash, s) && LedgerOk(l) && sender < s.ctx.n && BlockGenerated !in s.ctx.state
    ensures ProposalVotes(hash, s, sender, p, sig, q, PrepareRequestReceived(hash, s, sender, p, sig, q, l))
  {
    hide Inv, Backed, ViewsOk, RequestEffect, RequestChangeView, NextView, Accept;
    GoodShape(hash, s);
    ProposalHas(hash, s, sender, p, sig, q, l);
    if Heard(s.ctx, sender, q) {
      AtLeastTwo(s.ctx);
      NoVoteYet(s, hash(Header(s.ctx.prevHash, s.ctx.height, p)));
      RequestMeans(hash, s, l);
    }
  }

  /** A backup is not alone. */
  lemma AtLeastTwo(c: Context)
    requires Shaped(c) && Roles(c) && Backup in c.state
    ensures c.n >= 2 && c.index >= 0
  {}

  /** A backup without a proposal has not voted in its view. */
  lemma NoVoteYet(s: Service, x: Digest)
    requires Inv(s) && Backup in s.ctx.state && RequestReceived !in s.ctx.state
    ensures Vote(s.ctx.height, s.ctx.view, x) !in s.votes
  {
    hide PrimaryOf, Behind;
    assert Current(Vote(s.ctx.height, s.ctx.view, x), s.ctx);
  }

  lemma AcceptPlace(c: Context, sender: nat, p: Proposal, sig: Option<Sig>, x: Digest, signs: bool)
    requires Shaped(c) && sender < c.n
    ensures c.index >= 0 ==>
      Accept(c, sender, p, sig, x, signs).height == c.height && Accept(c, sender, p, sig, x, signs).view == c.view
  {}

  lemma ResponseMeans(hash: BlockHash, s: Service, sender: nat, sig: Option<Sig>, submitted: bool)
    requires Good(hash, s) && sender < s.ctx.n
    ensures var t := PrepareResponseReceived(hash, s, sender, sig, submitted);
      && Quiet(hash, s, t) && t.ctx.view == s.ctx.view && t.ctx.expectedView == s.ctx.expectedView
      && (BlockGenerated in t.ctx.state && BlockGenerated !in s.ctx.state ==>
            CountSigs(t.ctx.signatures) >= M(t.ctx.n))
  {
    hide Inv, Backed, Ahead, ViewsOk, Roles, CountSigs, M;
    GoodShape(hash, s);
    ViewsShape(s.ctx);
    ResponseKeeps(hash, s, sender, sig, submitted);
    ResponseBacks(hash, s, sender, sig, submitted);
  }

  lemma RelayMeans(hash: BlockHash, s: Service, sender: nat, sigs: Relayed, submitted: bool)
    requires Good(hash, s) && sender < s.ctx.n
    ensures var t := BlockSignaturesReceived(hash, s, sender, sigs, submitted);
      && Quiet(hash, s, t) && t.ctx.view == s.ctx.view && t.ctx.expectedView == s.ctx.expectedView
      && (BlockGenerated in t.ctx.state && BlockGenerated !in s.ctx.state ==>
            CountSigs(t.ctx.signatures) >= M(t.ctx.n))
  {
    hide Inv, Backed, Ahead, ViewsOk, Roles, CountSigs, M, AddSignatures;
    GoodShape(hash, s);
    ViewsShape(s.ctx);
    RelayKeeps(hash, s, sender, sigs, submitted);
    RelayBacks(hash, s, sender, sigs, submitted);
  }

  /** A timeout keeps everything unless it resets a lone bookkeeper to a height with votes. A vote at
      a timeout is the request the primary had not sent yet. */
  predicate TimeoutMeaning(hash: BlockHash, s: Service, e: Event, t: Service)
    requires Shaped(s.ctx)
  {
    Good(hash, s) ==>
      && (Good(hash, t) <==> Tame(s, e)) && (!Resets(s, e) ==> Onward(hash, s, t))
      && (t.votes != s.votes ==>
            Primary in s.ctx.state && RequestSent !in s.ctx.state && RequestSent in t.ctx.state)
  }

  lemma TimeoutMeans(hash: BlockHash, s: Service, p: Proposal, q: Checks, l: Ledger)
    requires Shaped(s.ctx) && LedgerOk(l)
    ensures TimeoutMeaning(hash, s, Expired(p, q, l), Timeout(hash, s, p, q, l))
  {
    hide Inv, Backed, Ahead, RequestChangeView, ViewsOk, Roles, Resets, Unvoted;
    if Good(hash, s) {
      GoodShape(hash, s);
      StepExact(hash, s, Expired(p, q, l));
      StepVotes(hash, s, Expired(p, q, l));
      if !Resets(s, Expired(p, q, l)) { TimeoutKeeps(hash, s, p, q, l); }
      TimeoutBacks(hash, s, p, q, l);
      if s.ctx.index >= 0 { ViewVotes(s, 0, l); }
    }
  }

  lemma ReceiveMeans(hash: BlockHash, s: Service, e: Event)
    requires Good(hash, s) && e.Payload? && LedgerOk(e.l)
    ensures Onward(hash, s, Receive(hash, s, e))
  {
    hide Inv, Backed, Ahead, Receive, ViewsOk, Roles, VotesGrow;
    GoodShape(hash, s);
    ViewsShape(s.ctx);
    ReceiveKeeps(hash, s, e);
    ReceiveBacks(hash, s, e);
    StepVotes(hash, s, e);
    assert Step(hash, s, e) == Receive(hash, s, e);
  }

  /** A reset keeps everything if and only if no vote was cast at the new height or beyond. */
  lemma SavedMeans(hash: BlockHash, s: Service, l: Ledger)
    requires Good(hash, s) && LedgerOk(l)
    ensures Good(hash, Initialize(s, 0, l)) <==> Unvoted(s.votes, NextHeight(l))
  {
    hide Inv, Backed, Initialize, ViewsOk, Roles, Unvoted;
    GoodShape(hash, s);
    ResetKeepsExact(s, l);
    InitializeBacks(hash, s, 0, l);
  }
}
