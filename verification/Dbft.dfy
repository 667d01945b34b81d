/** consensus/dbft/dbft_service.go and consensus_context.go: the service as the code has it, a
    context changed field by field. Each handler is the transition of the model, and says what that
    keeps for a service in good standing. */
module Dbft {
  import opened Words
  import opened DbftModel
  import opened DbftSafety
  import opened DbftEdges
  import opened DbftEffects
  import opened DbftHandlers

  /** The loop of CheckExpectedView. */
  method CountViews(views: seq<Byte>, v: Byte) returns (count: nat)
    ensures count == CountEq(views, v)
  {
    count := 0;
    for i := |views| downto 0
      invariant count == CountEq(views[i..], v)
    {
      assert views[i..][1..] == views[i + 1..];
      if views[i] == v { count := count + 1; }
    }
    assert views[0..] == views;
  }

  method GetSignaturesCount(signatures: seq<Option<Sig>>) returns (count: nat)
    ensures count == CountSigs(signatures)
  {
    count := 0;
    for i := |signatures| downto 0
      invariant count == CountSigs(signatures[i..])
    {
      assert signatures[i..][1..] == signatures[i + 1..];
      if signatures[i] != None { count := count + 1; }
    }
    assert signatures[0..] == signatures;
  }

  class DbftService {
    const hash: BlockHash
    var context: Context
    var timerHeight: Uint32
    var timeView: Byte
    /** The votes broadcast so far. */
    var votes: set<Vote>
    /** Whether a handler panicked. */
    var panicked: bool

    function Now(): Service
      reads this
    {
      Service(context, timerHeight, timeView, votes, panicked)
    }

    /** Votes are for one block per view, a quorum but for this bookkeeper is behind every view, roles
        and flags fit, and a block generated by a backup has a quorum of its signatures. */
    ghost predicate Valid()
      reads this
    {
      Good(hash, Now())
    }

    constructor (hash: BlockHash, l: Ledger)
      requires LedgerOk(l)
      ensures Valid() && this.hash == hash && votes == {} && context.height == NextHeight(l) && context.view == 0
      ensures Now() == Start(l)
    {
      this.hash := hash;
      context := Context({}, EMPTY_HASH, 0, 0, 0, 0, 0, Proposal(0, 0, [], []), [], [], None);
      timerHeight, timeView, votes, panicked := 0, 0, {}, false;
      new;
      InitializeConsensus(0, l);
      StartGood(hash, l);
    }

    method ChangeView(v: Byte)
      requires context.n > 0
      modifies `context
      ensures context == DbftModel.ChangeView(old(context), v)
    {
      var p := PrimaryOf(context.height, v, context.n);
      context := context.(state := context.state * {SignatureSent});
      context := context.(view := v);
      context := context.(primaryIndex := p);
      if context.state == {} {
        context := context.(proposal := context.proposal.(transactions := []));
        context := context.(signatures := NoSigs(context.n));
        context := context.(header := None);
      }
    }

    method Reset(l: Ledger)
      requires LedgerOk(l)
      modifies `context
      ensures context == DbftModel.Reset(old(context), l)
    {
      context := context.(n := l.bookkeepers, state := {}, prevHash := l.hash, height := NextHeight(l));
      context := context.(view := 0, index := l.seat);
      context := context.(primaryIndex := context.height % context.n);
      context := context.(proposal := context.proposal.(transactions := []), header := None);
      context := context.(signatures := NoSigs(context.n), expectedView := NoViews(context.n));
    }

    method InitializeConsensus(v: Byte, l: Ledger)
      requires LedgerOk(l) && (v == 0 || context.n > 0)
      modifies this
      ensures Now() == Initialize(old(Now()), v, l)
      ensures v == 0 && old(Valid()) ==> (Valid() <==> Unvoted(old(votes), NextHeight(l)))
      ensures v == 0 ==> context.height == NextHeight(l) && context.view == 0 && votes == old(votes)
      ensures Enters(old(Now()), v, l, Now())
    {
      hide Good, Unvoted, Enters;
      InitializeEnters(Now(), v, l);
      if v == 0 && Valid() { SavedMeans(hash, Now(), l); }
      if v == 0 {
        Reset(l);
      } else {
        if BlockGenerated in context.state { return; }
        ChangeView(v);
      }
      if context.index < 0 { return; }
      if context.index == context.primaryIndex {
        context := context.(state := context.state + {Primary});
      } else {
        context := context.(state := {Backup});
      }
      timerHeight, timeView := context.height, v;
    }

    method CheckExpectedView(v: Byte, l: Ledger)
      requires LedgerOk(l) && context.n > 0
      modifies this
      ensures Now() == DbftModel.CheckExpectedView(old(Now()), v, l)
      ensures old(Valid()) ==> Quiet(hash, old(Now()), Now()) && context.expectedView == old(context.expectedView)
      ensures old(Valid()) ==> context.view == if old(Moves(context, v)) then v else old(context.view)
      ensures old(Valid()) && old(Moves(context, v)) ==> v > old(context.view)
    {
      hide Good, Quiet;
      if Valid() { CheckMeans(hash, Now(), v, l); }
      if BlockGenerated in context.state { return; }
      if context.view == v { return; }
      var count := CountViews(context.expectedView, v);
      if count >= M(context.n) {
        InitializeConsensus(v, l);
      }
    }

    method ChangeViewReceived(sender: nat, newView: Byte, l: Ledger)
      requires Shaped(context) && sender < context.n && LedgerOk(l)
      modifies this
      ensures Now() == DbftModel.ChangeViewReceived(old(Now()), sender, newView, l)
      ensures old(Valid()) ==> Quiet(hash, old(Now()), Now())
      ensures old(Valid()) ==>
        var was := old(context.expectedView[sender]);
        context.expectedView == old(context.expectedView)[sender := if newView > was then newView else was]
      ensures ViewEffect(old(Now()), sender, newView, l, Now())
    {
      hide Good, Quiet, ViewEffect;
      ViewHas(Now(), sender, newView, l);
      if Valid() { ChangeViewMeans(hash, Now(), sender, newView, l); }
      if newView <= context.expectedView[sender] { return; }
      context := context.(expectedView := context.expectedView[sender := newView]);
      CheckExpectedView(newView, l);
    }

    method RequestChangeView(l: Ledger)
      requires Shaped(context) && context.index >= 0 && LedgerOk(l)
      modifies this
      ensures Now() == DbftModel.RequestChangeView(old(Now()), l)
      ensures old(Valid()) && old(context.n >= 2 || NoWrap(context) || context.view == 0) ==>
        && Quiet(hash, old(Now()), Now())
        && (BlockGenerated !in old(context.state) ==>
              context.expectedView == old(context.expectedView)[old(context.index) := old(NextView(context))])
      ensures old(NextView(context) > context.view && NextView(context) > context.expectedView[context.index]) <==>
              old(context.view != 255 && context.expectedView[context.index] != 255)
      ensures RequestEffect(old(Now()), l, Now())
    {
      hide Good, Quiet, Moves, DbftModel.CheckExpectedView, RequestEffect;
      RequestHas(Now(), l);
      NextViewGrows(context);
      if Valid() && (context.n >= 2 || NoWrap(context) || context.view == 0) { RequestMeans(hash, Now(), l); }
      if BlockGenerated in context.state { return; }
      var mine := context.expectedView[context.index];
      if context.view > mine {
        mine := (context.view as int + 1) % 0x100;
      } else {
        mine := (mine as int + 1) % 0x100;
      }
      context := context.(expectedView := context.expectedView[context.index := mine]);
      CheckExpectedView(context.expectedView[context.index], l);
    }

    method MakeHeader() returns (header: Header)
      modifies `context
      ensures header == DbftModel.MakeHeader(old(context)) && context == old(context).(header := Some(header))
    {
      if context.header == None {
        context := context.(header := Some(Header(context.prevHash, context.height, context.proposal)));
      }
      header := context.header.value;
    }

    /** A failed check puts the saved copy of the context back. */
    method PrepareRequestReceived(sender: nat, p: Proposal, sig: Option<Sig>, q: Checks, l: Ledger)
      requires Shaped(context) && sender < context.n && LedgerOk(l)
      modifies this
      ensures Now() == DbftModel.PrepareRequestReceived(hash, old(Now()), sender, p, sig, q, l)
      ensures ProposalMeaning(hash, old(Now()), sender, p, sig, q, Now())
      ensures ProposalEffect(hash, old(Now()), sender, p, sig, q, l, Now())
    {
      hide ProposalMeaning, NextView, DbftModel.RequestChangeView, NoSigs, ProposalEffect;
      ProposalHas(hash, Now(), sender, p, sig, q, l);
      ProposalMeans(hash, Now(), sender, p, sig, q, l);
      if Backup !in context.state || RequestReceived in context.state { return; }
      if sender != context.primaryIndex { return; }
      if !q.headerFound || !q.timeOk { return; }
      var backup := context;
      context := context.(state := context.state + {RequestReceived}, proposal := p, header := None);
      var header := MakeHeader();
      var x := hash(header);
      if sig != Some(Sig(sender, x)) {
        Refuse(backup, l);
        return;
      }
      context := context.(signatures := NoSigs(context.n));
      context := context.(signatures := context.signatures[sender := sig]);
      if |context.proposal.transactions| > 0 && !q.txsOk {
        Refuse(backup, l);
        return;
      }
      if !q.validatorsOk {
        context := backup;
        return;
      }
      if !q.nextMatches {
        Refuse(backup, l);
        return;
      }
      assert context.state + {SignatureSent} == backup.state + {RequestReceived, SignatureSent};
      SendSignature(x, q.signs);
    }

    /** A proposal that fails its checks: the context as it was before, and a view request. */
    method Refuse(backup: Context, l: Ledger)
      requires Shaped(backup) && backup.index >= 0 && LedgerOk(l)
      modifies this
      ensures Now() == DbftModel.RequestChangeView(old(Now()).(ctx := backup), l)
    {
      context := backup;
      RequestChangeView(l);
    }

    /** The own signature on an accepted proposal, unless signing fails. */
    method SendSignature(x: Digest, signs: bool)
      requires 0 <= context.index < |context.signatures|
      modifies `context, `votes
      ensures var c := old(context).(state := old(context.state) + {SignatureSent});
        context == if !signs then c
                   else c.(signatures := c.signatures[c.index := Some(Sig(c.index, x))])
      ensures votes == if signs then old(votes) + {Vote(old(context.height), old(context.view), x)} else old(votes)
    {
      context := context.(state := context.state + {SignatureSent});
      if !signs { return; }
      context := context.(signatures := context.signatures[context.index := Some(Sig(context.index, x))]);
      votes := votes + {Vote(context.height, context.view, x)};
    }

    method CheckSignatures(submitted: bool)
      requires context.n > 0
      modifies `context
      ensures context == DbftModel.CheckSignatures(old(context), submitted)
    {
      var count := GetSignaturesCount(context.signatures);
      if count >= M(context.n) && submitted {
        context := context.(state := context.state + {BlockGenerated});
      }
    }

    method PrepareResponseReceived(sender: nat, sig: Option<Sig>, submitted: bool)
      requires Shaped(context) && sender < context.n
      modifies `context
      ensures Now() == DbftModel.PrepareResponseReceived(hash, old(Now()), sender, sig, submitted)
      ensures old(Valid()) ==> Quiet(hash, old(Now()), Now()) && context.view == old(context.view)
      ensures old(Valid()) ==> context.expectedView == old(context.expectedView)
      ensures old(Valid()) && BlockGenerated in context.state && BlockGenerated !in old(context.state) ==>
        CountSigs(context.signatures) >= M(context.n)
      ensures ResponseEffect(hash, old(Now()), sender, sig, submitted, Now())
    {
      hide Good, Quiet, ResponseEffect;
      ResponseHas(hash, Now(), sender, sig, submitted);
      if Valid() { ResponseMeans(hash, Now(), sender, sig, submitted); }
      if BlockGenerated in context.state { return; }
      if context.signatures[sender] != None { return; }
      var header := MakeHeader();
      if sig != Some(Sig(sender, hash(header))) { return; }
      context := context.(signatures := context.signatures[sender := sig]);
      CheckSignatures(submitted);
    }

    /** A relayed index out of range panics, with the signatures before it added. */
    method BlockSignaturesReceived(sender: nat, sigs: Relayed, submitted: bool)
      requires Shaped(context) && sender < context.n
      modifies `context, `panicked
      ensures Now() == DbftModel.BlockSignaturesReceived(hash, old(Now()), sender, sigs, submitted)
      ensures old(Valid()) ==> Quiet(hash, old(Now()), Now()) && context.view == old(context.view)
      ensures old(Valid()) ==> context.expectedView == old(context.expectedView)
      ensures old(Valid()) && BlockGenerated in context.state && BlockGenerated !in old(context.state) ==>
        CountSigs(context.signatures) >= M(context.n)
      ensures RelayEffect(hash, old(Now()), sender, sigs, submitted, Now())
    {
      hide Good, Quiet, RelayEffect;
      RelayHas(hash, Now(), sender, sigs, submitted);
      if Valid() { RelayMeans(hash, Now(), sender, sigs, submitted); }
      if BlockGenerated in context.state { return; }
      if context.signatures[sender] != None { return; }
      var header := MakeHeader();
      var x := hash(header);
      ghost var c, rest := context, sigs;
      for i := 0 to |sigs|
        invariant rest == sigs[i..] && |context.signatures| == context.n == c.n
        invariant context.header == Some(header) && panicked == old(panicked)
        invariant AddSignatures(hash, context, rest) == AddSignatures(hash, c, sigs)
      {
        var (at, sig) := sigs[i];
        rest := rest[1..];
        if at >= context.n {
          panicked := true;
          return;
        }
        if context.signatures[at] != None { continue; }
        if sig != Some(Sig(at, x)) { continue; }
        context := context.(signatures := context.signatures[at := sig]);
        var count := GetSignaturesCount(context.signatures);
        if count >= M(context.n) {
          rest := [];
          break;
        }
      }
      assert rest == [];
      CheckSignatures(submitted);
    }

    method Timeout(p: Proposal, q: Checks, l: Ledger)
      requires Shaped(context) && LedgerOk(l)
      modifies this
      ensures Now() == DbftModel.Timeout(hash, old(Now()), p, q, l)
      ensures TimeoutMeaning(hash, old(Now()), Expired(p, q, l), Now())
      ensures TimeoutEffect(hash, old(Now()), p, q, l, Now())
    {
      hide TimeoutMeaning, NextView, TimeoutEffect, DbftModel.RequestChangeView;
      TimeoutHas(hash, Now(), p, q, l);
      TimeoutMeans(hash, Now(), p, q, l);
      if timerHeight != context.height || timeView != context.view { return; }
      if Primary in context.state && RequestSent !in context.state {
        context := context.(state := context.state + {RequestSent});
        if SignatureSent !in context.state {
          if !q.headerFound { return; }
          context := context.(proposal := p);
          if !q.validatorsOk { return; }
          context := context.(header := None);
          var header := MakeHeader();
          var sig := if q.signs then Some(Sig(context.index, hash(header))) else None;
          context := context.(signatures := context.signatures[context.index := sig]);
        }
        var mine := context.signatures[context.index];
        if mine.Some? {
          votes := votes + {Vote(context.height, context.view, mine.value.hash)};
        }
      } else if (Primary in context.state && RequestSent in context.state) || Backup in context.state {
        RequestChangeView(l);
      }
    }

    /** NewConsensusPayload. */
    method Receive(e: Event)
      requires e.Payload? && Shaped(context) && LedgerOk(e.l)
      modifies this
      ensures Now() == DbftModel.Receive(hash, old(Now()), e)
      ensures old(Valid()) ==> Onward(hash, old(Now()), Now())
      ensures PayloadEffect(hash, old(Now()), e, Now())
    {
      hide Good, Onward, PayloadEffect, ViewEffect, ProposalEffect, ResponseEffect, RelayEffect;
      PayloadHas(hash, Now(), e);
      if Valid() { ReceiveMeans(hash, Now(), e); }
      if e.sender == context.index { return; }
      if e.prevHash != context.prevHash || e.height != context.height { return; }
      if BlockGenerated in context.state { return; }
      if e.sender >= context.n { return; }
      if e.view != context.view && !e.msg.ChangeViewMsg? { return; }
      match e.msg
      case ChangeViewMsg(v) => ChangeViewReceived(e.sender, v, e.l);
      case PrepareRequestMsg(p, sig, q) => PrepareRequestReceived(e.sender, p, sig, q, e.l);
      case PrepareResponseMsg(sig, ok) => PrepareResponseReceived(e.sender, sig, ok);
      case BlockSignaturesMsg(sigs, ok) => BlockSignaturesReceived(e.sender, sigs, ok);
    }

    /** The actor's mailbox: one block hash per height and view whatever arrives, exactly as long as
        no reset leads to a height with votes. */
    method Handle(e: Event)
      requires Shaped(context) && LedgerOk(e.l)
      modifies this
      ensures Now() == Step(hash, old(Now()), e)
      ensures old(votes) <= votes
      ensures old(Valid()) ==> (Valid() <==> old(Tame(Now(), e)))
      ensures old(Valid() && Tame(Now(), e)) ==> OneHash(votes)
      ensures old(Valid() && Tame(Now(), e) && Rising(Now(), e)) ==> Ahead(old(context), context)
      ensures old(Quorate(context) && Below(Now(), e)) ==>
        context.n > 0 && Quorate(context) && (old(Rising(Now(), e)) ==> Rises(old(context), context))
      ensures Effect(hash, old(Now()), e, Now())
    {
      hide Backed, ViewsOk, Roles, VotesGrow, Ahead, Tame, Rising, Below, Quorate, Rises, Effect;
      hide PayloadEffect, TimeoutEffect, Enters;
      StepHas(hash, Now(), e);
      StepVotes(hash, Now(), e);
      VotesKept(Now(), Step(hash, Now(), e));
      if Valid() {
        StepExact(hash, Now(), e);
        StepBacks(hash, Now(), e);
        if Tame(Now(), e) { StepKeeps(hash, Now(), e); }
      }
      if Quorate(context) && Below(Now(), e) { StepRises(hash, Now(), e); }
      match e
      case Payload(_, _, _, _, _, _) => Receive(e);
      case Expired(p, q, l) => Timeout(p, q, l);
      case BlockSaved(l) => InitializeConsensus(0, l);
    }
  }
}
