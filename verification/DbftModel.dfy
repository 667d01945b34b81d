/** consensus/dbft: one bookkeeper's context and how each event changes it, as functions of the
    context, the event and what the outside (ledger, pool, clock) answers. */
module DbftModel {
  import opened Words

  // ---------------------------------------------------------------- the context

  /** ConsensusState's bits; the empty set is Initial. */
  datatype Flag = Primary | Backup | RequestSent | RequestReceived | SignatureSent | BlockGenerated

  /** A signature checks out exactly for its signer and the hash it was made for. */
  datatype Sig = Sig(signer: nat, hash: Digest)

  datatype Proposal = Proposal(timestamp: nat, nonce: nat, nextBookkeeper: Bytes, transactions: seq<Bytes>)
  datatype Header = Header(prevHash: Digest, height: nat, proposal: Proposal)

  type BlockHash = Header -> Digest

  datatype Context = Context(
    state: set<Flag>,
    prevHash: Digest,
    height: Uint32,
    view: Byte,
    n: nat,
    index: int,
    primaryIndex: nat,
    proposal: Proposal,
    signatures: seq<Option<Sig>>,
    expectedView: seq<Byte>,
    header: Option<Header>)

  /** A bookkeeper's own signature sent out in a request or response of some view. */
  datatype Vote = Vote(height: Uint32, view: Byte, hash: Digest)

  /** The context, the height and view the timer was set in, the votes sent so far, and whether a
      handler ever panicked. A panic abandons its event; the actor is restarted on the same object
      and goes on with what the handler had changed. */
  datatype Service = Service(ctx: Context, timerHeight: Uint32, timeView: Byte, votes: set<Vote>, panicked: bool)

  /** The quorum of n bookkeepers. */
  function M(n: nat): int
    requires n > 0
  {
    n - (n - 1) / 3
  }

  /** The primary of a view; the subtraction is on 32-bit words. */
  function PrimaryOf(height: Uint32, view: Byte, n: nat): (p: nat)
    requires n > 0
    ensures p < n
  {
    (if height >= view then height - view else height - view + TWO_32) % n
  }

  function CountEq(s: seq<Byte>, v: Byte): nat {
    if s == [] then 0 else (if s[0] == v then 1 else 0) + CountEq(s[1..], v)
  }

  function CountSigs(s: seq<Option<Sig>>): nat {
    if s == [] then 0 else (if s[0].Some? then 1 else 0) + CountSigs(s[1..])
  }

  function NoSigs(n: nat): (r: seq<Option<Sig>>)
    ensures |r| == n
  {
    seq(n, _ => None)
  }

  function NoViews(n: nat): (r: seq<Byte>)
    ensures |r| == n && forall i :: 0 <= i < n ==> r[i] == 0
  {
    seq(n, _ => 0)
  }

  // ---------------------------------------------------------------- views

  /** ChangeView: only the SignatureSent bit survives, and without it the round starts afresh. */
  function ChangeView(c: Context, v: Byte): Context
    requires c.n > 0
  {
    var d := c.(state := c.state * {SignatureSent}, view := v, primaryIndex := PrimaryOf(c.height, v, c.n));
    if d.state == {} then
      d.(proposal := d.proposal.(transactions := []), signatures := NoSigs(c.n), header := None)
    else d
  }

  /** What the ledger reports: the last block's height and hash, how many bookkeepers there are
      now and which of them this node is (-1 for none). */
  datatype Ledger = Ledger(height: Uint32, hash: Digest, bookkeepers: nat, seat: int)

  predicate LedgerOk(l: Ledger) {
    -1 <= l.seat < l.bookkeepers && l.bookkeepers > 0
  }

  function NextHeight(l: Ledger): Uint32 {
    (l.height as int + 1) % TWO_32
  }

  function Reset(c: Context, l: Ledger): Context
    requires LedgerOk(l)
  {
    c.(state := {}, prevHash := l.hash, height := NextHeight(l), view := 0,
       n := l.bookkeepers, index := l.seat, primaryIndex := NextHeight(l) % l.bookkeepers,
       proposal := c.proposal.(transactions := []), header := None,
       signatures := NoSigs(l.bookkeepers), expectedView := NoViews(l.bookkeepers))
  }

  function Initialize(s: Service, v: Byte, l: Ledger): Service
    requires LedgerOk(l) && (v == 0 || s.ctx.n > 0)
  {
    if v != 0 && BlockGenerated in s.ctx.state then s
    else
      var c := if v == 0 then Reset(s.ctx, l) else ChangeView(s.ctx, v);
      if c.index < 0 then s.(ctx := c)
      else
        var d := if c.index == c.primaryIndex then c.(state := c.state + {Primary}) else c.(state := {Backup});
        s.(ctx := d, timerHeight := c.height, timeView := v)
  }

  function CheckExpectedView(s: Service, v: Byte, l: Ledger): Service
    requires s.ctx.n > 0 && LedgerOk(l)
  {
    if BlockGenerated in s.ctx.state || s.ctx.view == v then s
    else if CountEq(s.ctx.expectedView, v) >= M(s.ctx.n) then Initialize(s, v, l)
    else s
  }

  /** Only bookkeepers have a role. */
  predicate Shaped(c: Context) {
    && c.n > 0 && -1 <= c.index < c.n && c.primaryIndex < c.n
    && |c.signatures| == c.n && |c.expectedView| == c.n
    && (Primary in c.state || Backup in c.state ==> c.index >= 0)
  }

  function ChangeViewReceived(s: Service, sender: nat, newView: Byte, l: Ledger): Service
    requires Shaped(s.ctx) && sender < s.ctx.n && LedgerOk(l)
  {
    if newView <= s.ctx.expectedView[sender] then s
    else CheckExpectedView(s.(ctx := s.ctx.(expectedView := s.ctx.expectedView[sender := newView])), newView, l)
  }

  /** The bytes wrap around at 255. */
  function NextView(c: Context): Byte
    requires Shaped(c) && c.index >= 0
  {
    var mine := c.expectedView[c.index];
    if c.view > mine then (c.view as int + 1) % 0x100 else (mine as int + 1) % 0x100
  }

  function RequestChangeView(s: Service, l: Ledger): Service
    requires Shaped(s.ctx) && s.ctx.index >= 0 && LedgerOk(l)
  {
    if BlockGenerated in s.ctx.state then s
    else
      var e := NextView(s.ctx);
      CheckExpectedView(s.(ctx := s.ctx.(expectedView := s.ctx.expectedView[s.ctx.index := e])), e, l)
  }

  // ---------------------------------------------------------------- proposals and signatures

  /** What the outside answers while a proposal is made or examined. */
  datatype Checks = Checks(headerFound: bool, timeOk: bool, txsOk: bool, validatorsOk: bool, nextMatches: bool,
                           signs: bool)

  function MakeHeader(c: Context): Header {
    if c.header.Some? then c.header.value else Header(c.prevHash, c.height, c.proposal)
  }

  /** What becomes of a proposal: nothing, a request for another view, or a signature. */
  datatype Verdict = Ignored | Refused | Accepted

  function Examine(c: Context, sender: nat, p: Proposal, sig: Option<Sig>, x: Digest, q: Checks): Verdict {
    if Backup !in c.state || RequestReceived in c.state || sender != c.primaryIndex then Ignored
    else if !q.headerFound || !q.timeOk then Ignored
    else if sig != Some(Sig(sender, x)) then Refused
    else if |p.transactions| > 0 && !q.txsOk then Refused
    else if !q.validatorsOk then Ignored
    else if !q.nextMatches then Refused
    else Accepted
  }

  /** The context after a proposal is accepted; the own signature is missing if making it failed. */
  function Accept(c: Context, sender: nat, p: Proposal, sig: Option<Sig>, x: Digest, signs: bool): Context
    requires Shaped(c) && c.index >= 0 && sender < c.n
  {
    var sigs := NoSigs(c.n)[sender := sig];
    c.(state := c.state + {RequestReceived, SignatureSent}, proposal := p,
       header := Some(Header(c.prevHash, c.height, p)),
       signatures := if signs then sigs[c.index := Some(Sig(c.index, x))] else sigs)
  }

  /** A context that failed the examination is put back as it was. */
  function PrepareRequestReceived(hash: BlockHash, s: Service, sender: nat, p: Proposal, sig: Option<Sig>, q: Checks,
                                  l: Ledger): Service
    requires Shaped(s.ctx) && sender < s.ctx.n && LedgerOk(l)
  {
    var c := s.ctx;
    var x := hash(Header(c.prevHash, c.height, p));
    match Examine(c, sender, p, sig, x, q)
    case Ignored => s
    case Refused => RequestChangeView(s, l)
    case Accepted =>
      s.(ctx := Accept(c, sender, p, sig, x, q.signs),
         votes := if q.signs then s.votes + {Vote(c.height, c.view, x)} else s.votes)
  }

  function CheckSignatures(c: Context, submitted: bool): Context
    requires c.n > 0
  {
    if CountSigs(c.signatures) >= M(c.n) && submitted then c.(state := c.state + {BlockGenerated}) else c
  }

  function PrepareResponseReceived(hash: BlockHash, s: Service, sender: nat, sig: Option<Sig>, submitted: bool): Service
    requires Shaped(s.ctx) && sender < s.ctx.n
  {
    var c := s.ctx;
    if BlockGenerated in c.state || c.signatures[sender].Some? then s
    else
      var d := c.(header := Some(MakeHeader(c)));
      if sig != Some(Sig(sender, hash(MakeHeader(c)))) then s.(ctx := d)
      else s.(ctx := CheckSignatures(d.(signatures := d.signatures[sender := sig]), submitted))
  }

  type Relayed = seq<(nat, Option<Sig>)>

  /** Relayed signatures are added until there are enough; an index out of range panics. */
  function AddSignatures(hash: BlockHash, c: Context, sigs: Relayed): (r: (Context, bool))
    requires |c.signatures| == c.n > 0
    ensures r.0 == c.(signatures := r.0.signatures) && |r.0.signatures| == c.n
    decreases |sigs|
  {
    if sigs == [] then (c, false)
    else
      var (i, sig) := sigs[0];
      if i >= c.n then (c, true)
      else if c.signatures[i].Some? || sig != Some(Sig(i, hash(MakeHeader(c)))) then AddSignatures(hash, c, sigs[1..])
      else
        var d := c.(signatures := c.signatures[i := sig]);
        if CountSigs(d.signatures) >= M(c.n) then (d, false) else AddSignatures(hash, d, sigs[1..])
  }

  function BlockSignaturesReceived(hash: BlockHash, s: Service, sender: nat, sigs: Relayed, submitted: bool): Service
    requires Shaped(s.ctx) && sender < s.ctx.n
  {
    var c := s.ctx;
    if BlockGenerated in c.state || c.signatures[sender].Some? then s
    else
      var (d, panics) := AddSignatures(hash, c.(header := Some(MakeHeader(c))), sigs);
      if panics then s.(ctx := d, panicked := true) else s.(ctx := CheckSignatures(d, submitted))
  }

  /** The primary's context when its request goes out. */
  function Propose(hash: BlockHash, c: Context, p: Proposal, signs: bool): Context
    requires Shaped(c) && c.index >= 0
  {
    var header := Header(c.prevHash, c.height, p);
    c.(state := c.state + {RequestSent}, proposal := p, header := Some(header),
       signatures := c.signatures[c.index := if signs then Some(Sig(c.index, hash(header))) else None])
  }

  /** The request goes out with the signature on file, which is an earlier view's when the
      SignatureSent bit survived the view change. */
  function SendRequest(s: Service): Service
    requires Shaped(s.ctx) && s.ctx.index >= 0
  {
    var mine := s.ctx.signatures[s.ctx.index];
    if mine.Some? then s.(votes := s.votes + {Vote(s.ctx.height, s.ctx.view, mine.value.hash)}) else s
  }

  function RequestOut(hash: BlockHash, s: Service, p: Proposal, q: Checks): Service
    requires Shaped(s.ctx) && s.ctx.index >= 0
  {
    var c := s.ctx;
    var d := c.(state := c.state + {RequestSent});
    if SignatureSent in c.state then SendRequest(s.(ctx := d))
    else if !q.headerFound then s.(ctx := d)
    else if !q.validatorsOk then s.(ctx := d.(proposal := p))
    else SendRequest(s.(ctx := Propose(hash, c, p, q.signs)))
  }

  function Timeout(hash: BlockHash, s: Service, p: Proposal, q: Checks, l: Ledger): Service
    requires Shaped(s.ctx) && LedgerOk(l)
  {
    var c := s.ctx;
    if s.timerHeight != c.height || s.timeView != c.view then s
    else if Primary in c.state && RequestSent !in c.state then RequestOut(hash, s, p, q)
    else if Primary in c.state || Backup in c.state then RequestChangeView(s, l)
    else s
  }

  // ---------------------------------------------------------------- events

  datatype Message =
    | ChangeViewMsg(newView: Byte)
    | PrepareRequestMsg(proposal: Proposal, sig: Option<Sig>, checks: Checks)
    | PrepareResponseMsg(sig: Option<Sig>, submitted: bool)
    | BlockSignaturesMsg(sigs: Relayed, submitted: bool)

  /** Payloads come from anyone and say anything; l is the ledger at the time. */
  datatype Event =
    | Payload(sender: nat, prevHash: Digest, height: Uint32, view: Byte, msg: Message, l: Ledger)
    | Expired(proposal: Proposal, checks: Checks, l: Ledger)
    | BlockSaved(l: Ledger)

  /** NewConsensusPayload: payloads of oneself, of another height, of no bookkeeper, or of another
      view unless they ask to change it, are dropped. */
  function Receive(hash: BlockHash, s: Service, e: Event): Service
    requires e.Payload? && Shaped(s.ctx) && LedgerOk(e.l)
  {
    var c := s.ctx;
    if e.sender == c.index || e.prevHash != c.prevHash || e.height != c.height then s
    else if BlockGenerated in c.state || e.sender >= c.n then s
    else if e.view != c.view && !e.msg.ChangeViewMsg? then s
    else match e.msg
      case ChangeViewMsg(v) => ChangeViewReceived(s, e.sender, v, e.l)
      case PrepareRequestMsg(p, sig, q) => PrepareRequestReceived(hash, s, e.sender, p, sig, q, e.l)
      case PrepareResponseMsg(sig, ok) => PrepareResponseReceived(hash, s, e.sender, sig, ok)
      case BlockSignaturesMsg(sigs, ok) => BlockSignaturesReceived(hash, s, e.sender, sigs, ok)
  }

  function Step(hash: BlockHash, s: Service, e: Event): Service
    requires Shaped(s.ctx) && LedgerOk(e.l)
  {
    match e
    case Payload(_, _, _, _, _, _) => Receive(hash, s, e)
    case Expired(p, q, l) => Timeout(hash, s, p, q, l)
    case BlockSaved(l) => Initialize(s, 0, l)
  }

  /** A new service, started on a ledger; the first Reset replaces the empty context. */
  function Start(l: Ledger): Service
    requires LedgerOk(l)
  {
    var c := Context({}, EMPTY_HASH, 0, 0, 0, 0, 0, Proposal(0, 0, [], []), [], [], None);
    Initialize(Service(c, 0, 0, {}, false), 0, l)
  }
}
