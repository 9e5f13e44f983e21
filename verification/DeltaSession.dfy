/** Full and delta requests on one document, over every run of the server and its client. */
module DeltaSession {
  import opened Lsp
  import opened SemanticTokens
  import opened TokenDelta
  import opened DocumentStore

  /** A semantic-tokens response; the result id is the parse version of the snapshot it describes. */
  datatype Reply =
    | NullReply
    | FullReply(resultId: nat, data: seq<uint32>)
    | DeltaReply(resultId: nat, edits: seq<Edit>)

  function BaseFor(prevId: Option<nat>, snap: DocSnapshot, prev: Option<DocSnapshot>): Option<DocSnapshot> {
    if prevId.None? then None
    else if prevId.value == snap.version then Some(snap)
    else if prev.Some? && prevId.value == prev.value.version then prev
    else None
  }

  /** The replies the delta handler may give. */
  ghost predicate Answers(prevId: Option<nat>, snap: Option<DocSnapshot>, prev: Option<DocSnapshot>, r: Reply) {
    match snap
    case None => r == NullReply
    case Some(s) =>
      match BaseFor(prevId, s, prev)
      case None => r == FullReply(s.version, Tokens(s))
      case Some(base) =>
        && r.DeltaReply? && r.resultId == s.version
        && Applicable(r.edits, |Tokens(base)|) && ApplyEdits(Tokens(base), r.edits) == Tokens(s)
  }

  method DocsnapSemTokens(d: DocSnapshot) returns (data: seq<uint32>)
    ensures data == Tokens(d)
  {
    data := ComputeSemanticTokensData(d.spans, NumSemEntries(d.spans));
  }

  method HandleSemanticTokensFull(snap: Option<DocSnapshot>) returns (r: Reply)
    ensures Answers(None, snap, None, r)
  {
    if snap.None? { return NullReply; }
    var data := DocsnapSemTokens(snap.value);
    r := FullReply(snap.value.version, data);
  }

  method HandleSemanticTokensFullDelta(prevId: Option<nat>, snap: Option<DocSnapshot>, prev: Option<DocSnapshot>)
    returns (r: Reply)
    ensures Answers(prevId, snap, prev, r)
  {
    if snap.None? { return NullReply; }
    var s := snap.value;
    var newBuf := DocsnapSemTokens(s);
    var base: Option<DocSnapshot> := None;
    if prevId.Some? {
      if prevId.value == s.version {
        base := snap;
      } else if prev.Some? && prevId.value == prev.value.version {
        base := prev;
      }
    }
    if base.Some? {
      var oldBuf := DocsnapSemTokens(base.value);
      TokensAreTuples(s);
      TokensAreTuples(base.value);
      var edits := BuildSemanticTokensDelta(oldBuf, newBuf);
      r := DeltaReply(s.version, edits);
    } else {
      r := FullReply(s.version, newBuf);
    }
  }

  /** A buffer the client holds under a result id, and the slot lifetime that id was issued in. */
  datatype Held = Held(lifetime: nat, data: seq<uint32>)

  /** A request with what the coordinator pinned for it and the buffer the client will apply a delta to. */
  datatype Query = Query(prevId: Option<nat>, base: Option<Held>, lifetime: nat,
                         snap: Option<DocSnapshot>, prev: Option<DocSnapshot>)

  datatype Session = Session(
    slot: Slot,
    lifetime: nat,                        // how often the slot has been allocated
    published: Option<DocSnapshot>,       // the document in the published workspace snapshot
    issued: map<(nat, nat), DocSnapshot>, // every parse so far, by lifetime and version
    queries: seq<Query>,
    held: map<nat, Held>)

  const START := Session(UNUSED, 0, None, map[], [], map[])

  datatype SlotOp = DoAlloc | DoFree | DoClear | DoInstall(po: Option<ParsedSpans>)

  function ApplyOp(s: Session, op: SlotOp): Session {
    match op
    case DoAlloc => if s.slot.inUse then s else s.(slot := Alloc(s.slot), lifetime := s.lifetime + 1)
    case DoFree => s.(slot := UNUSED)
    case DoClear => s.(slot := Clear(s.slot))
    case DoInstall(po) =>
      if !s.slot.inUse then s
      else
        var slot := Install(s.slot, po);
        s.(slot := slot,
           issued := if po.Some? then s.issued[(s.lifetime, s.slot.docVersion) := slot.snap.value] else s.issued)
  }

  function ApplyOps(s: Session, ops: seq<SlotOp>): Session {
    if ops == [] then s else ApplyOp(ApplyOps(s, ops[..|ops| - 1]), ops[|ops| - 1])
  }

  datatype Step =
    | Notify(ops: seq<SlotOp>)          // any notification: slot changes, then a publish
    | Ask(prevId: Option<nat>)          // a full (None) or delta request reaches the coordinator
    | Answer(i: nat, reply: Reply)      // a worker answers query i, in any order

  /** What the client makes of a reply: a full one replaces, a delta patches the named buffer. */
  ghost function Receive(held: map<nat, Held>, q: Query, r: Reply): map<nat, Held> {
    match r
    case NullReply => held
    case FullReply(id, data) => held[id := Held(q.lifetime, data)]
    case DeltaReply(id, edits) =>
      if q.base.Some? && Applicable(edits, |q.base.value.data|)
      then held[id := Held(q.lifetime, ApplyEdits(q.base.value.data, edits))]
      else held
  }

  ghost predicate Enabled(s: Session, step: Step) {
    match step
    case Notify(ops) => true
    case Ask(prevId) => prevId.Some? ==> prevId.value in s.held
    case Answer(i, r) => i < |s.queries| && Answers(s.queries[i].prevId, s.queries[i].snap, s.queries[i].prev, r)
  }

  ghost function Next(s: Session, step: Step): Session
    requires Enabled(s, step)
  {
    match step
    case Notify(ops) => var t := ApplyOps(s, ops); t.(published := t.slot.snap)
    case Ask(prevId) =>
      var base := if prevId.Some? then Some(s.held[prevId.value]) else None;
      s.(queries := s.queries + [Query(prevId, base, s.lifetime, s.published, s.slot.prev)])
    case Answer(i, r) =>
      s.(queries := s.queries[..i] + s.queries[i + 1..], held := Receive(s.held, s.queries[i], r))
  }

  ghost predicate Run(s: Session, steps: seq<Step>, t: Session)
    decreases |steps|
  {
    if steps == [] then s == t
    else Enabled(s, steps[0]) && Run(Next(s, steps[0]), steps[1..], t)
  }

  /** A result id still means what the server thinks: it was issued since the slot was last
      allocated, or the server will not find it and answers in full. */
  predicate IdIsCurrent(s: Session, prevId: nat)
    requires prevId in s.held
  {
    || s.held[prevId].lifetime == s.lifetime
    || s.published.None?
    || BaseFor(Some(prevId), s.published.value, s.slot.prev).None?
  }

  ghost predicate AsksCurrent(s: Session, steps: seq<Step>)
    decreases |steps|
  {
    steps != [] && Enabled(s, steps[0]) ==>
      && (steps[0].Ask? && steps[0].prevId.Some? ==> IdIsCurrent(s, steps[0].prevId.value))
      && AsksCurrent(Next(s, steps[0]), steps[1..])
  }

  // ---- the invariant ---------------------------------------------------------------------------

  predicate Issued(s: Session, lifetime: nat, d: DocSnapshot) {
    (lifetime, d.version) in s.issued && s.issued[(lifetime, d.version)] == d
  }

  ghost predicate HeldRight(s: Session, id: nat, h: Held) {
    (h.lifetime, id) in s.issued && h.data == Tokens(s.issued[(h.lifetime, id)])
  }

  ghost predicate QueryRight(s: Session, q: Query) {
    && (q.snap.Some? ==> Issued(s, q.lifetime, q.snap.value))
    && (q.prev.Some? ==> Issued(s, q.lifetime, q.prev.value))
    && (q.base.Some? <==> q.prevId.Some?)
    && (q.base.Some? ==> HeldRight(s, q.prevId.value, q.base.value))
    && (q.base.Some? && q.snap.Some? && BaseFor(q.prevId, q.snap.value, q.prev).Some? ==> q.base.value.lifetime == q.lifetime)
  }

  ghost predicate SlotRight(s: Session) {
    && (s.slot.snap.Some? ==> Issued(s, s.lifetime, s.slot.snap.value))
    && (s.slot.prev.Some? ==> Issued(s, s.lifetime, s.slot.prev.value))
    && (!s.slot.inUse ==> s.slot == UNUSED)
    && (forall k :: k in s.issued ==> k.0 <= s.lifetime && s.issued[k].version == k.1)
    && (forall k :: k in s.issued && s.slot.inUse && k.0 == s.lifetime ==> k.1 < s.slot.docVersion)
  }

  ghost predicate Inv(s: Session) {
    && SlotRight(s)
    && (s.published.Some? ==> Issued(s, s.lifetime, s.published.value))
    && (forall q :: q in s.queries ==> QueryRight(s, q))
    && (forall id :: id in s.held ==> HeldRight(s, id, s.held[id]))
  }

  /** t has every parse s had, under the same lifetime and version. */
  ghost predicate Extends(s: Session, t: Session) {
    forall k :: k in s.issued ==> k in t.issued && t.issued[k] == s.issued[k]
  }

  lemma OpKeepsSlotRight(s: Session, op: SlotOp)
    requires SlotRight(s)
    ensures SlotRight(ApplyOp(s, op)) && Extends(s, ApplyOp(s, op))
    ensures ApplyOp(s, op).queries == s.queries && ApplyOp(s, op).held == s.held
  {
  }

  lemma {:induction false} OpsKeepSlotRight(s: Session, ops: seq<SlotOp>)
    requires SlotRight(s)
    ensures SlotRight(ApplyOps(s, ops)) && Extends(s, ApplyOps(s, ops))
    ensures ApplyOps(s, ops).queries == s.queries && ApplyOps(s, ops).held == s.held
  {
    if ops != [] {
      OpsKeepSlotRight(s, ops[..|ops| - 1]);
      OpKeepsSlotRight(ApplyOps(s, ops[..|ops| - 1]), ops[|ops| - 1]);
    }
  }

  lemma NotifyKeepsInv(s: Session, ops: seq<SlotOp>)
    requires Inv(s)
    ensures Inv(Next(s, Notify(ops)))
  {
    OpsKeepSlotRight(s, ops);
    var t := Next(s, Notify(ops));
    forall q | q in t.queries ensures QueryRight(t, q) { assert QueryRight(s, q); }
    forall id | id in t.held ensures HeldRight(t, id, t.held[id]) { assert HeldRight(s, id, s.held[id]); }
  }

  lemma AskKeepsInv(s: Session, prevId: Option<nat>)
    requires Inv(s) && Enabled(s, Ask(prevId)) && (prevId.Some? ==> IdIsCurrent(s, prevId.value))
    ensures Inv(Next(s, Ask(prevId)))
  {
    var t := Next(s, Ask(prevId));
    forall q | q in t.queries ensures QueryRight(t, q) {
      if q in s.queries { assert QueryRight(s, q); }
    }
    forall id | id in t.held ensures HeldRight(t, id, t.held[id]) { assert HeldRight(s, id, s.held[id]); }
  }

  /** Whatever reply a worker gives, the client ends up with the tokens of the pinned snapshot. */
  lemma AnswerIsRight(s: Session, q: Query, r: Reply)
    requires QueryRight(s, q) && Answers(q.prevId, q.snap, q.prev, r)
    ensures q.snap.None? ==> Receive(s.held, q, r) == s.held
    ensures q.snap.Some? ==>
              Receive(s.held, q, r) == s.held[q.snap.value.version := Held(q.lifetime, Tokens(q.snap.value))]
  {
    hide Tokens, ApplyEdits, Applicable;
    if q.snap.Some? && BaseFor(q.prevId, q.snap.value, q.prev).Some? {
      var base := BaseFor(q.prevId, q.snap.value, q.prev).value;
      assert Issued(s, q.lifetime, base) && base.version == q.prevId.value;
      assert q.base.value.data == Tokens(base);
    }
  }

  lemma AnswerKeepsInv(s: Session, i: nat, r: Reply)
    requires Inv(s) && Enabled(s, Answer(i, r))
    ensures Inv(Next(s, Answer(i, r)))
    ensures var q := s.queries[i]; var t := Next(s, Answer(i, r));
            q.snap.Some? ==> q.snap.value.version in t.held && t.held[q.snap.value.version].data == Tokens(q.snap.value)
  {
    hide Tokens, Answers, Receive;
    var q := s.queries[i];
    assert QueryRight(s, q);
    AnswerIsRight(s, q, r);
    var t := Next(s, Answer(i, r));
    forall p | p in t.queries ensures QueryRight(t, p) {
      assert p in s.queries;
      assert QueryRight(s, p);
    }
    forall id | id in t.held ensures HeldRight(t, id, t.held[id]) {
      if id in s.held { assert HeldRight(s, id, s.held[id]); }
    }
  }

  /** In every run whose delta requests name current ids, every buffer the client holds is the
      token data of the parse its result id names. */
  lemma {:induction false} SessionStaysRight(s: Session, steps: seq<Step>, t: Session)
    requires Inv(s) && Run(s, steps, t) && AsksCurrent(s, steps)
    ensures Inv(t)
    decreases |steps|
  {
    if steps != [] {
      match steps[0] {
        case Notify(ops) => NotifyKeepsInv(s, ops);
        case Ask(prevId) => AskKeepsInv(s, prevId);
        case Answer(i, r) => AnswerKeepsInv(s, i, r);
      }
      hide Inv, Enabled, Next;
      SessionStaysRight(Next(s, steps[0]), steps[1..], t);
    }
  }

  /** From the start of the server: after any such run, the answer to a query pinned to the published
      document leaves the client with exactly that document's tokens. */
  lemma ClientEndsCurrent(steps: seq<Step>, s: Session, i: nat, r: Reply)
    requires Run(START, steps, s) && AsksCurrent(START, steps)
    requires Enabled(s, Answer(i, r)) && s.published.Some? && s.queries[i].snap == s.published
    ensures var t := Next(s, Answer(i, r)); var d := s.published.value;
            d.version in t.held && t.held[d.version].data == Tokens(d)
  {
    assert Inv(START);
    SessionStaysRight(START, steps, s);
    AnswerKeepsInv(s, i, r);
  }

  // ---- exactly when a delta can be trusted -------------------------------------------------------

  /** What can be told of a held result id without looking at any tokens: the life of the slot it
      was issued in, the slot's life now, and the versions the server still has. */
  datatype Standing = Standing(id: nat, heldLifetime: nat, lifetime: nat, version: nat, prevVersion: Option<nat>)

  ghost predicate StandsAt(s: Session, w: Standing) {
    && w.id in s.held && s.held[w.id].lifetime == w.heldLifetime && s.lifetime == w.lifetime
    && s.published.Some? && s.published.value.version == w.version
    && w.prevVersion == (if s.slot.prev.Some? then Some(s.slot.prev.value.version) else None)
  }

  /** Some run of server and client leads here, and no delta so far was asked for with an id out of date. */
  ghost predicate Reachable(s: Session) {
    exists steps :: Run(START, steps, s) && AsksCurrent(START, steps)
  }

  ghost predicate MayReply(s: Session, id: nat, r: Reply) {
    id in s.held && Enabled(Next(s, Ask(Some(id))), Answer(|s.queries|, r))
  }

  /** Asking for a delta from id in session s and getting reply r leaves the client with the published document. */
  ghost predicate EndsRight(s: Session, id: nat, r: Reply)
    requires s.published.Some? && MayReply(s, id, r)
  {
    var t := Next(Next(s, Ask(Some(id))), Answer(|s.queries|, r));
    var d := s.published.value;
    d.version in t.held && t.held[d.version].data == Tokens(d)
  }

  /** In every session the standing occurs in, every reply leaves the client with the published document. */
  ghost predicate Trusted(w: Standing) {
    forall s: Session, r: Reply | Reachable(s) && StandsAt(s, w) && MayReply(s, w.id, r) :: EndsRight(s, w.id, r)
  }

  /** The id dates from the slot's present life, or the server has no snapshot of that version. */
  predicate Fresh(w: Standing) {
    w.heldLifetime == w.lifetime || (w.id != w.version && w.prevVersion != Some(w.id))
  }

  lemma {:induction false} RunSnoc(s: Session, steps: seq<Step>, t: Session, step: Step)
    requires Run(s, steps, t) && AsksCurrent(s, steps) && Enabled(t, step)
    requires step.Ask? && step.prevId.Some? ==> IdIsCurrent(t, step.prevId.value)
    ensures Run(s, steps + [step], Next(t, step)) && AsksCurrent(s, steps + [step])
    decreases |steps|
  {
    var longer := steps + [step];
    assert longer[0] == if steps == [] then step else steps[0];
    hide Enabled, Next, IdIsCurrent;
    if steps == [] {
      assert longer[1..] == [];
      assert Run(Next(s, step), [], Next(t, step)) && AsksCurrent(Next(s, step), []);
    } else {
      RunSnoc(Next(s, steps[0]), steps[1..], t, step);
      assert longer[1..] == steps[1..] + [step];
    }
  }

  lemma ReachableNext(s: Session, step: Step)
    requires Reachable(s) && Enabled(s, step)
    requires step.Ask? && step.prevId.Some? ==> IdIsCurrent(s, step.prevId.value)
    ensures Reachable(Next(s, step))
  {
    hide Run, AsksCurrent, Enabled, Next, IdIsCurrent;
    var steps :| Run(START, steps, s) && AsksCurrent(START, steps);
    RunSnoc(START, steps, s, step);
  }

  lemma ReachableStart()
    ensures Reachable(START)
  {
    assert Run(START, [], START) && AsksCurrent(START, []);
  }

  lemma ReachableInv(s: Session)
    requires Reachable(s)
    ensures Inv(s)
  {
    hide Run, AsksCurrent;
    var steps :| Run(START, steps, s) && AsksCurrent(START, steps);
    assert Inv(START);
    SessionStaysRight(START, steps, s);
  }

  /** An id issued in the slot's present life, or of a version not retained, is always answered rightly. */
  lemma FreshIsTrusted(w: Standing)
    requires Fresh(w)
    ensures Trusted(w)
  {
    hide Reachable, Inv, EndsRight;
    forall s: Session, r: Reply | Reachable(s) && StandsAt(s, w) && MayReply(s, w.id, r) ensures EndsRight(s, w.id, r) {
      ReachableInv(s);
      FreshEndsRight(s, w, r);
    }
  }

  lemma FreshEndsRight(s: Session, w: Standing, r: Reply)
    requires Inv(s) && StandsAt(s, w) && Fresh(w) && MayReply(s, w.id, r)
    ensures EndsRight(s, w.id, r)
  {
    hide Inv, Answers, Tokens, Receive;
    AskKeepsInv(s, Some(w.id));
    AnswerKeepsInv(Next(s, Ask(Some(w.id))), |s.queries|, r);
  }

  // ---- runs that meet a stale id -----------------------------------------------------------------

  lemma {:induction false} ApplyConcat(s: Session, xs: seq<SlotOp>, ys: seq<SlotOp>)
    ensures ApplyOps(s, xs + ys) == ApplyOps(ApplyOps(s, xs), ys)
  {
    hide ApplyOp;
    if ys == [] {
      assert xs + ys == xs;
    } else {
      ApplyConcat(s, xs, ys[..|ys| - 1]);
      assert (xs + ys)[..|xs + ys| - 1] == xs + ys[..|ys| - 1];
    }
  }

  lemma ApplyThen(s: Session, ops: seq<SlotOp>, op: SlotOp)
    ensures ApplyOps(s, ops + [op]) == ApplyOp(ApplyOps(s, ops), op)
  {
    assert (ops + [op])[..|ops|] == ops;
  }

  /** Everything but the slot, its life and the parses issued. */
  predicate SameAround(s: Session, t: Session) {
    t.queries == s.queries && t.held == s.held && t.published == s.published
  }

  /** A free slot may have any number of lives in which nothing is parsed, and is then allocated once more. */
  lemma {:induction false} NewLife(s: Session, n: nat) returns (ops: seq<SlotOp>)
    requires s.slot == UNUSED
    ensures var t := ApplyOps(s, ops); SameAround(s, t) && t.lifetime == s.lifetime + n + 1 && t.slot == Alloc(UNUSED)
  {
    assert ApplyOps(s, []) == s;
    if n == 0 {
      ops := [DoAlloc];
      ApplyThen(s, [], DoAlloc);
      assert [] + [DoAlloc] == [DoAlloc];
    } else {
      ops := NewLife(s, n - 1);
      ApplyThen(s, ops, DoFree);
      ApplyThen(s, ops + [DoFree], DoAlloc);
      ops := ops + [DoFree] + [DoAlloc];
    }
  }

  lemma InstallOnce(s: Session, ops: seq<SlotOp>, spans: ParsedSpans)
    requires ApplyOps(s, ops).slot.inUse
    ensures var t, u := ApplyOps(s, ops), ApplyOps(s, ops + [DoInstall(Some(spans))]);
            SameAround(t, u) && u.lifetime == t.lifetime &&
            u.slot == Slot(true, t.slot.docVersion + 1, Some(DocSnapshot(t.slot.docVersion, spans)), t.slot.snap)
  {
    ApplyThen(s, ops, DoInstall(Some(spans)));
  }

  /** n parses of the same text in a slot just allocated. */
  lemma {:induction false} Parses(s: Session, ops: seq<SlotOp>, spans: ParsedSpans, n: nat) returns (more: seq<SlotOp>)
    requires ApplyOps(s, ops).slot == Alloc(UNUSED)
    ensures var t, u := ApplyOps(s, ops), ApplyOps(s, ops + more);
            && SameAround(t, u) && u.lifetime == t.lifetime
            && u.slot == Slot(true, n + 1, if n == 0 then None else Some(DocSnapshot(n, spans)),
                              if n < 2 then None else Some(DocSnapshot(n - 1, spans)))
  {
    if n == 0 {
      more := [];
      assert ops + more == ops;
    } else {
      more := Parses(s, ops, spans, n - 1);
      InstallOnce(s, ops + more, spans);
      assert ops + more + [DoInstall(Some(spans))] == ops + (more + [DoInstall(Some(spans))]);
      more := more + [DoInstall(Some(spans))];
    }
  }

  /** A slot just allocated can come to hold any version, with or without the one before it. */
  lemma ParsesUpTo(s: Session, ops: seq<SlotOp>, spans: ParsedSpans, version: nat, prevVersion: Option<nat>)
    returns (more: seq<SlotOp>)
    requires ApplyOps(s, ops).slot == Alloc(UNUSED) && version >= 1
    requires prevVersion == None || (version >= 2 && prevVersion == Some(version - 1))
    ensures var t, u := ApplyOps(s, ops), ApplyOps(s, ops + more);
            && SameAround(t, u) && u.lifetime == t.lifetime
            && u.slot == Slot(true, version + 1, Some(DocSnapshot(version, spans)),
                              if prevVersion.Some? then Some(DocSnapshot(version - 1, spans)) else None)
  {
    hide ApplyOps, ApplyOp;
    if prevVersion.Some? {
      more := Parses(s, ops, spans, version);
    } else {
      more := Parses(s, ops, spans, version - 1);
      ClearOnce(s, ops + more);
      InstallOnce(s, ops + more + [DoClear], spans);
      assert ops + more + [DoClear] + [DoInstall(Some(spans))] == ops + (more + [DoClear] + [DoInstall(Some(spans))]);
      more := more + [DoClear] + [DoInstall(Some(spans))];
    }
  }

  lemma ClearOnce(s: Session, ops: seq<SlotOp>)
    ensures var t, u := ApplyOps(s, ops), ApplyOps(s, ops + [DoClear]);
            SameAround(t, u) && u.lifetime == t.lifetime && u.slot == Clear(t.slot)
  {
    ApplyThen(s, ops, DoClear);
  }

  /** The slot is freed, reused as often as wanted, and its document parsed up to the given version. */
  lemma Reopen(s: Session, spans: ParsedSpans, lives: nat, version: nat, prevVersion: Option<nat>) returns (t: Session)
    requires Reachable(s) && version >= 1
    requires prevVersion == None || (version >= 2 && prevVersion == Some(version - 1))
    ensures Reachable(t) && t.held == s.held && t.queries == s.queries && t.lifetime == s.lifetime + lives + 1
    ensures t.published == t.slot.snap == Some(DocSnapshot(version, spans))
    ensures t.slot.prev == if prevVersion.Some? then Some(DocSnapshot(version - 1, spans)) else None
  {
    hide Reachable;
    var freed := ApplyOps(s, [DoFree]);
    assert freed.slot == UNUSED && SameAround(s, freed) && freed.lifetime == s.lifetime by {
      assert [DoFree][..0] == [];
      assert ApplyOps(s, []) == s;
    }
    var ops := NewLife(freed, lives);
    var more := ParsesUpTo(freed, ops, spans, version, prevVersion);
    ApplyConcat(s, [DoFree], ops + more);
    ReachableNext(s, Notify([DoFree] + (ops + more)));
    hide ApplyOps;
    t := Next(s, Notify([DoFree] + (ops + more)));
  }

  /** The client asks for all tokens and is answered at once. */
  lemma FetchAll(s: Session) returns (t: Session)
    requires Reachable(s) && s.published.Some? && s.queries == []
    ensures var d := s.published.value;
            Reachable(t) && t == s.(held := s.held[d.version := Held(s.lifetime, Tokens(d))])
  {
    hide Reachable, Tokens;
    var d := s.published.value;
    var r := FullReply(d.version, Tokens(d));
    ReachableNext(s, Ask(None));
    var asked := Next(s, Ask(None));
    assert asked.queries == [Query(None, None, s.lifetime, s.published, s.slot.prev)];
    ReachableNext(asked, Answer(0, r));
    t := Next(asked, Answer(0, r));
    assert asked.queries[..0] + asked.queries[1..] == [];
  }

  lemma EmptyReplyAllowed(s: Session, id: nat, spans: ParsedSpans)
    requires id in s.held && s.published.Some? && s.published.value.spans == spans
    requires s.slot.prev.Some? ==> s.slot.prev.value.spans == spans
    requires BaseFor(Some(id), s.published.value, s.slot.prev).Some?
    ensures MayReply(s, id, DeltaReply(s.published.value.version, []))
  {
    var base := BaseFor(Some(id), s.published.value, s.slot.prev).value;
    SameSpansSameTokens(base, s.published.value);
    hide Tokens;
  }

  lemma SameSpansSameTokens(d: DocSnapshot, e: DocSnapshot)
    requires d.spans == e.spans
    ensures Tokens(d) == Tokens(e)
  {
  }

  lemma EmptyReplyKeepsOld(s: Session, id: nat, version: nat)
    requires s.published.Some? && s.published.value.version == version && MayReply(s, id, DeltaReply(version, []))
    requires s.held[id].data != Tokens(s.published.value)
    ensures !EndsRight(s, id, DeltaReply(version, []))
  {
    hide Tokens, Answers;
  }

  lemma SomeTokens() returns (empty: ParsedSpans, spans: ParsedSpans)
    ensures forall v: nat, w: nat :: Tokens(DocSnapshot(v, empty)) != Tokens(DocSnapshot(w, spans))
  {
    var s := TokenSpan(Ident, Pos(0, 0), Pos(0, 3), "abc");
    var forward: seq<TokenSpan> := [s];
    spans := forward;
    empty := [];
    var m := Segment(0, 0, 3, 4, 0);
    assert Marks(s, 4) == [m];
    assert spans[..0] == [];
    assert AllMarks(spans) == [] + [m];
    assert [m][..0] == [];
    assert |Encode([m])| == 5;
    assert Encode(AllMarks(empty)) == [];
  }

  /** Every stale standing occurs in a run that ends with the client on the wrong tokens. */
  lemma StaleIsMisled(w: Standing) returns (s: Session, r: Reply)
    requires 1 <= w.heldLifetime < w.lifetime && w.id >= 1 && w.version >= 1
    requires w.prevVersion == None || (w.version >= 2 && w.prevVersion == Some(w.version - 1))
    requires !Fresh(w)
    ensures Reachable(s) && StandsAt(s, w) && MayReply(s, w.id, r) && !EndsRight(s, w.id, r)
  {
    hide Reachable, Tokens, MayReply, EndsRight;
    var before, after := SomeTokens();
    ReachableStart();
    var first := Reopen(START, before, w.heldLifetime - 1, w.id, None);
    var fetched := FetchAll(first);
    s := Reopen(fetched, after, w.lifetime - w.heldLifetime - 1, w.version, w.prevVersion);
    r := DeltaReply(w.version, []);
    EmptyReplyAllowed(s, w.id, after);
    EmptyReplyKeepsOld(s, w.id, w.version);
  }

  // ---- which standings occur ---------------------------------------------------------------------

  /** Versions count from 1 in each life, and the retained two are consecutive. */
  ghost predicate Counted(s: Session) {
    && (s.slot.inUse ==> s.slot.docVersion >= 1)
    && (!s.slot.inUse ==> s.slot == UNUSED)
    && (s.slot.snap.Some? ==> s.slot.docVersion >= 2 && s.slot.snap.value.version == s.slot.docVersion - 1)
    && (s.slot.snap.Some? && s.slot.prev.Some? ==>
          s.slot.docVersion >= 3 && s.slot.prev.value.version == s.slot.docVersion - 2)
    && (s.slot.inUse ==> s.lifetime >= 1)
    && (forall k :: k in s.issued ==> k.0 >= 1 && k.1 >= 1)
  }

  lemma OpKeepsCounted(s: Session, op: SlotOp)
    requires Counted(s)
    ensures Counted(ApplyOp(s, op))
  {
  }

  lemma {:induction false} OpsKeepCounted(s: Session, ops: seq<SlotOp>)
    requires Counted(s)
    ensures Counted(ApplyOps(s, ops))
  {
    hide Counted, ApplyOp;
    if ops != [] {
      OpsKeepCounted(s, ops[..|ops| - 1]);
      OpKeepsCounted(ApplyOps(s, ops[..|ops| - 1]), ops[|ops| - 1]);
    }
  }

  lemma {:induction false} RunKeepsCounted(s: Session, steps: seq<Step>, t: Session)
    requires Counted(s) && s.published == s.slot.snap && Run(s, steps, t)
    ensures Counted(t) && t.published == t.slot.snap
    decreases |steps|
  {
    hide Answers;
    if steps != [] {
      var next := Next(s, steps[0]);
      if steps[0].Notify? {
        OpsKeepCounted(s, steps[0].ops);
        assert Counted(ApplyOps(s, steps[0].ops));
      }
      assert Counted(next) && next.published == next.slot.snap;
      hide Enabled, Next, Counted;
      RunKeepsCounted(next, steps[1..], t);
    }
  }

  lemma StandingThatOccurs(s: Session, w: Standing)
    requires Reachable(s) && StandsAt(s, w)
    ensures 1 <= w.heldLifetime <= w.lifetime && w.id >= 1 && w.version >= 1
    ensures w.prevVersion == None || (w.version >= 2 && w.prevVersion == Some(w.version - 1))
  {
    hide Run, AsksCurrent, Tokens;
    ReachableInv(s);
    var steps :| Run(START, steps, s) && AsksCurrent(START, steps);
    RunKeepsCounted(START, steps, s);
    assert HeldRight(s, w.id, s.held[w.id]);
  }

  /** Versions restart when a slot is allocated again. So, of everything that can be told from lifetimes
      and versions in a session that occurs: a delta can be trusted exactly when the id dates from the
      slot's present life or names no snapshot the server still has. */
  lemma DeltaTrustedExactly(s: Session, w: Standing)
    requires Reachable(s) && StandsAt(s, w)
    ensures Trusted(w) <==> w.heldLifetime == w.lifetime || (w.id != w.version && w.prevVersion != Some(w.id))
  {
    hide Reachable, StandsAt, MayReply, EndsRight;
    StandingThatOccurs(s, w);
    if Fresh(w) {
      FreshIsTrusted(w);
    } else {
      var u, r := StaleIsMisled(w);
    }
  }

  /** The shortest such run: parse a, fetch it, close and open again with b, ask from the old id. */
  lemma StaleIdMisleads(a: ParsedSpans, b: ParsedSpans) returns (steps: seq<Step>, t: Session)
    requires Tokens(DocSnapshot(1, a)) != Tokens(DocSnapshot(1, b))
    ensures steps == [Notify([DoAlloc, DoInstall(Some(a))]), Ask(None), Answer(0, FullReply(1, Tokens(DocSnapshot(1, a)))),
                      Notify([DoFree, DoAlloc, DoInstall(Some(b))]), Ask(Some(1)), Answer(0, DeltaReply(1, []))]
    ensures Run(START, steps, t) && t.published == Some(DocSnapshot(1, b))
    ensures 1 in t.held && t.held[1].data == Tokens(DocSnapshot(1, a)) && t.held[1].data != Tokens(t.published.value)
  {
    hide Tokens;
    var d, e := DocSnapshot(1, a), DocSnapshot(1, b);
    var full, delta := FullReply(1, Tokens(d)), DeltaReply(1, []);
    var openA, openB := [DoAlloc, DoInstall(Some(a))], [DoFree, DoAlloc, DoInstall(Some(b))];
    steps := [Notify(openA), Ask(None), Answer(0, full), Notify(openB), Ask(Some(1)), Answer(0, delta)];
    OpenSlot(START, openA, a);
    var s1 := Next(START, Notify(openA));
    var s2 := Next(s1, Ask(None));
    var s3 := Next(s2, Answer(0, full));
    OpenSlot(s3, openB, b);
    var s4 := Next(s3, Notify(openB));
    var s5 := Next(s4, Ask(Some(1)));
    t := Next(s5, Answer(0, delta));
    hide Next, Enabled, ApplyOps;
    assert Run(t, [], t);
    assert Run(s5, [Answer(0, delta)], t);
    assert Run(s4, [Ask(Some(1)), Answer(0, delta)], t);
    assert Run(s3, steps[3..], t) by { assert steps[3..][1..] == [Ask(Some(1)), Answer(0, delta)]; }
    assert Run(s2, steps[2..], t) by { assert steps[2..][1..] == steps[3..]; }
    assert Run(s1, steps[1..], t) by { assert steps[1..][1..] == steps[2..]; }
  }

  lemma OpenSlot(s: Session, ops: seq<SlotOp>, spans: ParsedSpans)
    requires ops == [DoFree, DoAlloc, DoInstall(Some(spans))] || (s.slot == UNUSED && ops == [DoAlloc, DoInstall(Some(spans))])
    ensures var t := ApplyOps(s, ops);
            SameAround(s, t) && t.lifetime == s.lifetime + 1 && t.slot == Slot(true, 2, Some(DocSnapshot(1, spans)), None)
  {
    assert ApplyOps(s, []) == s;
    if ops[0] == DoFree {
      ApplyThen(s, [], DoFree);
      assert [] + [DoFree] == [DoFree] && [DoFree] + [DoAlloc] + [DoInstall(Some(spans))] == ops;
      ApplyThen(s, [DoFree], DoAlloc);
      ApplyThen(s, [DoFree] + [DoAlloc], DoInstall(Some(spans)));
    } else {
      ApplyThen(s, [], DoAlloc);
      assert [] + [DoAlloc] == [DoAlloc] && [DoAlloc] + [DoInstall(Some(spans))] == ops;
      ApplyThen(s, [DoAlloc], DoInstall(Some(spans)));
    }
  }

  // ---- the document object under a session -------------------------------------------------------

  /** Carries out a notification's slot changes on the document itself. */
  method Perform(doc: Document, ghost s: Session, ops: seq<SlotOp>)
    requires doc.State() == s.slot
    modifies doc
    ensures doc.State() == ApplyOps(s, ops).slot
  {
    hide ApplyOps;
    assert ops[..0] == [];
    assert ApplyOps(s, []) == s by { NoOps(s); }
    for i := 0 to |ops|
      invariant doc.State() == ApplyOps(s, ops[..i]).slot
    {
      ApplyThen(s, ops[..i], ops[i]);
      assert ops[..i] + [ops[i]] == ops[..i + 1];
      match ops[i] {
        case DoAlloc => if !doc.inUse { doc.DocAlloc(); }
        case DoFree => doc.DocFree();
        case DoClear => doc.ClearParseState();
        case DoInstall(po) => if doc.inUse { doc.InstallParse(po); }
      }
    }
    assert ops[..|ops|] == ops;
  }

  lemma NoOps(s: Session)
    ensures ApplyOps(s, []) == s
  {
  }

  /** Answers a delta request from the document itself: the reply is one the session allows. */
  method AnswerFrom(doc: Document, ghost s: Session, prevId: Option<nat>) returns (r: Reply)
    requires doc.State() == s.slot && s.published == s.slot.snap && Enabled(s, Ask(prevId))
    ensures Enabled(Next(s, Ask(prevId)), Answer(|s.queries|, r))
  {
    r := HandleSemanticTokensFullDelta(prevId, doc.snap, doc.prevSnap);
    hide Answers;
  }
}
