/**
 * The threads between the reader and the replies: one coordinator taking messages in arrival order, a
 * pool of query workers, and cancellations that reach into both queues. Every step below is one
 * critical section of one thread; a run is any interleaving of them.
 */
module Coordinator {
  import opened Lsp

  const NUM_QUERY_WORKERS := 4

  /** The class of a message's method; a client's response and an unknown method are Other. */
  datatype Kind = Notification | Inline | Query | Other

  /** The id member: absent, an integer, or present but of another type. */
  datatype IdItem = NoId | IntId(n: int) | OtherId

  datatype Message = Call(kind: Kind, id: IdItem) | CancelRequest(target: Option<int>)

  datatype Reader = Reading | Cancelling(id: int) | Joining

  datatype Coord = Waiting | Handling(job: nat) | HandingOff(job: nat) | Closing | Done

  /** What a request got: an error reply, or the result computed from the messages executed before. */
  datatype Outcome = Cancelled | Result(saw: seq<nat>)

  datatype Reply = Reply(to: nat, outcome: Outcome)

  /**
   * A job is named by its message's place in the log; cancelled and context are the fields of the jobs.
   * The last five components are history: what the coordinator has taken, what it executed, which
   * inline requests it refused, which jobs were freed and what was sent.
   */
  datatype State = State(
    log: seq<Message>, reader: Reader,
    work: seq<nat>, workClosed: bool, requests: seq<nat>, requestsClosed: bool,
    coord: Coord, running: seq<nat>, exited: nat,
    cancelled: set<nat>, context: map<nat, seq<nat>>,
    taken: nat, executed: seq<nat>, refused: set<nat>, freed: seq<nat>, replies: seq<Reply>)

  const START := State([], Reading, [], false, [], false, Waiting, [], 0, {}, map[], 0, [], {}, [], [])

  datatype Step =
    | Receive(m: Message) | CancelHandedOff | Stop
    | Take | Dispatch | HandOff | Drain | CloseRequests
    | StartQuery | FinishQuery(k: nat) | Exit

  /** The queued jobs a cancellation marks. */
  function Marked(queue: seq<nat>, log: seq<Message>, id: int): set<nat> {
    set n | n in queue && n < |log| && log[n].Call? && log[n].kind != Notification && log[n].id == IntId(id)
  }

  ghost predicate Enabled(s: State, step: Step) {
    match step
    case Receive(_) => s.reader == Reading
    case CancelHandedOff => s.reader.Cancelling?
    case Stop => s.reader == Reading
    case Take => s.coord == Waiting && s.work != []
    case Drain => s.coord == Waiting && s.work == [] && s.workClosed
    case Dispatch => s.coord.Handling? && s.coord.job < |s.log| && s.log[s.coord.job].Call?
    case HandOff => s.coord.HandingOff?
    case CloseRequests => s.coord == Closing
    case StartQuery => |s.running| + s.exited < NUM_QUERY_WORKERS && s.requests != []
    case FinishQuery(k) => k < |s.running| && s.running[k] < |s.log| && s.log[s.running[k]].Call?
    case Exit => |s.running| + s.exited < NUM_QUERY_WORKERS && s.requests == [] && s.requestsClosed
  }

  /** What a marked request is sent: only one with an id can be marked. */
  function CancelledReply(m: Message): Option<Outcome>
    requires m.Call?
  {
    if m.id == NoId then None else Some(Cancelled)
  }

  datatype Ending = Ending(job: nat, outcome: Option<Outcome>)

  /** The job a step frees, and what is sent for it before. */
  ghost function EndingOf(s: State, step: Step): Option<Ending>
    requires Enabled(s, step)
  {
    match step
    case Dispatch =>
      var n := s.coord.job;
      var m := s.log[n];
      if m.kind == Notification then Some(Ending(n, None))
      else if n in s.cancelled then Some(Ending(n, CancelledReply(m)))
      else if m.kind == Inline then Some(Ending(n, Some(Result(s.executed))))
      else None
    case FinishQuery(k) =>
      var n := s.running[k];
      var m := s.log[n];
      Some(Ending(n, if n in s.cancelled then CancelledReply(m)
                     else if m.kind == Query || m.id != NoId
                     then Some(Result(if n in s.context then s.context[n] else []))
                     else None))
    case _ => None
  }

  /** Notifications run here, cancelled requests are refused, inline ones run too, the rest are pinned. */
  ghost function Dispatched(s: State): State
    requires Enabled(s, Dispatch)
  {
    var n := s.coord.job;
    var m := s.log[n];
    if m.kind == Notification || (n !in s.cancelled && m.kind == Inline) then
      s.(coord := Waiting, executed := s.executed + [n])
    else if n in s.cancelled then
      s.(coord := Waiting, refused := if m.kind == Inline then s.refused + {n} else s.refused)
    else s.(coord := HandingOff(n), context := s.context[n := s.executed])
  }

  ghost function After(s: State, step: Step): State
    requires Enabled(s, step)
  {
    var t := Moved(s, step);
    match EndingOf(s, step)
    case None => t
    case Some(e) =>
      t.(freed := t.freed + [e.job],
         replies := match e.outcome case None => t.replies case Some(o) => t.replies + [Reply(e.job, o)])
  }

  /** The rest of a step. */
  ghost function Moved(s: State, step: Step): State
    requires Enabled(s, step)
  {
    match step
    case Receive(m) =>
      var r := s.(log := s.log + [m]);
      (match m
       case Call(_, _) => r.(work := s.work + [|s.log|])
       case CancelRequest(None) => r
       case CancelRequest(Some(id)) =>
         r.(cancelled := s.cancelled + Marked(s.work, s.log, id), reader := Cancelling(id)))
    case CancelHandedOff =>
      s.(cancelled := s.cancelled + Marked(s.requests, s.log, s.reader.id), reader := Reading)
    case Stop => s.(reader := Joining, workClosed := true)
    case Take => s.(coord := Handling(s.work[0]), work := s.work[1..], taken := s.work[0] + 1)
    case Drain => s.(coord := Closing)
    case CloseRequests => s.(coord := Done, requestsClosed := true)
    case Dispatch => Dispatched(s)
    case HandOff => s.(coord := Waiting, requests := s.requests + [s.coord.job])
    case StartQuery => s.(running := s.running + [s.requests[0]], requests := s.requests[1..])
    case FinishQuery(k) => s.(running := s.running[..k] + s.running[k + 1..])
    case Exit => s.(exited := s.exited + 1)
  }

  /** Where an interleaving leads, if each of its steps can be taken. */
  ghost function Exec(steps: seq<Step>): Option<State> {
    if steps == [] then Some(START)
    else
      match Exec(steps[..|steps| - 1])
      case None => None
      case Some(s) => if Enabled(s, steps[|steps| - 1]) then Some(After(s, steps[|steps| - 1])) else None
  }

  // ---- arrival order ---------------------------------------------------------------------------

  /** The jobs among the first messages up to the end of the log, from place f on. */
  ghost function CallsFrom(log: seq<Message>, f: nat): seq<nat> {
    if |log| <= f then []
    else CallsFrom(log[..|log| - 1], f) + (if log[|log| - 1].Call? then [|log| - 1] else [])
  }

  /** What running the first k messages one by one executes on the document state. */
  ghost function Executed(log: seq<Message>, refused: set<nat>, k: nat): seq<nat>
    requires k <= |log|
  {
    if k == 0 then []
    else Executed(log, refused, k - 1) +
         (if log[k - 1].Call? && (log[k - 1].kind == Notification || (log[k - 1].kind == Inline && k - 1 !in refused))
          then [k - 1] else [])
  }

  lemma {:induction false} ExecutedStable(log: seq<Message>, more: seq<Message>, refused: set<nat>, extra: set<nat>, k: nat)
    requires k <= |log| && log <= more && forall n :: n in extra ==> n >= k
    ensures Executed(more, refused + extra, k) == Executed(log, refused, k)
    decreases k
  {
    if k > 0 {
      ExecutedStable(log, more, refused, extra, k - 1);
      assert more[k - 1] == log[k - 1];
    }
  }

  lemma {:induction false} CallsBounds(log: seq<Message>, f: nat)
    ensures forall i :: 0 <= i < |CallsFrom(log, f)| ==> f <= CallsFrom(log, f)[i] < |log| && log[CallsFrom(log, f)[i]].Call?
    ensures forall n :: f <= n < |log| && log[n].Call? ==> n in CallsFrom(log, f)
    decreases |log|
  {
    if |log| > f {
      CallsBounds(log[..|log| - 1], f);
    }
  }

  lemma {:induction false} FirstCall(log: seq<Message>, f: nat)
    requires CallsFrom(log, f) != []
    ensures var n := CallsFrom(log, f)[0];
            && f <= n < |log| && log[n].Call? && CallsFrom(log, n + 1) == CallsFrom(log, f)[1..]
            && forall i :: f <= i < n ==> !log[i].Call?
    decreases |log|
  {
    var init := log[..|log| - 1];
    if CallsFrom(init, f) != [] {
      FirstCall(init, f);
      var n := CallsFrom(init, f)[0];
      assert forall i :: f <= i < n ==> !log[i].Call? by { assert forall i :: f <= i < n ==> log[i] == init[i]; }
    } else {
      CallsBounds(init, f);
      assert forall i :: f <= i < |init| ==> log[i] == init[i];
    }
  }

  lemma {:induction false} NoCallsBetween(log: seq<Message>, refused: set<nat>, f: nat, n: nat)
    requires f <= n <= |log| && forall i :: f <= i < n ==> !log[i].Call?
    ensures Executed(log, refused, n) == Executed(log, refused, f)
    decreases n
  {
    if f < n {
      NoCallsBetween(log, refused, f, n - 1);
    }
  }

  // ---- the invariant ---------------------------------------------------------------------------

  function Held(c: Coord): seq<nat> {
    match c
    case Handling(n) => [n]
    case HandingOff(n) => [n]
    case _ => []
  }

  ghost function Count(q: seq<nat>, n: nat): nat {
    multiset(q)[n]
  }

  /** In how many places job n is. */
  ghost function Places(s: State, n: nat): nat {
    Count(s.work, n) + Count(Held(s.coord), n) + Count(s.requests, n) + Count(s.running, n) + Count(s.freed, n)
  }

  /** Every job is in exactly one place: queued, held by one thread, or freed. */
  ghost predicate OnePlace(s: State) {
    forall n: nat :: Places(s, n) == if n < |s.log| && s.log[n].Call? then 1 else 0
  }

  /** How far the coordinator has executed: it has not dispatched what it is handling. */
  function Upto(s: State): nat {
    if s.coord.Handling? && s.taken > 0 then s.taken - 1 else s.taken
  }

  ghost predicate InOrder(s: State) {
    && s.taken <= |s.log|
    && s.work == CallsFrom(s.log, s.taken)
    && (s.coord.Handling? || s.coord.HandingOff? ==>
          s.taken > 0 && s.coord.job == s.taken - 1 && s.log[s.coord.job].Call?)
    && (s.coord.HandingOff? ==> s.log[s.coord.job].kind in {Query, Other})
    && s.executed == Executed(s.log, s.refused, Upto(s))
    && forall n :: n in s.refused ==> n < Upto(s)
  }

  ghost predicate Pinned(s: State, n: nat, saw: seq<nat>) {
    n < Upto(s) <= |s.log| && saw == Executed(s.log, s.refused, n)
  }

  ghost predicate ContextsPinned(s: State) {
    && (forall n :: n in s.context ==> Pinned(s, n, s.context[n]))
    && (forall n: nat :: InHand(s, n) ==>
          n in s.context && n < |s.log| && s.log[n].Call? && s.log[n].kind in {Query, Other})
  }

  /** The client asked, after sending the request, for the request to be cancelled. */
  ghost predicate Asked(log: seq<Message>, n: nat) {
    && n < |log| && log[n].Call? && log[n].kind != Notification && log[n].id.IntId?
    && exists m :: n < m < |log| && log[m] == CancelRequest(Some(log[n].id.n))
  }

  ghost predicate CancelsAsked(s: State) {
    && (forall n :: n in s.cancelled ==> Asked(s.log, n))
    && (s.reader.Cancelling? ==> s.log != [] && s.log[|s.log| - 1] == CancelRequest(Some(s.reader.id)))
  }

  ghost predicate Answerable(m: Message) {
    m.Call? && (m.kind in {Inline, Query} || (m.kind == Other && m.id != NoId))
  }

  function CountReplies(replies: seq<Reply>, n: nat): nat {
    if replies == [] then 0
    else CountReplies(replies[..|replies| - 1], n) + if replies[|replies| - 1].to == n then 1 else 0
  }

  /** A freed job was answered exactly if it is a request, and nothing else was. */
  ghost predicate RepliesMatch(s: State) {
    forall n: nat :: CountReplies(s.replies, n) ==
      if n < |s.log| && Answerable(s.log[n]) then Count(s.freed, n) else 0
  }

  ghost predicate RepliesRight(s: State) {
    forall i :: 0 <= i < |s.replies| ==>
      var r := s.replies[i];
      && (r.outcome.Cancelled? ==> Asked(s.log, r.to))
      && (r.outcome.Result? ==> Pinned(s, r.to, r.outcome.saw))
  }

  ghost predicate RefusedRight(s: State) {
    forall n: nat :: n in s.refused <==>
      && n < |s.log| && s.log[n].Call? && s.log[n].kind == Inline
      && exists i :: 0 <= i < |s.replies| && s.replies[i] == Reply(n, Cancelled)
  }

  /** What was answered was answered by its mark, which cannot change any more. */
  ghost predicate MarksRight(s: State) {
    forall i :: 0 <= i < |s.replies| ==>
      s.replies[i].to in s.freed && (s.replies[i].outcome.Cancelled? <==> s.replies[i].to in s.cancelled)
  }

  ghost predicate Shutdown(s: State) {
    && (s.workClosed <==> s.reader == Joining)
    && (s.coord in {Closing, Done} ==> s.work == [] && s.workClosed)
    && (s.requestsClosed <==> s.coord == Done)
    && |s.running| + s.exited <= NUM_QUERY_WORKERS
    && (s.exited > 0 ==> s.requests == [] && s.requestsClosed)
  }

  ghost predicate Inv(s: State) {
    && OnePlace(s) && InOrder(s) && ContextsPinned(s) && CancelsAsked(s)
    && RepliesMatch(s) && RepliesRight(s) && RefusedRight(s) && MarksRight(s) && Shutdown(s)
  }

  lemma KeepsShutdown(s: State, step: Step)
    requires Shutdown(s) && Enabled(s, step)
    ensures Shutdown(After(s, step))
  {}

  lemma OneOut(q: seq<nat>, k: nat, n: nat)
    requires k < |q|
    ensures Count(q, n) == Count(q[..k] + q[k + 1..], n) + if q[k] == n then 1 else 0
    ensures k == 0 ==> q[..k] + q[k + 1..] == q[1..]
  {
    assert q == q[..k] + [q[k]] + q[k + 1..];
  }

  lemma OneIn(q: seq<nat>, m: nat, n: nat)
    ensures Count(q + [m], n) == Count(q, n) + if m == n then 1 else 0
  {}

  lemma One(m: nat, n: nat)
    ensures Count([m], n) == (if m == n then 1 else 0) && Count([], n) == 0
  {}

  lemma DispatchPlaces(s: State, n: nat)
    requires Enabled(s, Dispatch)
    ensures Places(After(s, Dispatch), n) == Places(s, n)
  {
    hide Count;
    OneIn(s.freed, s.coord.job, n);
    One(s.coord.job, n);
  }

  /** A step moves jobs from place to place; only an arriving request or notification makes a job. */
  lemma PlacesStep(s: State, step: Step, n: nat)
    requires Enabled(s, step)
    ensures Places(After(s, step), n)
         == Places(s, n) + if step.Receive? && step.m.Call? && n == |s.log| then 1 else 0
  {
    hide Count, Dispatched;
    match step
    case Receive(m) => OneIn(s.work, |s.log|, n);
    case Take => OneOut(s.work, 0, n); One(s.work[0], n);
    case Dispatch => DispatchPlaces(s, n);
    case HandOff => OneIn(s.requests, s.coord.job, n); One(s.coord.job, n);
    case StartQuery => OneOut(s.requests, 0, n); OneIn(s.running, s.requests[0], n);
    case FinishQuery(k) => OneOut(s.running, k, n); OneIn(s.freed, s.running[k], n);
    case _ =>
  }

  lemma KeepsOnePlace(s: State, step: Step)
    requires OnePlace(s) && Enabled(s, step)
    ensures OnePlace(After(s, step))
  {
    hide Places;
    forall n: nat ensures Places(After(s, step), n)
      == if n < |After(s, step).log| && After(s, step).log[n].Call? then 1 else 0 {
      PlacesStep(s, step, n);
    }
  }

  lemma Placed(s: State, n: nat)
    requires OnePlace(s)
    requires n in s.work || n in Held(s.coord) || n in s.requests || n in s.running || n in s.freed
    ensures n < |s.log| && s.log[n].Call?
  {
    assert Places(s, n) > 0;
  }

  /** Freeing and answering change nothing else. */
  lemma SameElsewhere(s: State, step: Step)
    requires Enabled(s, step)
    ensures var t := After(s, step); t == Moved(s, step).(freed := t.freed, replies := t.replies)
  {
    hide Moved, EndingOf;
  }

  lemma TakeInOrder(s: State)
    requires InOrder(s) && Enabled(s, Take)
    ensures InOrder(After(s, Take))
  {
    hide Executed, After, Marked;
    SameElsewhere(s, Take);
    FirstCall(s.log, s.taken);
    NoCallsBetween(s.log, s.refused, s.taken, s.work[0]);
  }

  lemma ReceiveInOrder(s: State, m: Message)
    requires InOrder(s) && Enabled(s, Receive(m))
    ensures InOrder(After(s, Receive(m)))
  {
    hide Executed, After, Marked;
    SameElsewhere(s, Receive(m));
    var t := After(s, Receive(m));
    assert t.log[..|s.log|] == s.log;
    ExecutedStable(s.log, t.log, s.refused, {}, Upto(s));
    assert s.refused + {} == s.refused;
  }

  lemma DispatchInOrder(s: State)
    requires InOrder(s) && Enabled(s, Dispatch)
    ensures InOrder(After(s, Dispatch))
  {
    hide Executed, CallsFrom, After;
    SameElsewhere(s, Dispatch);
    var n := s.coord.job;
    ExecutedStable(s.log, s.log, s.refused, {n}, n);
    ExecutedNext(s.log, s.refused, n);
    ExecutedNext(s.log, s.refused + {n}, n);
  }

  lemma ExecutedNext(log: seq<Message>, refused: set<nat>, n: nat)
    requires n < |log| && log[n].Call?
    ensures Executed(log, refused, n + 1) == Executed(log, refused, n) +
      if log[n].kind == Notification || (log[n].kind == Inline && n !in refused) then [n] else []
  {}

  lemma KeepsInOrder(s: State, step: Step)
    requires InOrder(s) && Enabled(s, step)
    ensures InOrder(After(s, step))
  {
    hide Executed, CallsFrom;
    match step
    case Receive(m) => ReceiveInOrder(s, m);
    case Take => TakeInOrder(s);
    case Dispatch => DispatchInOrder(s);
    case _ =>
  }

  /** What a job was pinned to stays the state its arrival place calls for. */
  lemma PinnedStays(s: State, step: Step, n: nat, saw: seq<nat>)
    requires InOrder(s) && Pinned(s, n, saw) && Enabled(s, step)
    ensures Pinned(After(s, step), n, saw)
  {
    hide Executed, CallsFrom, InOrder;
    var t := After(s, step);
    History(s, step);
    ExecutedStable(s.log, t.log, s.refused, {}, n);
    ExecutedStable(s.log, t.log, s.refused, {Upto(s)}, n);
    assert s.refused + {} == s.refused;
  }

  /** The log, the progress through it and the refusals only grow, the last at the dispatched job. */
  lemma History(s: State, step: Step)
    requires InOrder(s) && Enabled(s, step)
    ensures var t := After(s, step);
            && s.log <= t.log && Upto(s) <= Upto(t) <= |t.log|
            && (t.refused == s.refused || t.refused == s.refused + {Upto(s)})
  {
    hide Executed, CallsFrom, After, Marked, Dispatched;
    SameElsewhere(s, step);
    match step
    case Take => FirstCall(s.log, s.taken);
    case Dispatch => DispatchHistory(s);
    case _ =>
  }

  lemma DispatchHistory(s: State)
    requires Enabled(s, Dispatch)
    ensures var t := Dispatched(s);
            && t.log == s.log && t.taken == s.taken && !t.coord.Handling?
            && (t.refused == s.refused || t.refused == s.refused + {s.coord.job})
  {}

  lemma DispatchPins(s: State)
    requires InOrder(s) && Enabled(s, Dispatch)
    ensures After(s, Dispatch).refused == s.refused ==> Pinned(After(s, Dispatch), s.coord.job, s.executed)
  {
    hide Executed, CallsFrom;
  }

  ghost predicate InHand(s: State, n: nat) {
    n in s.requests || n in s.running || (s.coord.HandingOff? && n == s.coord.job)
  }

  lemma InHandBefore(s: State, step: Step, n: nat)
    requires Enabled(s, step) && InHand(After(s, step), n)
    ensures InHand(s, n)
         || (step == Dispatch && n == s.coord.job && s.log[n].kind in {Query, Other} && After(s, step).coord.HandingOff?)
  {}

  lemma ContextGrows(s: State, step: Step)
    requires InOrder(s) && Enabled(s, step)
    ensures var t := After(s, step);
            t.context == s.context
            || (step == Dispatch && t.context == s.context[s.coord.job := s.executed] && Pinned(t, s.coord.job, s.executed))
    ensures step == Dispatch && s.log[s.coord.job].kind in {Query, Other} && After(s, step).coord.HandingOff? ==>
              s.coord.job in After(s, step).context
  {
    hide InOrder, Pinned, After, Marked;
    SameElsewhere(s, step);
    if step == Dispatch { DispatchPins(s); }
  }

  lemma KeepsContexts(s: State, step: Step)
    requires ContextsPinned(s) && InOrder(s) && Enabled(s, step)
    ensures ContextsPinned(After(s, step))
  {
    hide Pinned, CallsFrom, Executed, InOrder, InHand;
    var t := After(s, step);
    ContextGrows(s, step);
    History(s, step);
    forall n | n in t.context ensures Pinned(t, n, t.context[n]) {
      if t.context == s.context || n != s.coord.job {
        PinnedStays(s, step, n, s.context[n]);
      }
    }
    forall n: nat | InHand(t, n)
      ensures n in t.context && n < |t.log| && t.log[n].Call? && t.log[n].kind in {Query, Other}
    {
      InHandBefore(s, step, n);
    }
  }

  lemma AskedStays(log: seq<Message>, m: Message, n: nat)
    requires Asked(log, n)
    ensures Asked(log + [m], n)
  {
    var k :| n < k < |log| && log[k] == CancelRequest(Some(log[n].id.n));
    assert (log + [m])[k] == log[k];
  }

  lemma JustAsked(log: seq<Message>, queue: seq<nat>, id: int, n: nat)
    requires log != [] && log[|log| - 1] == CancelRequest(Some(id)) && n in Marked(queue, log, id)
    ensures Asked(log, n)
  {
    assert log[|log| - 1] == CancelRequest(Some(log[n].id.n));
  }

  lemma KeepsAsked(s: State, step: Step)
    requires CancelsAsked(s) && Enabled(s, step)
    ensures CancelsAsked(After(s, step))
  {
    hide Asked;
    match step
    case Receive(m) => ReceiveAsked(s, m);
    case CancelHandedOff =>
      forall n | n in Marked(s.requests, s.log, s.reader.id) ensures Asked(s.log, n) {
        JustAsked(s.log, s.requests, s.reader.id, n);
      }
    case _ =>
  }

  lemma ReceiveAsked(s: State, m: Message)
    requires CancelsAsked(s) && Enabled(s, Receive(m))
    ensures CancelsAsked(After(s, Receive(m)))
  {
    hide Asked;
    var t := After(s, Receive(m));
    forall n | n in t.cancelled ensures Asked(t.log, n) {
      if n in s.cancelled {
        AskedStays(s.log, m, n);
      } else {
        assert n in Marked(s.work, s.log, m.target.value);
        assert n in Marked(s.work, t.log, m.target.value);
        JustAsked(t.log, s.work, m.target.value, n);
      }
    }
  }

  lemma CountNext(replies: seq<Reply>, r: Reply, n: nat)
    ensures CountReplies(replies + [r], n) == CountReplies(replies, n) + if r.to == n then 1 else 0
  {
    assert (replies + [r])[..|replies|] == replies;
  }

  lemma CancelledIsInt(s: State, n: nat)
    requires CancelsAsked(s)
    ensures n in s.cancelled ==> n < |s.log| && s.log[n].Call? && s.log[n].kind != Notification && s.log[n].id.IntId?
  {}

  /** A step frees at most one job, with a reply exactly if the message is answerable. */
  lemma EndingAnswers(s: State, step: Step)
    requires CancelsAsked(s) && ContextsPinned(s) && Enabled(s, step)
    ensures match EndingOf(s, step)
            case None => After(s, step).freed == s.freed && After(s, step).replies == s.replies
            case Some(e) => e.job < |s.log| && After(s, step).log == s.log && (e.outcome.Some? <==> Answerable(s.log[e.job]))
  {
    hide Asked, Pinned;
    match step
    case Dispatch => CancelledIsInt(s, s.coord.job);
    case FinishQuery(k) => CancelledIsInt(s, s.running[k]);
    case _ =>
  }

  lemma KeepsMatch(s: State, step: Step)
    requires RepliesMatch(s) && OnePlace(s) && CancelsAsked(s) && ContextsPinned(s) && Enabled(s, step)
    ensures RepliesMatch(After(s, step))
  {
    hide Count, CountReplies, Moved, EndingOf, CancelsAsked, ContextsPinned, Enabled;
    var t := After(s, step);
    EndingAnswers(s, step);
    MovedFrame(s, step);
    assert Places(s, |s.log|) == 0;
    forall k: nat ensures CountReplies(t.replies, k) == if k < |t.log| && Answerable(t.log[k]) then Count(t.freed, k) else 0 {
      if EndingOf(s, step).Some? {
        var e := EndingOf(s, step).value;
        OneIn(s.freed, e.job, k);
        if e.outcome.Some? { CountNext(s.replies, Reply(e.job, e.outcome.value), k); }
      }
    }
  }

  /** The rest of a step frees and answers nothing; the log grows by the message received. */
  lemma MovedFrame(s: State, step: Step)
    requires Enabled(s, step)
    ensures var t := Moved(s, step);
            && t.freed == s.freed && t.replies == s.replies
            && t.log == if step.Receive? then s.log + [step.m] else s.log
  {
    hide Marked;
  }

  /** What is sent is a refusal the client asked for, or the result for the state at the message's place. */
  lemma EndingRight(s: State, step: Step)
    requires InOrder(s) && CancelsAsked(s) && ContextsPinned(s) && Enabled(s, step)
    requires EndingOf(s, step).Some? && EndingOf(s, step).value.outcome.Some?
    ensures var e := EndingOf(s, step).value;
            && (e.outcome.value.Cancelled? ==> Asked(s.log, e.job))
            && (e.outcome.value.Result? ==> Pinned(After(s, step), e.job, e.outcome.value.saw))
  {
    hide Pinned, Asked, CallsFrom, Executed, InOrder;
    if step == Dispatch {
      DispatchPins(s);
    } else {
      var n := s.running[step.k];
      if n !in s.cancelled { PinnedStays(s, step, n, s.context[n]); }
    }
  }

  lemma KeepsRepliesRight(s: State, step: Step)
    requires RepliesRight(s) && InOrder(s) && CancelsAsked(s) && ContextsPinned(s) && Enabled(s, step)
    ensures RepliesRight(After(s, step))
  {
    hide Pinned, Asked, InOrder, CancelsAsked, ContextsPinned, Moved, EndingOf, Enabled;
    var t := After(s, step);
    MovedFrame(s, step);
    if EndingOf(s, step).Some? && EndingOf(s, step).value.outcome.Some? {
      EndingRight(s, step);
      EndingAnswers(s, step);
    }
    forall i | 0 <= i < |t.replies|
      ensures t.replies[i].outcome.Cancelled? ==> Asked(t.log, t.replies[i].to)
      ensures t.replies[i].outcome.Result? ==> Pinned(t, t.replies[i].to, t.replies[i].outcome.saw)
    {
      var r := t.replies[i];
      if i < |s.replies| {
        assert r == s.replies[i];
        if r.outcome.Result? { PinnedStays(s, step, r.to, r.outcome.saw); }
        else if step.Receive? { AskedStays(s.log, step.m, r.to); }
      }
    }
  }

  ghost predicate RefusedInline(s: State, r: Reply) {
    r.outcome == Cancelled && r.to < |s.log| && s.log[r.to].Call? && s.log[r.to].kind == Inline
  }

  /** One more reply keeps the record of refused inline requests if the record gains exactly its refusal. */
  lemma RefusedRecord(s: State, t: State, r: Option<Reply>)
    requires RefusedRight(s) && s.log <= t.log && (forall i :: 0 <= i < |s.replies| ==> s.replies[i].to < |s.log|)
    requires r == None ==> t.replies == s.replies && t.refused == s.refused
    requires r.Some? ==> t.replies == s.replies + [r.value] && r.value.to < |s.log| && t.log == s.log
    requires r.Some? ==> t.refused == if RefusedInline(s, r.value) then s.refused + {r.value.to} else s.refused
    ensures RefusedRight(t)
  {
    forall n: nat ensures n in t.refused <==>
      && n < |t.log| && t.log[n].Call? && t.log[n].kind == Inline
      && exists i :: 0 <= i < |t.replies| && t.replies[i] == Reply(n, Cancelled)
    {
      if n in s.refused {
        var i :| 0 <= i < |s.replies| && s.replies[i] == Reply(n, Cancelled);
        assert t.replies[i] == s.replies[i];
      } else if n in t.refused {
        assert t.replies[|s.replies|] == Reply(n, Cancelled);
      } else if i :| 0 <= i < |t.replies| && t.replies[i] == Reply(n, Cancelled) {
        if i < |s.replies| { assert s.replies[i] == Reply(n, Cancelled); }
      }
    }
  }

  lemma KeepsRefused(s: State, step: Step)
    requires RefusedRight(s) && CancelsAsked(s) && ContextsPinned(s) && Enabled(s, step)
    requires RepliesRight(s)
    ensures RefusedRight(After(s, step))
  {
    hide RefusedRight;
    var t := After(s, step);
    forall i | 0 <= i < |s.replies| ensures s.replies[i].to < |s.log| {
      assert s.replies[i].outcome.Cancelled? || s.replies[i].outcome.Result?;
    }
    if step == Dispatch { CancelledIsInt(s, s.coord.job); }
    var r := if |t.replies| > |s.replies| then Some(t.replies[|s.replies|]) else None;
    RefusedRecord(s, t, r);
  }

  lemma FreedNotQueued(s: State, n: nat)
    requires OnePlace(s) && n in s.freed
    ensures n !in s.work && n !in s.requests && n !in s.running && n !in Held(s.coord)
  {
    assert Places(s, n) <= 1;
  }

  lemma MarksFromQueues(s: State, step: Step)
    requires Enabled(s, step)
    ensures forall n :: n in After(s, step).cancelled ==> n in s.cancelled || n in s.work || n in s.requests
    ensures s.cancelled <= After(s, step).cancelled
  {}

  /** A reply follows the job's mark, and no step both marks and replies. */
  lemma EndingByMark(s: State, step: Step)
    requires Enabled(s, step) && EndingOf(s, step).Some?
    ensures var e := EndingOf(s, step).value;
            && After(s, step).cancelled == s.cancelled
            && (e.outcome.Some? ==> (e.outcome.value.Cancelled? <==> e.job in s.cancelled))
  {}

  lemma KeepsMarks(s: State, step: Step)
    requires MarksRight(s) && OnePlace(s) && Enabled(s, step)
    ensures MarksRight(After(s, step))
  {
    hide OnePlace, Moved, EndingOf, Enabled;
    var t := After(s, step);
    MarksFromQueues(s, step);
    MovedFrame(s, step);
    if EndingOf(s, step).Some? { EndingByMark(s, step); }
    forall i | 0 <= i < |t.replies|
      ensures t.replies[i].to in t.freed && (t.replies[i].outcome.Cancelled? <==> t.replies[i].to in t.cancelled)
    {
      if i < |s.replies| {
        assert t.replies[i] == s.replies[i];
        FreedNotQueued(s, s.replies[i].to);
      }
    }
  }

  lemma KeepsInv(s: State, step: Step)
    requires Inv(s) && Enabled(s, step)
    ensures Inv(After(s, step))
  {
    hide OnePlace, InOrder, ContextsPinned, CancelsAsked, RepliesMatch, RepliesRight, RefusedRight, MarksRight, Shutdown, After;
    KeepsOnePlace(s, step);
    KeepsInOrder(s, step);
    KeepsContexts(s, step);
    KeepsAsked(s, step);
    KeepsMatch(s, step);
    KeepsRepliesRight(s, step);
    KeepsRefused(s, step);
    KeepsMarks(s, step);
    KeepsShutdown(s, step);
  }

  lemma {:induction false} InvHolds(steps: seq<Step>)
    ensures Exec(steps).Some? ==> Inv(Exec(steps).value)
    decreases |steps|
  {
    hide Inv, Enabled, After;
    if steps == [] {
      StartInv();
    } else {
      InvHolds(steps[..|steps| - 1]);
      var before := Exec(steps[..|steps| - 1]);
      if before.Some? && Enabled(before.value, steps[|steps| - 1]) {
        KeepsInv(before.value, steps[|steps| - 1]);
      }
    }
  }

  lemma StartInv()
    ensures Inv(START)
  {}

  // ---- what the protocol promises --------------------------------------------------------------

  /** threadpool_stop has returned. */
  ghost predicate Stopped(s: State) {
    s.reader == Joining && s.coord == Done && s.exited == NUM_QUERY_WORKERS
  }

  /** In every interleaving no message is ever answered twice, and only requests are answered. */
  lemma NeverTwice(steps: seq<Step>, s: State, n: nat)
    requires Exec(steps) == Some(s)
    ensures CountReplies(s.replies, n) <= 1
    ensures CountReplies(s.replies, n) == 1 ==> n < |s.log| && Answerable(s.log[n])
  {
    InvHolds(steps);
    assert Places(s, n) <= 1;
  }

  /** Once the pool has stopped, each answerable message has been answered exactly once. */
  lemma EachAnsweredByShutdown(steps: seq<Step>, s: State, n: nat)
    requires Exec(steps) == Some(s) && Stopped(s)
    ensures CountReplies(s.replies, n) == if n < |s.log| && Answerable(s.log[n]) then 1 else 0
  {
    InvHolds(steps);
    assert s.work == [] && Held(s.coord) == [] && s.requests == [] && s.running == [];
    assert Places(s, n) == Count(s.freed, n);
  }

  /**
   * In every interleaving, whatever produced a result ran against the state after exactly the
   * notifications that arrived before it (and the inline requests before it that were not refused),
   * in arrival order.
   */
  lemma ResultsFollowArrival(steps: seq<Step>, s: State, i: nat)
    requires Exec(steps) == Some(s) && i < |s.replies| && s.replies[i].outcome.Result?
    ensures var r := s.replies[i]; r.to < |s.log| && r.outcome.saw == Executed(s.log, s.refused, r.to)
    ensures forall n: nat :: n in s.refused <==>
              && n < |s.log| && s.log[n].Call? && s.log[n].kind == Inline
              && exists j :: 0 <= j < |s.replies| && s.replies[j] == Reply(n, Cancelled)
  {
    InvHolds(steps);
  }

  /** A request is answered as cancelled only if a cancellation for its id arrived after it. */
  lemma CancelledOnlyIfAsked(steps: seq<Step>, s: State, n: nat)
    requires Exec(steps) == Some(s) && Reply(n, Cancelled) in s.replies
    ensures Asked(s.log, n)
  {
    InvHolds(steps);
    var i :| 0 <= i < |s.replies| && s.replies[i] == Reply(n, Cancelled);
    hide Asked;
    assert s.replies[i].outcome.Cancelled?;
  }

  lemma {:induction false} MarksStay(steps: seq<Step>, k: nat)
    requires k <= |steps| && Exec(steps).Some?
    ensures Exec(steps[..k]).Some? && Exec(steps[..k]).value.cancelled <= Exec(steps).value.cancelled
    decreases |steps|
  {
    if k == |steps| {
      assert steps[..k] == steps;
    } else {
      var init := steps[..|steps| - 1];
      MarksStay(init, k);
      assert init[..k] == steps[..k];
      MarksFromQueues(Exec(init).value, steps[|steps| - 1]);
    }
  }

  /** A step marks exactly the requests with the cancelled id that wait in the queue it goes through. */
  lemma MarksExactly(s: State, step: Step, n: nat)
    requires Enabled(s, step)
    ensures n in After(s, step).cancelled <==>
              || n in s.cancelled
              || (&& step.Receive? && step.m.CancelRequest? && step.m.target.Some? && n in s.work
                  && n < |s.log| && s.log[n].Call? && s.log[n].kind in {Inline, Query, Other}
                  && s.log[n].id == IntId(step.m.target.value))
              || (&& step == CancelHandedOff && n in s.requests
                  && n < |s.log| && s.log[n].Call? && s.log[n].kind in {Inline, Query, Other}
                  && s.log[n].id == IntId(s.reader.id))
  {}

  /** A cancellation that arrives while its request waits in the arrival queue is always honoured. */
  lemma WaitingCancelHonoured(steps: seq<Step>, k: nat, s: State, t: State, id: int, n: nat, i: nat)
    requires k < |steps| && Exec(steps[..k]) == Some(s) && Exec(steps) == Some(t)
    requires steps[k] == Receive(CancelRequest(Some(id))) && n in s.work
    requires n < |s.log| && s.log[n].Call? && s.log[n].kind != Notification && s.log[n].id == IntId(id)
    requires i < |t.replies| && t.replies[i].to == n
    ensures t.replies[i].outcome == Cancelled
  {
    hide After, Enabled;
    StepTaken(steps, k, s, t);
    MarksExactly(s, steps[k], n);
    InvHolds(steps);
  }

  /** So is one that finds its request waiting in the queue to the pool. */
  lemma HandedOffCancelHonoured(steps: seq<Step>, k: nat, s: State, t: State, n: nat, i: nat)
    requires k < |steps| && Exec(steps[..k]) == Some(s) && Exec(steps) == Some(t)
    requires steps[k] == CancelHandedOff && s.reader.Cancelling? && n in s.requests
    requires n < |s.log| && s.log[n].Call? && s.log[n].kind != Notification && s.log[n].id == IntId(s.reader.id)
    requires i < |t.replies| && t.replies[i].to == n
    ensures t.replies[i].outcome == Cancelled
  {
    hide After, Enabled;
    StepTaken(steps, k, s, t);
    MarksExactly(s, steps[k], n);
    InvHolds(steps);
  }

  lemma StepTaken(steps: seq<Step>, k: nat, s: State, t: State)
    requires k < |steps| && Exec(steps[..k]) == Some(s) && Exec(steps) == Some(t)
    ensures Enabled(s, steps[k]) && After(s, steps[k]).cancelled <= t.cancelled
  {
    var upTo := steps[..k + 1];
    assert upTo[..|upTo| - 1] == steps[..k];
    MarksStay(steps, k + 1);
    hide After, Enabled;
  }

  /** The step went through the queue that request n, whose id it cancels, was waiting in. */
  ghost predicate Found(s: State, step: Step, n: nat) {
    && n < |s.log| && s.log[n].Call? && s.log[n].kind != Notification
    && match step
       case Receive(CancelRequest(Some(id))) => n in s.work && s.log[n].id == IntId(id)
       case CancelHandedOff => s.reader.Cancelling? && n in s.requests && s.log[n].id == IntId(s.reader.id)
       case _ => false
  }

  /** Over a whole run a job is marked exactly if some cancellation found it. */
  lemma {:induction false} MarkedExactly(steps: seq<Step>, s: State, n: nat)
    requires Exec(steps) == Some(s)
    ensures n in s.cancelled <==>
              exists k :: 0 <= k < |steps| && Exec(steps[..k]).Some? && Found(Exec(steps[..k]).value, steps[k], n)
    decreases |steps|
  {
    hide After, Enabled, Found;
    if steps == [] {
      assert s == START;
    } else {
      var m := |steps| - 1;
      var init := steps[..m];
      var before := Exec(init).value;
      MarkedExactly(init, before, n);
      FoundExactly(before, steps[m], n);
      forall k | 0 <= k < m ensures init[..k] == steps[..k] && init[k] == steps[k] {}
    }
  }

  lemma FoundExactly(s: State, step: Step, n: nat)
    requires Enabled(s, step)
    ensures n in After(s, step).cancelled <==> n in s.cancelled || Found(s, step, n)
  {
    MarksExactly(s, step, n);
    hide After;
  }

  /** A request is answered as cancelled if and only if a cancellation of its id found it in one of the two queues. */
  lemma CancelledExactly(steps: seq<Step>, s: State, i: nat)
    requires Exec(steps) == Some(s) && i < |s.replies|
    ensures s.replies[i].outcome == Cancelled <==>
              exists k :: 0 <= k < |steps| && Exec(steps[..k]).Some? &&
                          Found(Exec(steps[..k]).value, steps[k], s.replies[i].to)
  {
    InvHolds(steps);
    hide Found, Exec;
    MarkedExactly(steps, s, s.replies[i].to);
  }

  /** Nobody waits for anybody but the queues: in every run each thread that has something to do can do it,
      and four queries can run at a time. */
  lemma ThreadsRunFreely(steps: seq<Step>, s: State)
    requires Exec(steps) == Some(s)
    ensures s.reader == Reading ==> Enabled(s, Stop) && forall m :: Enabled(s, Receive(m))
    ensures s.reader.Cancelling? ==> Enabled(s, CancelHandedOff)
    ensures s.coord == Waiting ==> Enabled(s, if s.work != [] then Take else Drain) || (s.work == [] && s.reader != Joining)
    ensures s.coord.Handling? ==> Enabled(s, Dispatch)
    ensures s.coord.HandingOff? ==> Enabled(s, HandOff)
    ensures s.coord == Closing ==> Enabled(s, CloseRequests)
    ensures |s.running| + s.exited < 4 && s.requests != [] ==> Enabled(s, StartQuery)
    ensures |s.running| + s.exited < 4 && s.requests == [] && s.coord == Done ==> Enabled(s, Exit)
    ensures forall k :: 0 <= k < |s.running| ==> Enabled(s, FinishQuery(k))
    ensures |s.running| <= 4
  {
    hide ContextsPinned, CancelsAsked, RepliesMatch, RepliesRight, RefusedRight, MarksRight, CallsFrom, Executed, OnePlace, Exec;
    InvHolds(steps);
    forall k | 0 <= k < |s.running| ensures Enabled(s, FinishQuery(k)) {
      Placed(s, s.running[k]);
    }
  }

  // ---- shutdown ends ---------------------------------------------------------------------------

  function Busyness(c: Coord): nat {
    match c
    case Handling(_) => 7
    case HandingOff(_) => 5
    case Waiting => 2
    case Closing => 1
    case Done => 0
  }

  /** Work left for the coordinator and the pool. */
  function Left(s: State): int {
    6 * |s.work| + Busyness(s.coord) + 2 * |s.requests| + |s.running| + (NUM_QUERY_WORKERS - s.exited)
  }

  /** After the reader stops, some thread can always move until all have ended, and every move leaves less to do. */
  lemma ShutdownEnds(steps: seq<Step>, s: State)
    ensures Exec(steps) == Some(s) && s.reader == Joining ==>
              && (Stopped(s) || exists step :: Enabled(s, step))
              && forall step :: Enabled(s, step) ==>
                   0 <= Left(After(s, step)) < Left(s) && After(s, step).reader == Joining
  {
    hide OnePlace, ContextsPinned, CancelsAsked, RepliesMatch, RepliesRight, RefusedRight, MarksRight, CallsFrom, Executed;
    InvHolds(steps);
    if Exec(steps) == Some(s) && s.reader == Joining {
      if !Stopped(s) {
        SomeThreadMoves(s);
      }
      forall step | Enabled(s, step)
        ensures 0 <= Left(After(s, step)) < Left(s) && After(s, step).reader == Joining
      {
        KeepsShutdown(s, step);
      }
    }
  }

  lemma SomeThreadMoves(s: State)
    requires Inv(s) && s.reader == Joining && !Stopped(s)
    ensures exists step :: Enabled(s, step)
  {
    hide OnePlace, ContextsPinned, CancelsAsked, RepliesMatch, RepliesRight, RefusedRight, MarksRight, CallsFrom, Executed;
    match s.coord
    case Waiting => assert Enabled(s, if s.work != [] then Take else Drain);
    case Handling(n) => assert Enabled(s, Dispatch);
    case HandingOff(_) => assert Enabled(s, HandOff);
    case Closing => assert Enabled(s, CloseRequests);
    case Done =>
      if s.running != [] {
        Running(s);
        assert Enabled(s, FinishQuery(0));
      } else {
        assert Enabled(s, if s.requests != [] then StartQuery else Exit);
      }
  }

  lemma Running(s: State)
    requires OnePlace(s) && s.running != []
    ensures s.running[0] < |s.log| && s.log[s.running[0]].Call?
  {
    Placed(s, s.running[0]);
  }
}
