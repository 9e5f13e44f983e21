/**
 * One project's diagnostics worker, the coordinator that asks it for runs, and what the client shows.
 * A step is one critical section or one message; what a snapshot's run finds is part of the request.
 */
module DiagWorker {
  import opened Lsp
  import opened Diagnostics

  datatype Coord = Idle | Baselining(left: seq<Uri>) | Joining | Joined

  datatype Worker = Waiting | Sending(run: nat, outbox: seq<Message>) | Clearing(outbox: seq<Message>) | Exited

  /** requested and ran are history: the snapshots asked for, and the numbers of those run, in order. */
  datatype State = State(
    pending: Option<nat>, stop: bool, clearOnStop: bool, last: seq<DiagFile>,
    coord: Coord, worker: Worker, view: View,
    requested: seq<seq<DiagFile>>, ran: seq<nat>)

  const START := State(None, false, false, [], Idle, Waiting, map[], [], [])

  datatype Step =
    | Revalidate(uris: seq<Uri>) | SendBaseline | Request(found: seq<DiagFile>) | Retire(clear: bool) | Join
    | StartRun | Send | FinishRun | Exit | SendClear | FinishClear
    | Elsewhere(m: Message)

  /** own: the documents no other worker publishes. */
  ghost predicate Enabled(s: State, step: Step, own: set<Uri>) {
    match step
    case Revalidate(_) => s.coord == Idle
    case SendBaseline => s.coord.Baselining? && s.coord.left != []
    case Request(found) => s.coord == Baselining([]) && WellFormed(found)
    case Retire(_) => s.coord == Baselining([]) || s.coord == Idle
    case Join => s.coord == Joining && s.worker == Exited
    case StartRun => s.worker == Waiting && !s.stop && s.pending.Some? && s.pending.value < |s.requested|
    case Send => s.worker.Sending? && s.worker.outbox != []
    case FinishRun => s.worker.Sending? && s.worker.outbox == [] && s.worker.run < |s.requested|
    case Exit => s.worker == Waiting && s.stop
    case SendClear => s.worker.Clearing? && s.worker.outbox != []
    case FinishClear => s.worker.Clearing? && s.worker.outbox == []
    case Elsewhere(m) => m.uri !in own
  }

  ghost function After(s: State, step: Step, own: set<Uri>): State
    requires Enabled(s, step, own)
  {
    match step
    case Revalidate(uris) => s.(coord := Baselining(uris))
    case SendBaseline => s.(coord := Baselining(s.coord.left[1..]), view := Receive(s.view, Publish(s.coord.left[0], [])))
    case Request(found) => s.(coord := Idle, pending := Some(|s.requested|), requested := s.requested + [found])
    case Retire(clear) => s.(coord := Joining, stop := true, clearOnStop := clear)
    case Join => s.(coord := Joined)
    case StartRun =>
      var k := s.pending.value;
      s.(pending := None, worker := Sending(k, PublishMessages(s.requested[k], s.last)), ran := s.ran + [k])
    case Send =>
      s.(worker := Sending(s.worker.run, s.worker.outbox[1..]), view := Receive(s.view, s.worker.outbox[0]))
    case FinishRun => s.(worker := Waiting, last := s.requested[s.worker.run])
    case Exit =>
      s.(pending := None, worker := if s.clearOnStop then Clearing(PublishMessages([], s.last)) else Exited)
    case SendClear =>
      s.(worker := Clearing(s.worker.outbox[1..]), view := Receive(s.view, s.worker.outbox[0]))
    case FinishClear => s.(worker := Exited)
    case Elsewhere(m) => s.(view := Receive(s.view, m))
  }

  ghost function Exec(steps: seq<Step>, own: set<Uri>): Option<State> {
    if steps == [] then Some(START)
    else
      match Exec(steps[..|steps| - 1], own)
      case None => None
      case Some(s) =>
        if Enabled(s, steps[|steps| - 1], own) then Some(After(s, steps[|steps| - 1], own)) else None
  }

  // ---- which snapshots are run -----------------------------------------------------------------

  ghost predicate Newest(s: State) {
    s.requested == [] || (s.ran != [] && s.ran[|s.ran| - 1] == |s.requested| - 1)
  }

  ghost predicate OrderInv(s: State) {
    && (forall i :: 0 <= i < |s.requested| ==> WellFormed(s.requested[i])) && WellFormed(s.last)
    && (forall i :: 0 <= i < |s.ran| ==> s.ran[i] < |s.requested|)
    && (forall i, j :: 0 <= i < j < |s.ran| ==> s.ran[i] < s.ran[j])
    && (s.pending.Some? ==>
          s.pending.value == |s.requested| - 1 && forall i :: 0 <= i < |s.ran| ==> s.ran[i] < s.pending.value)
    && (s.pending.None? && (s.worker.Waiting? || s.worker.Sending?) ==> Newest(s))
    && (s.worker.Sending? ==> s.ran != [] && s.worker.run == s.ran[|s.ran| - 1])
    && (s.worker.Waiting? ==> s.last == if s.ran == [] then [] else s.requested[s.ran[|s.ran| - 1]])
    && (s.coord.Joining? || s.coord.Joined? <==> s.stop)
    && (s.worker.Clearing? || s.worker.Exited? ==> s.stop && s.pending == None)
    && (s.coord.Joined? ==> s.worker.Exited?)
  }

  lemma KeepsOrder(s: State, step: Step, own: set<Uri>)
    requires OrderInv(s) && Enabled(s, step, own)
    ensures OrderInv(After(s, step, own))
  {
    hide WellFormed, PublishMessages, Receive;
  }

  // ---- what the client shows -------------------------------------------------------------------

  ghost predicate Queued(outbox: seq<Message>, uri: Uri) {
    exists i :: 0 <= i < |outbox| && outbox[i].uri == uri
  }

  /** Queued messages about a document say what the run found for it. */
  ghost predicate Says(outbox: seq<Message>, uri: Uri, items: seq<Diagnostic>) {
    forall i :: 0 <= i < |outbox| && outbox[i].uri == uri ==> outbox[i].items == items
  }

  /** No request is on its way: the newest one is with the worker, which no baseline has overtaken. */
  ghost predicate Settled(s: State) {
    s.coord.Idle? && s.pending.None?
  }

  ghost predicate ViewInv(s: State, u: Uri)
    requires OrderInv(s)
  {
    match s.worker
    case Waiting =>
      && (Shown(s.view, u) != [] ==> ItemsOf(s.last, u) != [])
      && (Settled(s) ==> Shown(s.view, u) == ItemsOf(s.last, u))
    case Sending(k, outbox) =>
      var items := ItemsOf(s.requested[k], u);
      && Says(outbox, u, items)
      && (Shown(s.view, u) != [] ==> items != [] || Queued(outbox, u))
      && (Settled(s) ==> Queued(outbox, u) || Shown(s.view, u) == items)
    case Clearing(outbox) => Says(outbox, u, []) && (Shown(s.view, u) != [] ==> Queued(outbox, u))
    case Exited => s.clearOnStop ==> Shown(s.view, u) == []
  }

  lemma PublishQueues(current: seq<DiagFile>, previous: seq<DiagFile>, u: Uri)
    requires WellFormed(current) && WellFormed(previous)
    ensures var outbox := PublishMessages(current, previous);
            && Says(outbox, u, ItemsOf(current, u))
            && (Queued(outbox, u) <==> ItemsOf(current, u) != [] || ItemsOf(previous, u) != [])
  {
    hide PublishMessages, ItemsOf, WellFormed, Has;
    var outbox := PublishMessages(current, previous);
    HasExactly(current, u);
    HasExactly(previous, u);
    forall i | 0 <= i < |outbox| && outbox[i].uri == u
      ensures outbox[i].items == ItemsOf(current, u) && (Has(current, u) || Has(previous, u))
    {
      assert outbox[i] in outbox;
      MessagesSent(current, previous, outbox[i]);
    }
    if Has(current, u) || Has(previous, u) {
      MessagesSent(current, previous, Publish(u, ItemsOf(current, u)));
      assert Publish(u, ItemsOf(current, u)) in outbox;
    }
  }

  lemma SentOne(outbox: seq<Message>, u: Uri, items: seq<Diagnostic>)
    requires outbox != [] && Says(outbox, u, items)
    ensures Says(outbox[1..], u, items)
    ensures Queued(outbox, u) ==> outbox[0].uri == u || Queued(outbox[1..], u)
    ensures outbox[0].uri == u ==> outbox[0].items == items
  {
    if i :| 0 <= i < |outbox| && outbox[i].uri == u {
      assert i > 0 ==> outbox[1..][i - 1].uri == u;
    }
  }

  lemma KeepsView(s: State, step: Step, own: set<Uri>, u: Uri)
    requires OrderInv(s) && ViewInv(s, u) && u in own && Enabled(s, step, own)
    requires OrderInv(After(s, step, own))
    ensures ViewInv(After(s, step, own), u)
  {
    hide WellFormed, PublishMessages, ItemsOf, Says, Queued;
    match step
    case StartRun => PublishQueues(s.requested[s.pending.value], s.last, u);
    case Send => SentOne(s.worker.outbox, u, ItemsOf(s.requested[s.worker.run], u));
    case SendClear => SentOne(s.worker.outbox, u, []);
    case Exit => NothingThere(u); PublishQueues([], s.last, u);
    case FinishRun => NothingThere(u);
    case FinishClear => NothingThere(u);
    case _ =>
  }

  lemma NothingThere(u: Uri)
    ensures WellFormed([]) && ItemsOf([], u) == [] && !Queued([], u)
  {}

  lemma {:induction false} InvHolds(steps: seq<Step>, own: set<Uri>)
    ensures Exec(steps, own).Some? ==>
              OrderInv(Exec(steps, own).value) && forall u :: u in own ==> ViewInv(Exec(steps, own).value, u)
    decreases |steps|
  {
    hide OrderInv, ViewInv, Enabled, After;
    if steps == [] {
      StartInv();
    } else {
      InvHolds(steps[..|steps| - 1], own);
      var before := Exec(steps[..|steps| - 1], own);
      var step := steps[|steps| - 1];
      if before.Some? && Enabled(before.value, step, own) {
        KeepsOrder(before.value, step, own);
        forall u | u in own ensures ViewInv(After(before.value, step, own), u) {
          KeepsView(before.value, step, own, u);
        }
      }
    }
  }

  lemma StartInv()
    ensures OrderInv(START) && forall u :: ViewInv(START, u)
  {}

  // ---- what a worker promises ------------------------------------------------------------------

  /** The worker runs an in-order subsequence of what was requested, and when idle has run the newest. */
  lemma RunsNewestInOrder(steps: seq<Step>, own: set<Uri>, s: State)
    requires Exec(steps, own) == Some(s)
    ensures forall i :: 0 <= i < |s.ran| ==> s.ran[i] < |s.requested|
    ensures forall i, j :: 0 <= i < j < |s.ran| ==> s.ran[i] < s.ran[j]
    ensures s.worker == Waiting && s.pending == None && s.requested != [] ==>
              s.ran != [] && s.ran[|s.ran| - 1] == |s.requested| - 1
  {
    InvHolds(steps, own);
  }

  /**
   * At quiescence, whatever baselines and runs were interleaved, the client shows for each of the
   * worker's own documents exactly what the newest snapshot's run found: stale ones show nothing.
   */
  lemma QuiescentViewIsNewest(steps: seq<Step>, own: set<Uri>, s: State, u: Uri)
    requires Exec(steps, own) == Some(s) && u in own
    requires s.worker == Waiting && Settled(s) && s.requested != []
    ensures Shown(s.view, u) == ItemsOf(s.requested[|s.requested| - 1], u)
  {
    hide ItemsOf, WellFormed;
    InvHolds(steps, own);
    assert ViewInv(s, u);
  }

  /** A worker is retired at most once, and stops as that retirement said. */
  lemma {:induction false} StopsAsRetired(steps: seq<Step>, own: set<Uri>, s: State, k: nat, clear: bool)
    requires Exec(steps, own) == Some(s) && k < |steps| && steps[k] == Retire(clear)
    ensures s.stop && s.clearOnStop == clear
    decreases |steps|
  {
    hide OrderInv, ViewInv, Enabled, After;
    var m := |steps| - 1;
    InvHolds(steps[..m], own);
    var before := Exec(steps[..m], own).value;
    if k < m {
      StopsAsRetired(steps[..m], own, before, k, clear);
    }
    StopStays(before, steps[m], own);
  }

  lemma StopStays(s: State, step: Step, own: set<Uri>)
    requires OrderInv(s) && Enabled(s, step, own)
    ensures var t := After(s, step, own);
            && (s.stop ==> t.stop && t.clearOnStop == s.clearOnStop)
            && (step.Retire? ==> t.stop && t.clearOnStop == step.clear)
  {
    hide WellFormed, PublishMessages, Receive;
  }

  /** A worker retired with its project leaves none of its markers behind. */
  lemma RetiredLeavesNothing(steps: seq<Step>, own: set<Uri>, s: State, k: nat, u: Uri)
    requires Exec(steps, own) == Some(s) && u in own && s.worker == Exited
    requires k < |steps| && steps[k] == Retire(true)
    ensures Shown(s.view, u) == [] && s.pending == None
  {
    hide Exec;
    StopsAsRetired(steps, own, s, k, true);
    InvHolds(steps, own);
    assert ViewInv(s, u);
  }

  /** After a retirement without clearing, a worker that runs nothing changes nothing. */
  lemma {:induction false} SilentOnceStopped(steps: seq<Step>, own: set<Uri>, k: nat, s: State, t: State, u: Uri)
    requires k <= |steps| && Exec(steps[..k], own) == Some(s) && Exec(steps, own) == Some(t) && u in own
    requires s.stop && !s.clearOnStop && (s.worker.Waiting? || s.worker.Exited?)
    ensures t.stop && !t.clearOnStop && (t.worker.Waiting? || t.worker.Exited?)
    ensures s.worker.Exited? ==> t.worker.Exited?
    ensures Shown(t.view, u) == Shown(s.view, u)
    decreases |steps|
  {
    if k == |steps| {
      assert steps[..k] == steps;
    } else {
      var m := |steps| - 1;
      var init := steps[..m];
      assert init[..k] == steps[..k];
      SilentOnceStopped(init, own, k, s, Exec(init, own).value, u);
      InvHolds(init, own);
      hide Exec, ViewInv, PublishMessages;
      SilentStep(Exec(init, own).value, steps[m], own, u);
    }
  }

  lemma SilentStep(s: State, step: Step, own: set<Uri>, u: Uri)
    requires OrderInv(s) && Enabled(s, step, own) && u in own
    requires s.stop && !s.clearOnStop && (s.worker.Waiting? || s.worker.Exited?)
    ensures var t := After(s, step, own);
            && t.stop && !t.clearOnStop && (t.worker.Waiting? || t.worker.Exited?)
            && (s.worker.Exited? ==> t.worker.Exited?) && Shown(t.view, u) == Shown(s.view, u)
  {
    hide PublishMessages, WellFormed;
  }

  /** At the end of the server a worker exits at once and says nothing more. */
  lemma SilentAfterExit(steps: seq<Step>, own: set<Uri>, j: nat, k: nat, s: State, t: State, u: Uri)
    requires j < k < |steps| && steps[j] == Retire(false) && steps[k] == Exit && u in own
    requires Exec(steps[..k], own) == Some(s) && Exec(steps, own) == Some(t)
    ensures t.worker == Exited && Shown(t.view, u) == Shown(s.view, u)
  {
    hide After, ViewInv, OrderInv;
    var upTo := steps[..k + 1];
    assert upTo[..k] == steps[..k] && steps[..k][j] == steps[j];
    StopsAsRetired(steps[..k], own, s, j, false);
    PrefixRuns(steps, own, k + 1);
    ExitsAtOnce(s, own);
    SilentOnceStopped(steps, own, k + 1, After(s, Exit, own), t, u);
  }

  lemma ExitsAtOnce(s: State, own: set<Uri>)
    requires s.stop && !s.clearOnStop && Enabled(s, Exit, own)
    ensures var t := After(s, Exit, own); t.worker == Exited && t.view == s.view && t.stop && !t.clearOnStop
  {}

  lemma {:induction false} PrefixRuns(steps: seq<Step>, own: set<Uri>, k: nat)
    requires k <= |steps| && Exec(steps, own).Some?
    ensures Exec(steps[..k], own).Some?
    decreases |steps|
  {
    hide Enabled, After;
    if k == |steps| {
      assert steps[..k] == steps;
    } else {
      PrefixRuns(steps[..|steps| - 1], own, k);
      assert steps[..|steps| - 1][..k] == steps[..k];
    }
  }

  /** A worker shut down when it had run the newest request leaves the client with what that run found. */
  lemma ShutdownKeepsNewest(steps: seq<Step>, own: set<Uri>, k: nat, s: State, t: State, u: Uri)
    requires k < |steps| && steps[k] == Retire(false) && u in own
    requires Exec(steps[..k], own) == Some(s) && Exec(steps, own) == Some(t)
    requires s.worker == Waiting && Settled(s) && s.requested != []
    ensures Shown(t.view, u) == ItemsOf(s.requested[|s.requested| - 1], u)
  {
    hide After, ViewInv, OrderInv, ItemsOf;
    QuiescentViewIsNewest(steps[..k], own, s, u);
    var upTo := steps[..k + 1];
    assert upTo[..k] == steps[..k];
    PrefixRuns(steps, own, k + 1);
    RetireOnly(s, own);
    SilentOnceStopped(steps, own, k + 1, After(s, Retire(false), own), t, u);
  }

  lemma RetireOnly(s: State, own: set<Uri>)
    requires Enabled(s, Retire(false), own)
    ensures var t := After(s, Retire(false), own);
            t.worker == s.worker && t.view == s.view && t.stop && !t.clearOnStop
  {}

  /** The coordinator goes on after a retirement only when the worker has exited, with nothing left pending. */
  lemma JoinedIsExited(steps: seq<Step>, own: set<Uri>, s: State)
    requires Exec(steps, own) == Some(s) && s.coord == Joined
    ensures s.worker == Exited && s.pending == None
  {
    hide ViewInv, WellFormed;
    InvHolds(steps, own);
  }

  /** While work is left, worker or coordinator can move: a request is always run or overtaken, a retirement ends. */
  lemma NeverStuck(steps: seq<Step>, own: set<Uri>, s: State)
    requires Exec(steps, own) == Some(s)
    ensures s.worker.Exited? || (s.worker.Waiting? && s.pending.None? && !s.stop)
         || exists step :: step in {StartRun, Send, FinishRun, Exit, SendClear, FinishClear} && Enabled(s, step, own)
    ensures s.coord.Joining? && s.worker.Exited? ==> Enabled(s, Join, own)
    ensures s.coord.Idle? ==> forall uris :: Enabled(s, Revalidate(uris), own)
    ensures s.coord.Baselining? && s.coord.left != [] ==> Enabled(s, SendBaseline, own)
    ensures s.coord == Baselining([]) ==> forall found :: WellFormed(found) ==> Enabled(s, Request(found), own)
    ensures s.coord.Idle? || s.coord == Baselining([]) ==> forall clear :: Enabled(s, Retire(clear), own)
  {
    hide WellFormed, ViewInv;
    InvHolds(steps, own);
    match s.worker
    case Waiting => assert Enabled(s, Exit, own) || Enabled(s, StartRun, own) || (s.pending.None? && !s.stop);
    case Sending(_, outbox) => assert Enabled(s, Send, own) || Enabled(s, FinishRun, own);
    case Clearing(outbox) => assert Enabled(s, SendClear, own) || Enabled(s, FinishClear, own);
    case Exited =>
  }
}
