/**
 * The semantic-token buffer of a snapshot, computed by whoever asks first and published by compare and
 * exchange. Any number of threads may be inside the function at once.
 */
module SemMemo {
  import opened Lsp
  import opened DocumentStore

  /** Where a caller is: about to load, holding a computed buffer, or returned with one. */
  datatype Caller = Entered | Computed(buf: nat) | Returned(buf: nat)

  /** Buffers are named by allocation order; contents are what was computed into them. */
  datatype State = State(
    memo: Option<nat>, callers: map<nat, Caller>, contents: seq<seq<uint32>>, freed: seq<nat>, writes: nat)

  datatype Step = Enter(c: nat) | Load(c: nat) | CompareExchange(c: nat)

  ghost predicate Enabled(s: State, step: Step) {
    match step
    case Enter(c) => c !in s.callers
    case Load(c) => c in s.callers && s.callers[c] == Entered
    case CompareExchange(c) => c in s.callers && s.callers[c].Computed?
  }

  /** The load either finds the memo or goes on to compute; the exchange publishes or frees and adopts. */
  ghost function After(s: State, step: Step, pure: seq<uint32>): State
    requires Enabled(s, step)
  {
    match step
    case Enter(c) => s.(callers := s.callers[c := Entered])
    case Load(c) =>
      if s.memo.Some? then s.(callers := s.callers[c := Returned(s.memo.value)])
      else s.(callers := s.callers[c := Computed(|s.contents|)], contents := s.contents + [pure])
    case CompareExchange(c) =>
      var mine := s.callers[c].buf;
      if s.memo.None? then s.(memo := Some(mine), callers := s.callers[c := Returned(mine)], writes := s.writes + 1)
      else s.(callers := s.callers[c := Returned(s.memo.value)], freed := s.freed + [mine])
  }

  ghost predicate Owned(s: State, b: nat) {
    exists c :: c in s.callers && s.callers[c] == Computed(b)
  }

  /** Each buffer is in exactly one place: published, in the hands of one thread, or freed once. */
  ghost predicate OnePlace(s: State) {
    && (forall b: nat :: b < |s.contents| <==> s.memo == Some(b) || Owned(s, b) || b in s.freed)
    && (forall c :: c in s.callers && s.callers[c].Computed? ==> s.memo != Some(s.callers[c].buf) && s.callers[c].buf !in s.freed)
    && (forall c, d :: c in s.callers && d in s.callers && s.callers[c].Computed? && s.callers[c] == s.callers[d] ==> c == d)
    && (s.memo.Some? ==> s.memo.value !in s.freed)
    && (forall i, j :: 0 <= i < j < |s.freed| ==> s.freed[i] != s.freed[j])
  }

  ghost predicate Inv(s: State, pure: seq<uint32>) {
    && OnePlace(s)
    && (forall b :: 0 <= b < |s.contents| ==> s.contents[b] == pure)
    && s.writes == (if s.memo.Some? then 1 else 0)
    && (forall c :: c in s.callers && s.callers[c].Returned? ==> s.memo == Some(s.callers[c].buf))
  }

  lemma KeepsOnePlace(s: State, step: Step, pure: seq<uint32>)
    requires OnePlace(s) && Enabled(s, step)
    ensures OnePlace(After(s, step, pure))
  {
    var t := After(s, step, pure);
    forall b: nat ensures b < |t.contents| <==> t.memo == Some(b) || Owned(t, b) || b in t.freed {
      if Owned(s, b) {
        var c :| c in s.callers && s.callers[c] == Computed(b);
        assert c in t.callers && (t.callers[c] == Computed(b) || step == CompareExchange(c));
      }
      if Owned(t, b) {
        var c :| c in t.callers && t.callers[c] == Computed(b);
        assert step == Load(c) || (c in s.callers && s.callers[c] == Computed(b));
      }
      if step.Load? && b == |s.contents| && s.memo.None? {
        assert t.callers[step.c] == Computed(b);
      }
    }
  }

  ghost function Exec(steps: seq<Step>, pure: seq<uint32>): Option<State> {
    if steps == [] then Some(State(None, map[], [], [], 0))
    else
      match Exec(steps[..|steps| - 1], pure)
      case None => None
      case Some(s) => if Enabled(s, steps[|steps| - 1]) then Some(After(s, steps[|steps| - 1], pure)) else None
  }

  lemma {:induction false} InvHolds(steps: seq<Step>, pure: seq<uint32>)
    ensures Exec(steps, pure).Some? ==> Inv(Exec(steps, pure).value, pure)
    decreases |steps|
  {
    if steps != [] {
      InvHolds(steps[..|steps| - 1], pure);
      var before := Exec(steps[..|steps| - 1], pure);
      var step := steps[|steps| - 1];
      if before.Some? && Enabled(before.value, step) {
        KeepsOnePlace(before.value, step, pure);
      }
    }
  }

  /**
   * Whatever the interleaving of first callers: the memo is written at most once, everyone who returns
   * has the same buffer, it holds the pure computation, and it is not freed.
   */
  lemma EveryoneGetsTheMemo(steps: seq<Step>, d: DocSnapshot, s: State, c: nat, e: nat)
    requires Exec(steps, Tokens(d)) == Some(s)
    requires c in s.callers && e in s.callers && s.callers[c].Returned? && s.callers[e].Returned?
    ensures s.writes == 1 && s.callers[c] == s.callers[e] && s.memo == Some(s.callers[c].buf)
    ensures var b := s.callers[c].buf; b < |s.contents| && s.contents[b] == Tokens(d) && b !in s.freed
  {
    InvHolds(steps, Tokens(d));
  }

  /** Once every caller has returned, all buffers but the published one have been freed, each once. */
  lemma LosersAreFreed(steps: seq<Step>, pure: seq<uint32>, s: State, b: nat)
    requires Exec(steps, pure) == Some(s) && b < |s.contents|
    requires forall c :: c in s.callers ==> s.callers[c].Returned?
    ensures s.memo != Some(b) <==> b in s.freed
    ensures forall i, j :: 0 <= i < j < |s.freed| ==> s.freed[i] != s.freed[j]
  {
    InvHolds(steps, pure);
  }

  /** A caller that finds the memo returns it and computes nothing; one that finds none computes a buffer of its own. */
  lemma LoadTakesTheMemo(s: State, c: nat, pure: seq<uint32>)
    requires Enabled(s, Load(c))
    ensures var t := After(s, Load(c), pure);
            && t.memo == s.memo && t.freed == s.freed
            && (s.memo.Some? ==> t.callers[c] == Returned(s.memo.value) && t.contents == s.contents)
            && (s.memo.None? ==> t.callers[c] == Computed(|s.contents|) && t.contents == s.contents + [pure])
  {}

  /** No caller waits for another: anyone may enter, and whoever is inside may go on. */
  lemma CallersRunFreely(s: State, c: nat)
    ensures c !in s.callers ==> Enabled(s, Enter(c))
    ensures c in s.callers && s.callers[c] == Entered ==> Enabled(s, Load(c))
    ensures c in s.callers && s.callers[c].Computed? ==> Enabled(s, CompareExchange(c))
  {}
}
