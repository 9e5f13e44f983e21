/** The O(ND) diff over token sequences: forward search with V snapshots, backtrace, coalescing. */
module MyersDiff {
  import opened EditScripts
  import opened FurthestReaching

  const D_BOUND: nat := 1024

  /** One coalesced edit, in tokens: replace deleteTok tokens of the old sequence from startTok on
      by insertTok tokens of the new sequence from insertBStart on. */
  datatype EditOp = EditOp(startTok: nat, deleteTok: nat, insertBStart: nat, insertTok: nat)

  function TotalEdits(ops: seq<EditOp>): nat {
    if ops == [] then 0
    else var o := ops[|ops| - 1]; TotalEdits(ops[..|ops| - 1]) + o.deleteTok + o.insertTok
  }

  /** At least one kept token lies between two consecutive edits. */
  ghost predicate Separated(ops: seq<EditOp>) {
    forall i :: 0 < i < |ops| ==> ops[i - 1].startTok + ops[i - 1].deleteTok < ops[i].startTok
  }

  /** ops, placed at offsets ao and bo, turn the first x elements of a into the first y elements
      of b: what lies between edits is shared, what an edit inserts comes from b. */
  ghost predicate Builds<T>(ops: seq<EditOp>, a: seq<T>, b: seq<T>, ao: nat, bo: nat, x: nat, y: nat)
    decreases |ops|
  {
    && x <= |a| && y <= |b|
    && if ops == [] then x == y && a[..x] == b[..y]
       else
         var o := ops[|ops| - 1];
         && ao <= o.startTok && bo <= o.insertBStart
         && SharedTail(a, b, o.startTok - ao + o.deleteTok, o.insertBStart - bo + o.insertTok, x, y)
         && Builds(ops[..|ops| - 1], a, b, ao, bo, o.startTok - ao, o.insertBStart - bo)
  }

  ghost predicate SharedTail<T>(a: seq<T>, b: seq<T>, x1: nat, y1: nat, x: nat, y: nat) {
    x1 <= x <= |a| && y1 <= y <= |b| && a[x1..x] == b[y1..y]
  }

  /** Offset of snapshot d in the triangular snapshot buffer. */
  function SnapshotOffset(d: nat): nat {
    d * (d + 1) / 2
  }

  lemma SnapshotOffsetStep(d: nat)
    ensures SnapshotOffset(d + 1) == SnapshotOffset(d) + d + 1
  {
    assert (d + 1) * (d + 2) == d * (d + 1) + 2 * (d + 1);
  }

  lemma {:induction false} SnapshotOffsetMonotone(d: nat, e: nat)
    requires d <= e
    ensures SnapshotOffset(d) <= SnapshotOffset(e)
    decreases e
  {
    if d < e {
      SnapshotOffsetMonotone(d, e - 1);
      SnapshotOffsetStep(e - 1);
    }
  }

  ghost predicate Snapshots<T>(a: seq<T>, b: seq<T>, snap: seq<int>, n: nat) {
    && SnapshotOffset(n) <= |snap|
    && forall e: nat, i: nat | i <= e < n :: SlotHolds(a, b, snap, e, i)
  }

  ghost predicate SlotHolds<T>(a: seq<T>, b: seq<T>, snap: seq<int>, e: nat, i: nat)
    requires i <= e
  {
    SnapshotOffset(e) + i < |snap| && snap[SnapshotOffset(e) + i] == Furthest(a, b, e, i)
  }

  /** v holds the round-e values, diagonal k at index k + m. */
  ghost predicate HoldsRound<T>(a: seq<T>, b: seq<T>, v: seq<int>, m: nat, e: nat, n: nat) {
    && |v| == 2 * m + 1 && e <= m && n <= e + 1
    && forall i: nat | i < n :: v[Diagonal(e, i) + m] == Furthest(a, b, e, i)
  }

  /** What v must hold when round d is about to work on its i-th diagonal. */
  ghost predicate MidRound<T>(a: seq<T>, b: seq<T>, v: seq<int>, m: nat, d: nat, i: nat) {
    && HoldsRound(a, b, v, m, d, i)
    && (d > 0 ==> HoldsRound(a, b, v, m, d - 1, d))
    && (d == 0 && i == 0 && m > 0 ==> v[1 + m] == 0)
  }

  lemma StoreKeepsPrevious<T>(a: seq<T>, b: seq<T>, v: seq<int>, m: nat, d: nat, i: nat, x: int)
    requires i <= d + 1 <= m && HoldsRound(a, b, v, m, d, d + 1)
    ensures HoldsRound(a, b, v[Diagonal(d + 1, i) + m := x], m, d, d + 1)
  {
  }

  /** Storing the next diagonal of round d keeps the values of round d - 1 still to be read. */
  lemma StoreDiagonal<T>(a: seq<T>, b: seq<T>, v: seq<int>, m: nat, d: nat, i: nat, x: int)
    requires i <= d && MidRound(a, b, v, m, d, i) && x == Furthest(a, b, d, i)
    ensures MidRound(a, b, v[Diagonal(d, i) + m := x], m, d, i + 1)
  {
    hide Furthest;
    if d > 0 {
      StoreKeepsPrevious(a, b, v, m, d - 1, i, x);
    }
  }

  ghost predicate AtCorner<T>(a: seq<T>, b: seq<T>, d: nat, i: nat)
    requires i <= d
  {
    Furthest(a, b, d, i) == |a| && Diagonal(d, i) == |a| - |b|
  }

  ghost predicate MissesCorner<T>(a: seq<T>, b: seq<T>, d: nat, n: nat)
    requires n <= d + 1
  {
    forall i: nat | i < n :: var x := Furthest(a, b, d, i); !(x >= |a| && x - Diagonal(d, i) >= |b|)
  }

  lemma CornerReachedByPoint<T>(a: seq<T>, b: seq<T>, d: nat, i: nat)
    requires i <= d
    requires forall e: nat | e < d :: !Reach(a, b, e, |a|, |b|)
    requires var x := Furthest(a, b, d, i); x >= |a| && x - Diagonal(d, i) >= |b|
    ensures AtCorner(a, b, d, i)
  {
    hide Furthest, Reach;
    var x := Furthest(a, b, d, i);
    FurthestReached(a, b, d, i);
    CornerFirst(a, b, d, x, x - Diagonal(d, i));
  }

  lemma CornerNotReached<T>(a: seq<T>, b: seq<T>, d: nat)
    requires MissesCorner(a, b, d, d + 1)
    ensures !Reach(a, b, d, |a|, |b|)
  {
    if Reach(a, b, d, |a|, |b|) {
      var i := ReachDiagonal(a, b, d, |a|, |b|);
      FurthestIsMaximal(a, b, d, i, |a|, |b|);
    }
  }

  lemma StoredNeighbours<T>(a: seq<T>, b: seq<T>, v: seq<int>, m: nat, d: nat, i: nat)
    requires i <= d && 0 < m && MidRound(a, b, v, m, d, i)
    ensures i < d ==> v[Diagonal(d, i) + 1 + m] == Furthest(a, b, d - 1, i)
    ensures i > 0 ==> v[Diagonal(d, i) - 1 + m] == Furthest(a, b, d - 1, i - 1)
    ensures d == 0 ==> v[1 + m] == 0
  {
    hide Furthest;
    if d > 0 {
      assert i < d ==> Diagonal(d - 1, i) == Diagonal(d, i) + 1;
      assert i > 0 ==> Diagonal(d - 1, i - 1) == Diagonal(d, i) - 1;
    }
  }

  /** The greedy choice, on the two stored neighbours, starts the slide in the right place. */
  lemma ChooseEdge<T>(a: seq<T>, b: seq<T>, d: nat, i: nat, left: int, right: int, x: int)
    requires 0 < d && i <= d
    requires i < d ==> right == Furthest(a, b, d - 1, i)
    requires i > 0 ==> left == Furthest(a, b, d - 1, i - 1)
    requires x == if i == 0 || (i != d && left < right) then right else left + 1
    ensures x >= 0 && x - Diagonal(d, i) >= 0 && Slide(a, b, Diagonal(d, i), x) == Furthest(a, b, d, i)
  {
    hide Furthest, Slide;
    FurthestIsSlide(a, b, d, i);
  }

  method SlideAlong<T(==)>(a: seq<T>, b: seq<T>, k: int, x0: nat) returns (x: nat, y: nat)
    requires x0 - k >= 0
    ensures x == Slide(a, b, k, x0) && y == x - k
  {
    x, y := x0, x0 - k;
    while x < |a| && y < |b| && a[x] == b[y]
      invariant y == x - k && Slide(a, b, k, x) == Slide(a, b, k, x0)
      decreases |a| - x
    {
      x, y := x + 1, y + 1;
    }
  }

  /** The furthest point on diagonal k in round d, from the values of round d - 1 left in v. */
  method ExtendDiagonal<T(==)>(a: seq<T>, b: seq<T>, d: nat, k: int, ghost i: nat, v: array<int>)
    returns (x: nat, y: nat)
    requires 0 < |a| + |b| && i <= d && k == Diagonal(d, i)
    requires MidRound(a, b, v[..], |a| + |b|, d, i)
    ensures x == Furthest(a, b, d, i) && y == x - k
  {
    hide Furthest, Slide;
    var m := |a| + |b|;
    ghost var left := if i > 0 then Furthest(a, b, d - 1, i - 1) else 0;
    ghost var right := if i < d then Furthest(a, b, d - 1, i) else 0;
    StoredNeighbours(a, b, v[..], m, d, i);
    var start: int;
    if k == -(d as int) || (k != d && v[k - 1 + m] < v[k + 1 + m]) {
      start := v[k + 1 + m];
    } else {
      start := v[k - 1 + m] + 1;
    }
    if d == 0 {
      FurthestIsSlide(a, b, d, i);
    } else {
      ChooseEdge(a, b, d, i, left, right, start);
    }
    x, y := SlideAlong(a, b, k, start);
  }

  /** Round d of the search, updating v in place. */
  method SearchRound<T(==)>(a: seq<T>, b: seq<T>, d: nat, v: array<int>) returns (found: bool)
    requires 0 < |a| + |b|
    requires MidRound(a, b, v[..], |a| + |b|, d, 0)
    requires forall e: nat | e < d :: !Reach(a, b, e, |a|, |b|)
    modifies v
    ensures found ==> exists i: nat | i <= d :: AtCorner(a, b, d, i)
    ensures !found ==> HoldsRound(a, b, v[..], |a| + |b|, d, d + 1) && !Reach(a, b, d, |a|, |b|)
  {
    hide Furthest;
    var m := |a| + |b|;
    var k := -(d as int);
    ghost var i: nat := 0;
    found := false;
    while k <= d
      invariant k == Diagonal(d, i) && i <= d + 1
      invariant MidRound(a, b, v[..], m, d, i)
      invariant MissesCorner(a, b, d, i)
      decreases d - k
    {
      var x, y := ExtendDiagonal(a, b, d, k, i, v);
      StoreDiagonal(a, b, v[..], m, d, i, x);
      ghost var before := v[..];
      v[k + m] := x;
      assert v[..] == before[k + m := x];
      if x >= |a| && y >= |b| {
        CornerReachedByPoint(a, b, d, i);
        found := true;
        return;
      }
      k, i := k + 2, i + 1;
    }
    CornerNotReached(a, b, d);
  }

  lemma SnapshotSlots(e: nat, i: nat, d: nat)
    requires i <= e < d
    ensures SnapshotOffset(e) + i < SnapshotOffset(d)
  {
    SnapshotOffsetStep(e);
    SnapshotOffsetMonotone(e + 1, d);
  }

  lemma SnapshotAdded<T>(a: seq<T>, b: seq<T>, s: seq<int>, t: seq<int>, d: nat)
    requires Snapshots(a, b, s, d) && |t| == |s| && SnapshotOffset(d + 1) <= |t|
    requires forall j: nat | j < SnapshotOffset(d) :: t[j] == s[j]
    requires forall j: nat | j <= d :: SlotHolds(a, b, t, d, j)
    ensures Snapshots(a, b, t, d + 1)
  {
    hide Furthest, SnapshotOffset, SlotHolds;
    forall e: nat, i: nat | i <= e < d + 1
      ensures SlotHolds(a, b, t, e, i)
    {
      if e < d {
        assert SlotHolds(a, b, s, e, i);
        SlotKept(a, b, s, t, d, e, i);
      }
    }
  }

  lemma SlotKept<T>(a: seq<T>, b: seq<T>, s: seq<int>, t: seq<int>, d: nat, e: nat, i: nat)
    requires i <= e < d && SlotHolds(a, b, s, e, i) && |t| == |s| && SnapshotOffset(d) <= |s|
    requires forall j: nat | j < SnapshotOffset(d) :: t[j] == s[j]
    ensures SlotHolds(a, b, t, e, i)
  {
    hide Furthest, SnapshotOffset;
    SnapshotSlots(e, i, d);
    var j: nat := SnapshotOffset(e) + i;
    assert t[j] == s[j];
  }

  /** Copies the round-d values into snapshot d. */
  method TakeSnapshot<T>(ghost a: seq<T>, ghost b: seq<T>, d: nat, m: nat, v: array<int>, snap: array<int>)
    requires v != snap && HoldsRound(a, b, v[..], m, d, d + 1)
    requires SnapshotOffset(d + 1) <= snap.Length && Snapshots(a, b, snap[..], d)
    modifies snap
    ensures Snapshots(a, b, snap[..], d + 1)
  {
    hide Furthest, SnapshotOffset;
    var off: nat := SnapshotOffset(d);
    SnapshotOffsetStep(d);
    ghost var before := snap[..];
    for i := 0 to d + 1
      invariant forall j: nat | j < i :: snap[off + j] == Furthest(a, b, d, j)
      invariant forall j: nat | j < off :: snap[j] == before[j]
    {
      assert v[..][Diagonal(d, i) + m] == Furthest(a, b, d, i);
      snap[off + i] := v[-(d as int) + 2 * i + m];
    }
    assert forall j: nat | j <= d :: SlotHolds(a, b, snap[..], d, j);
    SnapshotAdded(a, b, before, snap[..], d);
  }

  /** Rounds 0, 1, .. until the corner (|a|, |b|) is reached, which is the least number of edits. */
  method ForwardSearch<T(==)>(a: seq<T>, b: seq<T>) returns (d: nat, snap: seq<int>)
    requires |a| > 0 && |b| > 0
    ensures d <= |a| + |b|
    ensures exists i: nat | i <= d :: AtCorner(a, b, d, i)
    ensures forall e: nat | e < d :: !Reach(a, b, e, |a|, |b|)
    ensures Snapshots(a, b, snap, d)
  {
    hide Furthest;
    var m := |a| + |b|;
    var v := new int[2 * m + 1](_ => 0);
    var total := SnapshotOffset(m);
    var snaps := new int[total](_ => 0);
    d := 0;
    ReachAxis(a, b, |a|, |b|);
    while true
      invariant d <= m
      invariant MidRound(a, b, v[..], m, d, 0)
      invariant forall e: nat | e < d :: !Reach(a, b, e, |a|, |b|)
      invariant Snapshots(a, b, snaps[..], d)
      decreases m - d
    {
      var found := SearchRound(a, b, d, v);
      if found { break; }
      SnapshotOffsetMonotone(d + 1, m);
      TakeSnapshot(a, b, d, m, v, snaps);
      d := d + 1;
    }
    snap := snaps[..];
  }

  /** The recorded kinds, newest first in the source's own order, still to be turned around, form a
      script from position (x, y) to the ends of both sequences. */
  ghost predicate Recorded<T>(raw: seq<Step>, a: seq<T>, b: seq<T>, x: int, y: int, cost: nat) {
    && 0 <= x <= |a| && 0 <= y <= |b|
    && |raw| + x + y <= |a| + |b|
    && Turns(Reverse(raw), a[x..], b[y..]) && Cost(Reverse(raw)) == cost
  }

  lemma RecordStep<T>(raw: seq<Step>, k: Step, a: seq<T>, b: seq<T>, x: int, y: int, cost: nat)
    requires Recorded(raw, a, b, x, y, cost)
    requires !k.Insert? ==> x > 0
    requires !k.Delete? ==> y > 0
    requires k.Keep? ==> a[x - 1] == b[y - 1]
    ensures Recorded(raw + [k], a, b, if k.Insert? then x else x - 1, if k.Delete? then y else y - 1,
                     if k.Keep? then cost else cost + 1)
  {
    ReverseConcat(raw, [k]);
    assert Reverse([k]) == [k];
    assert x > 0 ==> a[x - 1..][1..] == a[x..];
    assert y > 0 ==> b[y - 1..][1..] == b[y..];
    assert ([k] + Reverse(raw))[1..] == Reverse(raw);
  }

  ghost predicate Matches<T>(a: seq<T>, b: seq<T>, k: int, lo: nat, hi: nat) {
    forall j :: lo <= j < hi ==> j < |a| && 0 <= j - k < |b| && a[j] == b[j - k]
  }

  /** Walks the matches back from (x, y) to (xEdge, yEdge), recording one Keep per match. */
  method RecordSnake<T>(ghost a: seq<T>, ghost b: seq<T>, x0: int, y0: int, xEdge: int, yEdge: int,
                        raw: array<Step>, n0: nat, ghost cost: nat)
    returns (x: int, y: int, n: nat)
    requires n0 <= raw.Length == |a| + |b| && Recorded(raw[..n0], a, b, x0, y0, cost)
    requires 0 <= xEdge <= x0 && 0 <= yEdge && x0 - y0 == xEdge - yEdge
    requires Matches(a, b, x0 - y0, xEdge, x0)
    modifies raw
    ensures n <= raw.Length && Recorded(raw[..n], a, b, x, y, cost)
    ensures x == xEdge && y == yEdge
  {
    x, y, n := x0, y0, n0;
    while x > xEdge && y > yEdge
      invariant n <= raw.Length && Recorded(raw[..n], a, b, x, y, cost)
      invariant xEdge <= x <= x0 && x - y == x0 - y0
    {
      RecordStep(raw[..n], Keep, a, b, x, y, cost);
      ghost var before := raw[..n];
      x, y := x - 1, y - 1;
      raw[n] := Keep;
      n := n + 1;
      assert raw[..n] == before + [Keep];
    }
  }

  /** One round of the backtrace: the predecessor of the point on diagonal i of round d. */
  method Predecessor<T>(ghost a: seq<T>, ghost b: seq<T>, snap: seq<int>, d: nat, x: int, y: int, ghost i: nat)
    returns (down: bool, xPrev: nat, yPrev: nat)
    requires 0 < d && i <= d && Snapshots(a, b, snap, d)
    requires x == Furthest(a, b, d, i) && x - y == Diagonal(d, i)
    ensures down == GoesDown(a, b, d, i)
    ensures xPrev == Furthest(a, b, d - 1, if down then i else i - 1)
    ensures xPrev - yPrev == Diagonal(d - 1, if down then i else i - 1)
  {
    hide Furthest, SnapshotOffset;
    var k := x - y;
    var off := SnapshotOffset(d - 1);
    assert i > 0 ==> SlotHolds(a, b, snap, d - 1, i - 1);
    assert i < d ==> SlotHolds(a, b, snap, d - 1, i);
    if k == -(d as int) {
      down := true;
    } else if k == d {
      down := false;
    } else {
      down := snap[off + (k - 1 + d - 1) / 2] < snap[off + (k + 1 + d - 1) / 2];
    }
    var kPrev := if down then k + 1 else k - 1;
    ghost var j: nat := if down then i else i - 1;
    assert kPrev == Diagonal(d - 1, j) && (kPrev + d - 1) / 2 == j;
    assert snap[off + j] == Furthest(a, b, d - 1, j);
    xPrev := snap[off + (kPrev + d - 1) / 2];
    yPrev := xPrev - kPrev;
  }

  /** The matches of round d between the edge and the stored point. */
  lemma RoundMatches<T>(a: seq<T>, b: seq<T>, d: nat, i: nat, k: int)
    requires 0 < d && i <= d && k == Diagonal(d, i)
    ensures Edge(a, b, d, i) - k >= 0 && Edge(a, b, d, i) <= Furthest(a, b, d, i)
    ensures Matches(a, b, k, Edge(a, b, d, i), Furthest(a, b, d, i))
  {
    hide Furthest;
    FurthestIsSlide(a, b, d, i);
    SlideMatches(a, b, k, Edge(a, b, d, i));
  }

  lemma LeadingMatches<T>(a: seq<T>, b: seq<T>)
    ensures Matches(a, b, 0, 0, Furthest(a, b, 0, 0))
  {
    FurthestIsSlide(a, b, 0, 0);
    SlideMatches(a, b, 0, 0);
  }

  /** Round d of the backtrace: the matches back to the edge, then the edit that reached it. */
  method BacktraceRound<T>(ghost a: seq<T>, ghost b: seq<T>, snap: seq<int>, d: nat, ghost i0: nat,
                           x0: int, y0: int, raw: array<Step>, n0: nat, ghost cost: nat)
    returns (x: int, y: int, n: nat, ghost i: nat)
    requires 0 < d && i0 <= d && Snapshots(a, b, snap, d)
    requires x0 == Furthest(a, b, d, i0) && x0 - y0 == Diagonal(d, i0)
    requires n0 <= raw.Length == |a| + |b| && Recorded(raw[..n0], a, b, x0, y0, cost)
    modifies raw
    ensures i <= d - 1 && x == Furthest(a, b, d - 1, i) && x - y == Diagonal(d - 1, i)
    ensures n <= raw.Length && Recorded(raw[..n], a, b, x, y, cost + 1)
  {
    hide Furthest, Snapshots, Recorded, Matches, Turns, Reverse, Cost;
    var down, xPrev, yPrev := Predecessor(a, b, snap, d, x0, y0, i0);
    RoundMatches(a, b, d, i0, x0 - y0);
    var xEdge, yEdge := if down then xPrev else xPrev + 1, if down then yPrev + 1 else yPrev;
    x, y, n := RecordSnake(a, b, x0, y0, xEdge, yEdge, raw, n0, cost);
    var kind := if down then Insert else Delete;
    RecordStep(raw[..n], kind, a, b, x, y, cost);
    ghost var before := raw[..n];
    if down { y := y - 1; } else { x := x - 1; }
    raw[n] := kind;
    n := n + 1;
    assert raw[..n] == before + [kind];
    i := if down then i0 else i0 - 1;
  }

  /** The matches before the first edit. */
  method RecordLeadingSnake<T>(ghost a: seq<T>, ghost b: seq<T>, x: int, y: int, raw: array<Step>, n0: nat, ghost cost: nat)
    returns (n: nat)
    requires x == y == Furthest(a, b, 0, 0)
    requires n0 <= raw.Length == |a| + |b| && Recorded(raw[..n0], a, b, x, y, cost)
    modifies raw
    ensures n <= raw.Length && Recorded(raw[..n], a, b, 0, 0, cost)
  {
    hide Furthest, Recorded, Matches;
    LeadingMatches(a, b);
    var _, _, m := RecordSnake(a, b, x, y, 0, 0, raw, n0, cost);
    n := m;
  }

  lemma OriginDiagonal()
    ensures Diagonal(0, 0) == 0
  {
  }

  lemma CornerIndex<T>(a: seq<T>, b: seq<T>, d: nat) returns (i: nat)
    requires exists i: nat | i <= d :: AtCorner(a, b, d, i)
    ensures i <= d && Furthest(a, b, d, i) == |a| && Diagonal(d, i) == |a| - |b|
  {
    hide Furthest;
    i :| i <= d && AtCorner(a, b, d, i);
  }

  /** From the corner down to the origin: a script from a to b with exactly d edits, recorded in
      reverse chronological order without ever overrunning the |a| + |b| slots of raw. */
  method Backtrace<T>(ghost a: seq<T>, ghost b: seq<T>, na: nat, nb: nat, dFound: nat, snap: seq<int>)
    returns (kinds: seq<Step>)
    requires na == |a| && nb == |b|
    requires exists i: nat | i <= dFound :: AtCorner(a, b, dFound, i)
    requires Snapshots(a, b, snap, dFound)
    ensures Turns(Reverse(kinds), a, b) && Cost(Reverse(kinds)) == dFound
  {
    hide Furthest, Snapshots, Recorded, Matches, Turns, Reverse, Cost, AtCorner, Diagonal;
    var raw := new Step[na + nb];
    var n: nat := 0;
    var x: int, y: int := na, nb;
    var d := dFound;
    ghost var i: nat := CornerIndex(a, b, dFound);
    RecordedEnds(a, b, [], 0);
    assert raw[..n] == [];
    while d > 0
      invariant d <= dFound && i <= d && Snapshots(a, b, snap, d)
      invariant x == Furthest(a, b, d, i) && x - y == Diagonal(d, i)
      invariant n <= raw.Length && Recorded(raw[..n], a, b, x, y, dFound - d)
    {
      x, y, n, i := BacktraceRound(a, b, snap, d, i, x, y, raw, n, dFound - d);
      SnapshotsShrink(a, b, snap, d);
      d := d - 1;
    }
    OriginDiagonal();
    assert d == 0 && i == 0;
    n := RecordLeadingSnake(a, b, x, y, raw, n, dFound);
    kinds := raw[..n];
    RecordedEnds(a, b, kinds, dFound);
  }

  lemma RecordedEnds<T>(a: seq<T>, b: seq<T>, raw: seq<Step>, cost: nat)
    ensures Recorded<T>([], a, b, |a|, |b|, 0)
    ensures Recorded(raw, a, b, 0, 0, cost) ==> Turns(Reverse(raw), a, b) && Cost(Reverse(raw)) == cost
  {
    assert a[0..] == a && b[0..] == b;
  }

  lemma SnapshotsShrink<T>(a: seq<T>, b: seq<T>, snap: seq<int>, n: nat)
    requires 0 < n && Snapshots(a, b, snap, n)
    ensures Snapshots(a, b, snap, n - 1)
  {
    hide Furthest;
    SnapshotOffsetMonotone(n - 1, n);
  }

  lemma ReverseLast(raw: seq<Step>, n: nat)
    requires 0 < n <= |raw|
    ensures Reverse(raw[..n]) == [raw[n - 1]] + Reverse(raw[..n - 1])
  {
    assert raw[..n] == raw[..n - 1] + [raw[n - 1]];
    ReverseConcat(raw[..n - 1], [raw[n - 1]]);
    assert Reverse([raw[n - 1]]) == [raw[n - 1]];
  }

  /** The kinds not yet grouped still turn the rest of a into the rest of b. */
  ghost predicate Remaining<T>(raw: seq<Step>, n: nat, a: seq<T>, b: seq<T>, x: nat, y: nat, cost: nat) {
    && n <= |raw| && x <= |a| && y <= |b|
    && Turns(Reverse(raw[..n]), a[x..], b[y..]) && Cost(Reverse(raw[..n])) == cost
  }

  lemma TakeKind<T>(raw: seq<Step>, n: nat, a: seq<T>, b: seq<T>, x: nat, y: nat, cost: nat)
    requires 0 < n && Remaining(raw, n, a, b, x, y, cost)
    ensures var k := raw[n - 1];
            && (k.Keep? ==> x < |a| && y < |b| && a[x] == b[y] && Remaining(raw, n - 1, a, b, x + 1, y + 1, cost))
            && (k.Delete? ==> cost > 0 && Remaining(raw, n - 1, a, b, x + 1, y, cost - 1))
            && (k.Insert? ==> cost > 0 && Remaining(raw, n - 1, a, b, x, y + 1, cost - 1))
  {
    ReverseLast(raw, n);
    var r := Reverse(raw[..n]);
    assert r[0] == raw[n - 1] && r[1..] == Reverse(raw[..n - 1]);
    assert x < |a| ==> a[x..][1..] == a[x + 1..];
    assert y < |b| ==> b[y..][1..] == b[y + 1..];
  }

  lemma RemainingBounds<T>(raw: seq<Step>, n: nat, a: seq<T>, b: seq<T>, x: nat, y: nat, cost: nat)
    requires Remaining(raw, n, a, b, x, y, cost)
    ensures n <= |raw| && x <= |a| && y <= |b|
    ensures n == 0 ==> x == |a| && y == |b| && cost == 0
  {
    assert raw[..0] == [];
  }

  lemma CoalesceStart<T>(raw: seq<Step>, a: seq<T>, b: seq<T>, ao: nat, bo: nat, cost: nat)
    requires Turns(Reverse(raw), a, b) && Cost(Reverse(raw)) == cost
    ensures Remaining(raw, |raw|, a, b, 0, 0, cost)
    ensures Builds([], a, b, ao, bo, 0, 0) && TotalEdits([]) == 0
  {
    hide Turns, Reverse, Cost;
    assert raw[..|raw|] == raw && a[0..] == a && b[0..] == b;
  }

  /** Builds extends over a shared element and over one more edit. */
  lemma BuildsKeep<T>(ops: seq<EditOp>, a: seq<T>, b: seq<T>, ao: nat, bo: nat, x: nat, y: nat)
    requires Builds(ops, a, b, ao, bo, x, y) && x < |a| && y < |b| && a[x] == b[y]
    ensures Builds(ops, a, b, ao, bo, x + 1, y + 1)
  {
    if ops == [] {
      SharedTailKeep(a, b, 0, 0, x, y);
    } else {
      var o := ops[|ops| - 1];
      SharedTailKeep(a, b, o.startTok - ao + o.deleteTok, o.insertBStart - bo + o.insertTok, x, y);
    }
  }

  lemma SharedTailKeep<T>(a: seq<T>, b: seq<T>, x1: nat, y1: nat, x: nat, y: nat)
    requires SharedTail(a, b, x1, y1, x, y) && x < |a| && y < |b| && a[x] == b[y]
    ensures SharedTail(a, b, x1, y1, x + 1, y + 1)
  {
    assert a[x1..x + 1] == a[x1..x] + [a[x]] && b[y1..y + 1] == b[y1..y] + [b[y]];
  }

  lemma BuildsEdit<T>(ops: seq<EditOp>, a: seq<T>, b: seq<T>, ao: nat, bo: nat, x: nat, y: nat, del: nat, ins: nat)
    requires x <= |a| && y <= |b| && Builds(ops, a, b, ao, bo, x, y) && x + del <= |a| && y + ins <= |b|
    ensures Builds(ops + [EditOp(ao + x, del, bo + y, ins)], a, b, ao, bo, x + del, y + ins)
    ensures TotalEdits(ops + [EditOp(ao + x, del, bo + y, ins)]) == TotalEdits(ops) + del + ins
  {
    var o := EditOp(ao + x, del, bo + y, ins);
    hide Builds;
    var r := ops + [o];
    assert r[|r| - 1] == o && r[..|r| - 1] == ops;
    assert SharedTail(a, b, x + del, y + ins, x + del, y + ins);
    BuildsLast(r, a, b, ao, bo, x + del, y + ins);
  }

  lemma BuildsLast<T>(ops: seq<EditOp>, a: seq<T>, b: seq<T>, ao: nat, bo: nat, x: nat, y: nat)
    requires x <= |a| && y <= |b| && ops != []
    ensures var o := ops[|ops| - 1];
            Builds(ops, a, b, ao, bo, x, y) <==>
            && ao <= o.startTok && bo <= o.insertBStart
            && SharedTail(a, b, o.startTok - ao + o.deleteTok, o.insertBStart - bo + o.insertTok, x, y)
            && Builds(ops[..|ops| - 1], a, b, ao, bo, o.startTok - ao, o.insertBStart - bo)
  {
    hide SharedTail;
  }

  /** One run of deletions and insertions. */
  method TakeRun<T>(raw: seq<Step>, n0: nat, ghost a: seq<T>, ghost b: seq<T>, x0: nat, y0: nat, ghost cost0: nat)
    returns (n: nat, x: nat, y: nat, del: nat, ins: nat)
    requires 0 < n0 <= |raw| && !raw[n0 - 1].Keep? && Remaining(raw, n0, a, b, x0, y0, cost0)
    ensures n < n0 && (n == 0 || raw[n - 1].Keep?)
    ensures x == x0 + del && y == y0 + ins && 0 < del + ins <= cost0
    ensures Remaining(raw, n, a, b, x, y, cost0 - del - ins)
  {
    hide Remaining;
    n, x, y, del, ins := n0, x0, y0, 0, 0;
    while n > 0 && !raw[n - 1].Keep?
      invariant n <= n0 && (n < n0 <==> 0 < del + ins)
      invariant x == x0 + del && y == y0 + ins && del + ins <= cost0
      invariant Remaining(raw, n, a, b, x, y, cost0 - del - ins)
    {
      TakeKind(raw, n, a, b, x, y, cost0 - del - ins);
      if raw[n - 1].Delete? {
        x, del := x + 1, del + 1;
      } else {
        y, ins := y + 1, ins + 1;
      }
      n := n - 1;
    }
  }

  function EndOf(ops: seq<EditOp>): nat {
    if ops == [] then 0 else ops[|ops| - 1].startTok + ops[|ops| - 1].deleteTok
  }

  /** Groups a script, recorded newest first, into one EditOp per run of edits. */
  method CoalesceEditOps<T>(raw: seq<Step>, ghost a: seq<T>, ghost b: seq<T>, aOffset: nat, bOffset: nat, maxOps: nat)
    returns (result: seq<EditOp>)
    requires Turns(Reverse(raw), a, b) && Cost(Reverse(raw)) == maxOps
    ensures Builds(result, a, b, aOffset, bOffset, |a|, |b|)
    ensures TotalEdits(result) == maxOps && |result| <= maxOps
    ensures Separated(result)
  {
    hide Remaining, Builds, Turns, Reverse, Cost, TotalEdits;
    var ops := new EditOp[maxOps](_ => EditOp(0, 0, 0, 0));
    var n: nat, x: nat, y: nat, idx: nat := 0, 0, 0, |raw|;
    ghost var cost := maxOps;
    CoalesceStart(raw, a, b, aOffset, bOffset, maxOps);
    assert ops[..n] == [];
    while idx > 0
      invariant n + cost <= maxOps == TotalEdits(ops[..n]) + cost
      invariant Remaining(raw, idx, a, b, x, y, cost)
      invariant Builds(ops[..n], a, b, aOffset, bOffset, x, y)
      invariant Separated(ops[..n])
      invariant n > 0 ==> EndOf(ops[..n]) <= aOffset + x
      invariant n > 0 && idx > 0 && !raw[idx - 1].Keep? ==> EndOf(ops[..n]) < aOffset + x
    {
      assert idx <= |raw| by { RemainingBounds(raw, idx, a, b, x, y, cost); }
      if raw[idx - 1].Keep? {
        TakeKind(raw, idx, a, b, x, y, cost);
        BuildsKeep(ops[..n], a, b, aOffset, bOffset, x, y);
        x, y, idx := x + 1, y + 1, idx - 1;
        continue;
      }
      var idx', x', y', del, ins := TakeRun(raw, idx, a, b, x, y, cost);
      RemainingBounds(raw, idx', a, b, x', y', cost - del - ins);
      BuildsEdit(ops[..n], a, b, aOffset, bOffset, x, y, del, ins);
      ghost var before := ops[..n];
      ops[n] := EditOp(aOffset + x, del, bOffset + y, ins);
      n := n + 1;
      assert ops[..n] == before + [EditOp(aOffset + x, del, bOffset + y, ins)];
      idx, x, y := idx', x', y';
      cost := cost - del - ins;
    }
    RemainingBounds(raw, 0, a, b, x, y, cost);
    result := ops[..n];
  }

  /** A script with d edits, where no path of fewer edits reaches the corner, is a shortest one. */
  lemma ShortestScript<T>(s: seq<Step>, a: seq<T>, b: seq<T>, d: nat)
    requires Turns(s, a, b) && Cost(s) == d
    requires forall e: nat | e < d :: !Reach(a, b, e, |a|, |b|)
    ensures Distance(a, b, d)
  {
    forall r | Turns(r, a, b) ensures d <= Cost(r) {
      assert a[0..] == a && b[0..] == b;
      assert Reach(a, b, 0, 0, 0);
      ScriptReaches(r, a, b, 0, 0, 0);
    }
  }

  lemma NoEditsMeansEqual<T>(a: seq<T>, b: seq<T>)
    requires exists i: nat | i <= 0 :: AtCorner(a, b, 0, i)
    ensures a == b
  {
    var i := CornerIndex(a, b, 0);
    LeadingMatches(a, b);
    assert forall j :: 0 <= j < |a| ==> a[j] == b[j - 0];
  }

  lemma NoOps<T>(a: seq<T>, b: seq<T>, ao: nat, bo: nat)
    requires a == b
    ensures Builds([], a, b, ao, bo, |a|, |b|) && TotalEdits([]) == 0
  {
  }

  lemma ReplaceAll<T>(a: seq<T>, b: seq<T>, ao: nat, bo: nat)
    ensures var ops := [EditOp(ao, |a|, bo, |b|)];
            Builds(ops, a, b, ao, bo, |a|, |b|) && TotalEdits(ops) == |a| + |b|
  {
    BuildsEdit([], a, b, ao, bo, 0, 0, |a|, |b|);
    assert [] + [EditOp(ao, |a|, bo, |b|)] == [EditOp(ao, |a|, bo, |b|)];
  }

  /** The whole diff: one edit script over a and b, minimal unless the inputs are too large. */
  method MyersDiffRun<T(==)>(a: seq<T>, b: seq<T>, aOffset: nat, bOffset: nat) returns (ops: seq<EditOp>)
    ensures Builds(ops, a, b, aOffset, bOffset, |a|, |b|) && Separated(ops)
    ensures |a| + |b| <= 1024 ==> Distance(a, b, TotalEdits(ops)) && |ops| <= TotalEdits(ops)
    ensures |a| + |b| > 1024 && a != [] && b != [] ==> |ops| == 1
  {
    hide Furthest, Snapshots, Turns, Distance, Builds, TotalEdits, AtCorner, Reverse, Cost;
    var na, nb := |a|, |b|;
    if na == 0 && nb == 0 {
      NoOps(a, b, aOffset, bOffset);
      DistanceToEmpty(a, b);
      return [];
    }
    if na == 0 || nb == 0 || na + nb > D_BOUND {
      ReplaceAll(a, b, aOffset, bOffset);
      if na == 0 || nb == 0 { DistanceToEmpty(a, b); }
      return [EditOp(aOffset, na, bOffset, nb)];
    }
    var d, snap := ForwardSearch(a, b);
    if d <= 0 {
      NoEditsMeansEqual(a, b);
      NoOps(a, b, aOffset, bOffset);
      var s := KeepAll(a);
      ShortestScript(s, a, b, 0);
      return [];
    }
    var raw := Backtrace(a, b, na, nb, d, snap);
    ShortestScript(Reverse(raw), a, b, d);
    ops := CoalesceEditOps(raw, a, b, aOffset, bOffset, d);
  }
}
