/** The edit grid searched by the diff. A point (x, y) means "x elements of a consumed, y of b
    produced". Deleting and inserting may step outside the |a| x |b| rectangle, exactly as the
    V array of the search does; matches are only taken inside it. */
module FurthestReaching {
  import opened EditScripts

  ghost predicate Reach<T>(a: seq<T>, b: seq<T>, d: nat, x: nat, y: nat)
    decreases x + y
  {
    || (d == 0 && x == 0 && y == 0)
    || (d > 0 && x > 0 && Reach(a, b, d - 1, x - 1, y))
    || (d > 0 && y > 0 && Reach(a, b, d - 1, x, y - 1))
    || (x > 0 && y > 0 && x <= |a| && y <= |b| && a[x - 1] == b[y - 1] && Reach(a, b, d, x - 1, y - 1))
  }

  /** The end of the run of matches that starts at (x, x - k) on diagonal k, as its x coordinate. */
  ghost function Slide<T>(a: seq<T>, b: seq<T>, k: int, x: nat): (r: nat)
    requires x - k >= 0
    ensures x <= r
    decreases |a| - x
  {
    if x < |a| && x - k < |b| && a[x] == b[x - k] then Slide(a, b, k, x + 1) else x
  }

  lemma {:induction false} SlideStops<T>(a: seq<T>, b: seq<T>, k: int, x: nat)
    requires x - k >= 0
    ensures var r := Slide(a, b, k, x); !(r < |a| && r - k < |b| && a[r] == b[r - k])
    decreases |a| - x
  {
    if x < |a| && x - k < |b| && a[x] == b[x - k] { SlideStops(a, b, k, x + 1); }
  }

  lemma {:induction false} SlideMatches<T>(a: seq<T>, b: seq<T>, k: int, x: nat)
    requires x - k >= 0
    ensures var r := Slide(a, b, k, x);
            && (r > x ==> r <= |a| && r - k <= |b|)
            && forall i :: x <= i < r ==> a[i] == b[i - k]
    decreases |a| - x
  {
    if x < |a| && x - k < |b| && a[x] == b[x - k] { SlideMatches(a, b, k, x + 1); }
  }

  /** Round e works on the diagonals -e, -e + 2, .., e; the i-th of them is Diagonal(e, i). */
  function Diagonal(e: nat, i: nat): int {
    2 * i - e
  }

  /** The x coordinate that round e of the search stores for its i-th diagonal: the greedy choice
      between coming down from diagonal k + 1 and right from diagonal k - 1, then a slide. */
  ghost function Furthest<T>(a: seq<T>, b: seq<T>, e: nat, i: nat): (r: nat)
    requires i <= e
    ensures r - Diagonal(e, i) >= 0
    decreases e
  {
    var s :=
      if e == 0 then 0
      else if i == 0 || (i != e && Furthest(a, b, e - 1, i - 1) < Furthest(a, b, e - 1, i)) then
        Furthest(a, b, e - 1, i)
      else
        Furthest(a, b, e - 1, i - 1) + 1;
    Slide(a, b, Diagonal(e, i), s)
  }

  ghost predicate GoesDown<T>(a: seq<T>, b: seq<T>, e: nat, i: nat)
    requires 0 < e && i <= e
  {
    i == 0 || (i != e && Furthest(a, b, e - 1, i - 1) < Furthest(a, b, e - 1, i))
  }

  /** Where the slide that ends at Furthest(e, i) begins. */
  ghost function Edge<T>(a: seq<T>, b: seq<T>, e: nat, i: nat): nat
    requires 0 < e && i <= e
  {
    if GoesDown(a, b, e, i) then Furthest(a, b, e - 1, i) else Furthest(a, b, e - 1, i - 1) + 1
  }

  /** The points reachable with d edits lie on the diagonals of round d. */
  lemma {:induction false} ReachDiagonal<T>(a: seq<T>, b: seq<T>, d: nat, x: nat, y: nat) returns (i: nat)
    requires Reach(a, b, d, x, y)
    ensures i <= d && x - y == Diagonal(d, i)
    decreases x + y
  {
    if d > 0 && x > 0 && Reach(a, b, d - 1, x - 1, y) {
      var j := ReachDiagonal(a, b, d - 1, x - 1, y);
      i := j + 1;
    } else if d > 0 && y > 0 && Reach(a, b, d - 1, x, y - 1) {
      i := ReachDiagonal(a, b, d - 1, x, y - 1);
    } else if d == 0 && x == 0 && y == 0 {
      i := 0;
    } else {
      i := ReachDiagonal(a, b, d, x - 1, y - 1);
    }
  }

  lemma {:induction false} ReachSlide<T>(a: seq<T>, b: seq<T>, d: nat, k: int, x: nat)
    requires x - k >= 0 && Reach(a, b, d, x, x - k)
    ensures Reach(a, b, d, Slide(a, b, k, x), Slide(a, b, k, x) - k)
    decreases |a| - x
  {
    if x < |a| && x - k < |b| && a[x] == b[x - k] {
      ReachSlide(a, b, d, k, x + 1);
    }
  }

  lemma {:induction false} FurthestReached<T>(a: seq<T>, b: seq<T>, e: nat, i: nat)
    requires i <= e
    ensures Reach(a, b, e, Furthest(a, b, e, i), Furthest(a, b, e, i) - Diagonal(e, i))
    decreases e
  {
    if e == 0 {
      ReachSlide(a, b, 0, 0, 0);
    } else {
      var s := Edge(a, b, e, i);
      if GoesDown(a, b, e, i) {
        FurthestReached(a, b, e - 1, i);
      } else {
        FurthestReached(a, b, e - 1, i - 1);
      }
      assert Reach(a, b, e, s, s - Diagonal(e, i));
      ReachSlide(a, b, e, Diagonal(e, i), s);
    }
  }

  lemma FurthestPassesNeighbours<T>(a: seq<T>, b: seq<T>, e: nat, i: nat)
    requires i <= e
    ensures e > 0 && i > 0 ==> Furthest(a, b, e, i) >= Furthest(a, b, e - 1, i - 1) + 1
    ensures e > 0 && i < e ==> Furthest(a, b, e, i) >= Furthest(a, b, e - 1, i)
  {
  }

  lemma FurthestIsSlide<T>(a: seq<T>, b: seq<T>, e: nat, i: nat)
    requires i <= e
    ensures e == 0 ==> Furthest(a, b, e, i) == Slide(a, b, 0, 0)
    ensures e > 0 ==> Edge(a, b, e, i) - Diagonal(e, i) >= 0 &&
                      Furthest(a, b, e, i) == Slide(a, b, Diagonal(e, i), Edge(a, b, e, i))
  {
  }

  lemma FurthestStops<T>(a: seq<T>, b: seq<T>, e: nat, i: nat)
    requires i <= e
    ensures var x := Furthest(a, b, e, i); var y := x - Diagonal(e, i); !(x < |a| && y < |b| && a[x] == b[y])
  {
    if e == 0 {
      SlideStops(a, b, 0, 0);
    } else {
      FurthestIsSlide(a, b, e, i);
      SlideStops(a, b, Diagonal(e, i), Edge(a, b, e, i));
    }
  }

  /** Greedy optimality: no path with e edits gets past the stored point on its diagonal. */
  lemma {:induction false} FurthestIsMaximal<T>(a: seq<T>, b: seq<T>, e: nat, i: nat, x: nat, y: nat)
    requires i <= e && x - y == Diagonal(e, i) && Reach(a, b, e, x, y)
    ensures x <= Furthest(a, b, e, i)
    decreases x + y, 0
  {
    if e > 0 && x > 0 && Reach(a, b, e - 1, x - 1, y) {
      MaximalAfterEdit(a, b, e - 1, i - 1, x - 1, y);
      FurthestPassesNeighbours(a, b, e, i);
    } else if e > 0 && y > 0 && Reach(a, b, e - 1, x, y - 1) {
      MaximalAfterEdit(a, b, e - 1, i, x, y - 1);
      FurthestPassesNeighbours(a, b, e, i);
    } else if x > 0 && y > 0 {
      FurthestIsMaximal(a, b, e, i, x - 1, y - 1);
      MaximalAfterMatch(a, b, e, i, x, y);
    }
  }

  lemma MaximalAfterMatch<T>(a: seq<T>, b: seq<T>, e: nat, i: nat, x: nat, y: nat)
    requires i <= e && x - y == Diagonal(e, i)
    requires 0 < x <= |a| && 0 < y <= |b| && a[x - 1] == b[y - 1]
    requires x - 1 <= Furthest(a, b, e, i)
    ensures x <= Furthest(a, b, e, i)
  {
    FurthestStops(a, b, e, i);
  }

  lemma {:induction false} MaximalAfterEdit<T>(a: seq<T>, b: seq<T>, e: nat, i: int, x: nat, y: nat)
    requires x - y == 2 * i - e && Reach(a, b, e, x, y)
    ensures 0 <= i <= e && x <= Furthest(a, b, e, i)
    decreases x + y, 1
  {
    var j := ReachDiagonal(a, b, e, x, y);
    FurthestIsMaximal(a, b, e, j, x, y);
  }

  /** What a script can do from (x, y), the grid can do too. */
  lemma {:induction false} ScriptReaches<T>(s: seq<Step>, a: seq<T>, b: seq<T>, d: nat, x: nat, y: nat)
    requires x <= |a| && y <= |b| && Turns(s, a[x..], b[y..]) && Reach(a, b, d, x, y)
    ensures Reach(a, b, d + Cost(s), |a|, |b|)
  {
    if s != [] {
      match s[0] {
        case Keep =>
          assert a[x..][1..] == a[x + 1..] && b[y..][1..] == b[y + 1..];
          ScriptReaches(s[1..], a, b, d, x + 1, y + 1);
        case Delete =>
          assert a[x..][1..] == a[x + 1..];
          ScriptReaches(s[1..], a, b, d + 1, x + 1, y);
        case Insert =>
          assert b[y..][1..] == b[y + 1..];
          ScriptReaches(s[1..], a, b, d + 1, x, y + 1);
      }
    }
  }

  lemma {:induction false} ReachAxis<T>(a: seq<T>, b: seq<T>, x: nat, y: nat)
    ensures Reach(a, b, x + y, x, y)
    decreases x + y
  {
    if x > 0 { ReachAxis(a, b, x - 1, y); } else if y > 0 { ReachAxis(a, b, x, y - 1); }
  }

  lemma {:induction false} StepBackFromPhantomColumn<T>(a: seq<T>, b: seq<T>, d: nat, x: nat, y: nat)
    requires Reach(a, b, d, x, y) && x > |a|
    ensures d > 0 && Reach(a, b, d - 1, x - 1, y)
    decreases x + y
  {
    if !(d > 0 && Reach(a, b, d - 1, x - 1, y)) {
      StepBackFromPhantomColumn(a, b, d - 1, x, y - 1);
    }
  }

  lemma {:induction false} StepBackFromPhantomRow<T>(a: seq<T>, b: seq<T>, d: nat, x: nat, y: nat)
    requires Reach(a, b, d, x, y) && y > |b|
    ensures d > 0 && Reach(a, b, d - 1, x, y - 1)
    decreases x + y
  {
    if !(d > 0 && Reach(a, b, d - 1, x, y - 1)) {
      StepBackFromPhantomRow(a, b, d - 1, x - 1, y);
    }
  }

  /** A point beyond the corner was not reached before the corner itself was. */
  lemma {:induction false} CornerFirst<T>(a: seq<T>, b: seq<T>, d: nat, x: nat, y: nat)
    requires Reach(a, b, d, x, y) && x >= |a| && y >= |b|
    ensures (x - |a|) + (y - |b|) <= d && Reach(a, b, d - (x - |a|) - (y - |b|), |a|, |b|)
    decreases x + y
  {
    if x > |a| {
      StepBackFromPhantomColumn(a, b, d, x, y);
      CornerFirst(a, b, d - 1, x - 1, y);
    } else if y > |b| {
      StepBackFromPhantomRow(a, b, d, x, y);
      CornerFirst(a, b, d - 1, x, y - 1);
    }
  }
}
