/** Edit scripts between two sequences: the reference meaning of "insertions plus deletions
    turning a into b" against which the token diff is judged. */
module EditScripts {

  /** One step of a script: keep the next element, delete it from a, or insert the next one of b. */
  datatype Step = Keep | Delete | Insert

  ghost predicate Turns<T>(s: seq<Step>, a: seq<T>, b: seq<T>) {
    if s == [] then a == [] && b == []
    else match s[0]
      case Keep => a != [] && b != [] && a[0] == b[0] && Turns(s[1..], a[1..], b[1..])
      case Delete => a != [] && Turns(s[1..], a[1..], b)
      case Insert => b != [] && Turns(s[1..], a, b[1..])
  }

  function Cost(s: seq<Step>): nat {
    if s == [] then 0 else (if s[0].Keep? then 0 else 1) + Cost(s[1..])
  }

  ghost predicate Distance<T>(a: seq<T>, b: seq<T>, d: nat) {
    && (exists s :: Turns(s, a, b) && Cost(s) == d)
    && (forall s :: Turns(s, a, b) ==> d <= Cost(s))
  }

  lemma {:induction false} TurnsConcat<T>(s: seq<Step>, a: seq<T>, b: seq<T>, s': seq<Step>, a': seq<T>, b': seq<T>)
    requires Turns(s, a, b) && Turns(s', a', b')
    ensures Turns(s + s', a + a', b + b') && Cost(s + s') == Cost(s) + Cost(s')
  {
    if s == [] {
      assert s + s' == s' && a + a' == a' && b + b' == b';
    } else {
      assert (s + s')[1..] == s[1..] + s';
      var a1 := if s[0].Insert? then a else a[1..];
      var b1 := if s[0].Delete? then b else b[1..];
      TurnsConcat(s[1..], a1, b1, s', a', b');
      assert !s[0].Insert? ==> (a + a')[1..] == a[1..] + a';
      assert !s[0].Delete? ==> (b + b')[1..] == b[1..] + b';
    }
  }

  lemma {:induction false} KeepAll<T>(a: seq<T>) returns (s: seq<Step>)
    ensures Turns(s, a, a) && Cost(s) == 0
  {
    if a == [] { s := []; } else { var r := KeepAll(a[1..]); s := [Keep] + r; }
  }

  lemma {:induction false} DeleteAll<T>(a: seq<T>) returns (s: seq<Step>)
    ensures Turns(s, a, []) && Cost(s) == |a|
  {
    if a == [] { s := []; } else { var r := DeleteAll(a[1..]); s := [Delete] + r; }
  }

  lemma {:induction false} InsertAll<T>(b: seq<T>) returns (s: seq<Step>)
    ensures Turns(s, [], b) && Cost(s) == |b|
  {
    if b == [] { s := []; } else { var r := InsertAll(b[1..]); s := [Insert] + r; }
  }

  /** Reading a script backwards turns the reversed sequences into one another at the same cost. */
  function Reverse<T>(s: seq<T>): (r: seq<T>)
    ensures |r| == |s|
  {
    if s == [] then [] else Reverse(s[1..]) + [s[0]]
  }

  lemma {:induction false} ReverseConcat<T>(s: seq<T>, t: seq<T>)
    ensures Reverse(s + t) == Reverse(t) + Reverse(s)
  {
    if s == [] {
      assert s + t == t;
    } else {
      assert (s + t)[1..] == s[1..] + t;
      ReverseConcat(s[1..], t);
    }
  }

  lemma {:induction false} ReverseInvolution<T>(s: seq<T>)
    ensures Reverse(Reverse(s)) == s
  {
    if s != [] {
      ReverseConcat(Reverse(s[1..]), [s[0]]);
      assert Reverse([s[0]]) == [s[0]];
      ReverseInvolution(s[1..]);
    }
  }

  lemma {:induction false} TurnsReverse<T>(s: seq<Step>, a: seq<T>, b: seq<T>)
    requires Turns(s, a, b)
    ensures Turns(Reverse(s), Reverse(a), Reverse(b)) && Cost(Reverse(s)) == Cost(s)
  {
    if s != [] {
      var a1 := if s[0].Insert? then a else a[1..];
      var b1 := if s[0].Delete? then b else b[1..];
      var x := if s[0].Insert? then [] else [a[0]];
      var y := if s[0].Delete? then [] else [b[0]];
      TurnsReverse(s[1..], a1, b1);
      assert Turns([s[0]], x, y);
      TurnsConcat(Reverse(s[1..]), Reverse(a1), Reverse(b1), [s[0]], x, y);
      assert s[0].Insert? ==> Reverse(a1) + x == Reverse(a);
      assert s[0].Delete? ==> Reverse(b1) + y == Reverse(b);
    }
  }

  /** Dropping the first element of the target costs at most one extra step. */
  lemma {:induction false} DropTarget<T>(s: seq<Step>, a: seq<T>, t: T, b: seq<T>) returns (r: seq<Step>)
    requires Turns(s, a, [t] + b)
    ensures Turns(r, a, b) && Cost(r) <= Cost(s) + 1
  {
    assert ([t] + b)[1..] == b;
    match s[0] {
      case Keep => r := [Delete] + s[1..];
      case Insert => r := s[1..];
      case Delete => var q := DropTarget(s[1..], a[1..], t, b); r := [Delete] + q;
    }
  }

  /** Dropping the first element of the source costs at most one extra step. */
  lemma {:induction false} DropSource<T>(s: seq<Step>, t: T, a: seq<T>, b: seq<T>) returns (r: seq<Step>)
    requires Turns(s, [t] + a, b)
    ensures Turns(r, a, b) && Cost(r) <= Cost(s) + 1
  {
    assert ([t] + a)[1..] == a;
    match s[0] {
      case Keep => r := [Insert] + s[1..];
      case Delete => r := s[1..];
      case Insert => var q := DropSource(s[1..], t, a, b[1..]); r := [Insert] + q;
    }
  }

  lemma {:induction false} DropSharedHead<T>(s: seq<Step>, t: T, a: seq<T>, b: seq<T>) returns (r: seq<Step>)
    requires Turns(s, [t] + a, [t] + b)
    ensures Turns(r, a, b) && Cost(r) <= Cost(s)
  {
    assert ([t] + a)[1..] == a && ([t] + b)[1..] == b;
    match s[0] {
      case Keep => r := s[1..];
      case Delete => r := DropTarget(s[1..], a, t, b);
      case Insert => r := DropSource(s[1..], t, a, b);
    }
  }

  lemma {:induction false} DropSharedPrefix<T>(s: seq<Step>, p: seq<T>, a: seq<T>, b: seq<T>) returns (r: seq<Step>)
    requires Turns(s, p + a, p + b)
    ensures Turns(r, a, b) && Cost(r) <= Cost(s)
    decreases |p|
  {
    if p == [] {
      assert p + a == a && p + b == b;
      r := s;
    } else {
      assert p + a == [p[0]] + (p[1..] + a) && p + b == [p[0]] + (p[1..] + b);
      var q := DropSharedHead(s, p[0], p[1..] + a, p[1..] + b);
      r := DropSharedPrefix(q, p[1..], a, b);
    }
  }

  lemma {:induction false} DropSharedSuffix<T>(s: seq<Step>, a: seq<T>, b: seq<T>, q: seq<T>) returns (r: seq<Step>)
    requires Turns(s, a + q, b + q)
    ensures Turns(r, a, b) && Cost(r) <= Cost(s)
  {
    TurnsReverse(s, a + q, b + q);
    ReverseConcat(a, q);
    ReverseConcat(b, q);
    var m := DropSharedPrefix(Reverse(s), Reverse(q), Reverse(a), Reverse(b));
    TurnsReverse(m, Reverse(a), Reverse(b));
    ReverseInvolution(a);
    ReverseInvolution(b);
    r := Reverse(m);
  }

  /** Trimming a shared prefix and a shared suffix leaves the edit distance unchanged. */
  lemma TrimKeepsDistance<T>(p: seq<T>, a: seq<T>, b: seq<T>, q: seq<T>, d: nat)
    ensures Distance(p + a + q, p + b + q, d) <==> Distance(a, b, d)
  {
    forall s | Turns(s, a, b)
      ensures exists r :: Turns(r, p + a + q, p + b + q) && Cost(r) == Cost(s)
    {
      var kp := KeepAll(p);
      var kq := KeepAll(q);
      TurnsConcat(kp, p, p, s, a, b);
      TurnsConcat(kp + s, p + a, p + b, kq, q, q);
      assert Turns(kp + s + kq, p + a + q, p + b + q);
    }
    forall r | Turns(r, p + a + q, p + b + q)
      ensures exists s :: Turns(s, a, b) && Cost(s) <= Cost(r)
    {
      var m := DropSharedSuffix(r, p + a, p + b, q);
      var s := DropSharedPrefix(m, p, a, b);
    }
  }

  lemma {:induction false} CostAtLeastLengthGap<T>(s: seq<Step>, a: seq<T>, b: seq<T>)
    requires Turns(s, a, b)
    ensures Cost(s) >= |a| - |b| && Cost(s) >= |b| - |a|
  {
    if s != [] {
      CostAtLeastLengthGap(s[1..], if s[0].Insert? then a else a[1..], if s[0].Delete? then b else b[1..]);
    }
  }

  lemma DistanceToEmpty<T>(a: seq<T>, b: seq<T>)
    requires a == [] || b == []
    ensures Distance(a, b, |a| + |b|)
  {
    var s := DeleteAll(a);
    var t := InsertAll(b);
    TurnsConcat(s, a, [], t, [], b);
    assert a + [] == a && [] + b == b;
    forall r | Turns(r, a, b) ensures |a| + |b| <= Cost(r) { CostAtLeastLengthGap(r, a, b); }
  }
}
