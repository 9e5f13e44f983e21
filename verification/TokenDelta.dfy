/** The delta response: trimming, diff, and edits on the flat integer buffer the client holds. */
module TokenDelta {
  import opened Lsp
  import opened EditScripts
  import opened MyersDiff

  /** One SemanticTokensEdit, in integer units. */
  datatype Edit = Edit(start: nat, deleteCount: nat, data: seq<uint32>)

  /** The five-tuples of a flat buffer. */
  function Tuples(buf: seq<uint32>): (r: seq<seq<uint32>>)
    ensures |r| == |buf| / 5
  {
    seq(|buf| / 5, i requires 0 <= i < |buf| / 5 => buf[5 * i..5 * i + 5])
  }

  /** Edits refer to the buffer before any of them is applied; they ascend and do not overlap. */
  ghost predicate Applicable(edits: seq<Edit>, n: nat) {
    && (forall i :: 0 <= i < |edits| ==> edits[i].start + edits[i].deleteCount <= n)
    && (forall i, j :: 0 <= i < j < |edits| ==> edits[i].start + edits[i].deleteCount <= edits[j].start)
  }

  function Splice(buf: seq<uint32>, e: Edit): seq<uint32>
    requires e.start + e.deleteCount <= |buf|
  {
    buf[..e.start] + e.data + buf[e.start + e.deleteCount..]
  }

  /** What a client does with the edits: splice them in, last one first. */
  ghost function ApplyEdits(buf: seq<uint32>, edits: seq<Edit>): seq<uint32>
    requires Applicable(edits, |buf|)
    decreases |edits|
  {
    if edits == [] then buf
    else ApplyEdits(Splice(buf, edits[|edits| - 1]), edits[..|edits| - 1])
  }

  function ChangedIntegers(edits: seq<Edit>): nat {
    if edits == [] then 0
    else ChangedIntegers(edits[..|edits| - 1]) + edits[|edits| - 1].deleteCount + |edits[|edits| - 1].data|
  }

  function ToEdit(op: EditOp, next: seq<uint32>): Edit
    requires 5 * (op.insertBStart + op.insertTok) <= |next|
  {
    Edit(5 * op.startTok, 5 * op.deleteTok,
         next[5 * op.insertBStart..5 * (op.insertBStart + op.insertTok)])
  }

  predicate InsertsFit(ops: seq<EditOp>, n: nat) {
    forall i :: 0 <= i < |ops| ==> 5 * (ops[i].insertBStart + ops[i].insertTok) <= n
  }

  function ToEdits(ops: seq<EditOp>, next: seq<uint32>): (r: seq<Edit>)
    requires InsertsFit(ops, |next|)
    ensures |r| == |ops|
  {
    seq(|ops|, i requires 0 <= i < |ops| => ToEdit(ops[i], next))
  }

  lemma TupleAt(buf: seq<uint32>, i: nat, k: nat)
    requires i < |buf| / 5 && k < 5
    ensures Tuples(buf)[i][k] == buf[5 * i + k]
  {}

  /** Equal runs of tuples are equal runs of integers. */
  lemma TupleRuns(p: seq<uint32>, q: seq<uint32>, x1: nat, y1: nat, x: nat, y: nat)
    requires |p| % 5 == 0 && |q| % 5 == 0
    requires SharedTail(Tuples(p), Tuples(q), x1, y1, x, y)
    ensures p[5 * x1..5 * x] == q[5 * y1..5 * y]
  {
    var ps, qs := p[5 * x1..5 * x], q[5 * y1..5 * y];
    assert |ps| == 5 * |Tuples(p)[x1..x]| && |qs| == 5 * |Tuples(q)[y1..y]|;
    forall j | 0 <= j < |ps|
      ensures ps[j] == qs[j]
    {
      var t, k := j / 5, j % 5;
      assert j == 5 * t + k && 0 <= k < 5 && t < x - x1;
      assert Tuples(p)[x1..x][t] == Tuples(q)[y1..y][t];
      TupleAt(p, x1 + t, k);
      TupleAt(q, y1 + t, k);
      assert ps[j] == p[5 * x1 + j] && qs[j] == q[5 * y1 + j];
    }
  }

  lemma {:induction false} BuildsInsertsFit<T>(ops: seq<EditOp>, a: seq<T>, b: seq<T>, x: nat, y: nat, n: nat)
    requires Builds(ops, a, b, 0, 0, x, y) && 5 * y <= n
    ensures InsertsFit(ops, n)
    decreases |ops|
  {
    if ops != [] {
      var o := ops[|ops| - 1];
      BuildsInsertsFit(ops[..|ops| - 1], a, b, o.startTok, o.insertBStart, n);
    }
  }

  lemma SpliceLastEdit(prev: seq<uint32>, next: seq<uint32>, rest: seq<uint32>,
                       x0: nat, x1: nat, x: nat, y0: nat, y1: nat, y: nat)
    requires x0 <= x1 <= x <= |prev| && y0 <= y1 <= y <= |next|
    requires prev[x1..x] == next[y1..y]
    ensures Splice(prev[..x] + rest, Edit(x0, x1 - x0, next[y0..y1])) == prev[..x0] + (next[y0..y] + rest)
  {
    var buf := prev[..x] + rest;
    assert buf[x1..] == prev[x1..x] + rest;
    assert next[y0..y] == next[y0..y1] + next[y1..y];
  }

  lemma ToEditsSnoc(ops: seq<EditOp>, next: seq<uint32>)
    requires ops != [] && InsertsFit(ops, |next|)
    ensures InsertsFit(ops[..|ops| - 1], |next|)
    ensures var o := ops[|ops| - 1];
            5 * (o.insertBStart + o.insertTok) <= |next| &&
            ToEdits(ops, next) == ToEdits(ops[..|ops| - 1], next) + [ToEdit(o, next)]
  {
  }

  lemma AppendEdit(init: seq<Edit>, e: Edit, n: nat, buf: seq<uint32>)
    requires Applicable(init, e.start) && e.start + e.deleteCount <= n <= |buf|
    ensures Applicable(init + [e], n) && Applicable(init + [e], |buf|)
    ensures Applicable(init, |Splice(buf, e)|)
    ensures ApplyEdits(buf, init + [e]) == ApplyEdits(Splice(buf, e), init)
  {
    assert (init + [e])[..|init|] == init;
  }

  /** Edits built over the token view, applied to the integers, give the new integers. */
  lemma {:induction false} BuiltEditsApply(ops: seq<EditOp>, prev: seq<uint32>, next: seq<uint32>,
                                           x: nat, y: nat, rest: seq<uint32>)
    requires |prev| % 5 == 0 && |next| % 5 == 0
    requires Builds(ops, Tuples(prev), Tuples(next), 0, 0, x, y)
    ensures InsertsFit(ops, |next|) && 5 * x <= |prev| && 5 * y <= |next|
    ensures Applicable(ToEdits(ops, next), 5 * x)
    ensures ApplyEdits(prev[..5 * x] + rest, ToEdits(ops, next)) == next[..5 * y] + rest
    decreases |ops|
  {
    BuildsInsertsFit(ops, Tuples(prev), Tuples(next), x, y, |next|);
    if ops == [] {
      assert SharedTail(Tuples(prev), Tuples(next), 0, 0, x, y);
      TupleRuns(prev, next, 0, 0, x, y);
    } else {
      BuiltEditsApplyStep(ops, prev, next, x, y, rest);
    }
  }

  lemma {:induction false} BuiltEditsApplyStep(ops: seq<EditOp>, prev: seq<uint32>, next: seq<uint32>,
                                               x: nat, y: nat, rest: seq<uint32>)
    requires |prev| % 5 == 0 && |next| % 5 == 0 && ops != []
    requires Builds(ops, Tuples(prev), Tuples(next), 0, 0, x, y) && InsertsFit(ops, |next|)
    ensures 5 * x <= |prev| && 5 * y <= |next|
    ensures Applicable(ToEdits(ops, next), 5 * x)
    ensures ApplyEdits(prev[..5 * x] + rest, ToEdits(ops, next)) == next[..5 * y] + rest
    decreases |ops|, 0
  {
    hide Builds, Tuples, SharedTail, ToEdits, ToEdit, Splice, Applicable, ApplyEdits, InsertsFit;
    var o, init := ops[|ops| - 1], ops[..|ops| - 1];
    var x0, y0, x1, y1 := o.startTok, o.insertBStart, o.startTok + o.deleteTok, o.insertBStart + o.insertTok;
    var e := LastEdit(ops, prev, next, x, y);
    TupleRuns(prev, next, x1, y1, x, y);
    var buf, rest' := prev[..5 * x] + rest, next[5 * y0..5 * y] + rest;
    SpliceLastEdit(prev, next, rest, 5 * x0, 5 * x1, 5 * x,
                   5 * y0, 5 * y1, 5 * y);
    BuiltEditsApply(init, prev, next, x0, y0, rest');
    AppendEdit(ToEdits(init, next), e, 5 * x, buf);
    JoinRuns(next, 5 * y0, 5 * y, rest);
  }

  lemma LastEdit(ops: seq<EditOp>, prev: seq<uint32>, next: seq<uint32>, x: nat, y: nat) returns (e: Edit)
    requires ops != [] && Builds(ops, Tuples(prev), Tuples(next), 0, 0, x, y) && InsertsFit(ops, |next|)
    ensures 5 * x <= |prev| && 5 * y <= |next|
    ensures var o := ops[|ops| - 1]; var init := ops[..|ops| - 1];
            var x1, y1 := o.startTok + o.deleteTok, o.insertBStart + o.insertTok;
            && x1 <= x && y1 <= y && SharedTail(Tuples(prev), Tuples(next), x1, y1, x, y)
            && Builds(init, Tuples(prev), Tuples(next), 0, 0, o.startTok, o.insertBStart)
            && InsertsFit(init, |next|) && ToEdits(ops, next) == ToEdits(init, next) + [e]
            && e == Edit(5 * o.startTok, 5 * x1 - 5 * o.startTok,
                         next[5 * o.insertBStart..5 * y1])
  {
    BuildsLast(ops, Tuples(prev), Tuples(next), 0, 0, x, y);
    ToEditsSnoc(ops, next);
    e := ToEdit(ops[|ops| - 1], next);
  }

  lemma JoinRuns(s: seq<uint32>, m: nat, n: nat, rest: seq<uint32>)
    requires m <= n <= |s|
    ensures s[..m] + (s[m..n] + rest) == s[..n] + rest
  {
  }

  ghost function CommonPrefix<T>(a: seq<T>, b: seq<T>): nat {
    if a != [] && b != [] && a[0] == b[0] then 1 + CommonPrefix(a[1..], b[1..]) else 0
  }

  ghost function CommonSuffix<T>(a: seq<T>, b: seq<T>): nat {
    if a != [] && b != [] && a[|a| - 1] == b[|b| - 1] then 1 + CommonSuffix(a[..|a| - 1], b[..|b| - 1]) else 0
  }

  /** How many tokens the diff has to look at once the shared ends are trimmed. */
  ghost function TrimmedSize<T>(a: seq<T>, b: seq<T>): int {
    var p := CommonPrefix(a, b);
    if p > |a| || p > |b| then 0
    else |a| + |b| - 2 * p - 2 * CommonSuffix(a[p..], b[p..])
  }

  predicate TokensEqual(p: seq<uint32>, i: nat, q: seq<uint32>, j: nat)
    requires 5 * i + 5 <= |p| && 5 * j + 5 <= |q|
    ensures TokensEqual(p, i, q, j) <==> Tuples(p)[i] == Tuples(q)[j]
  {
    p[5 * i..5 * i + 5] == q[5 * j..5 * j + 5]
  }

  lemma PrefixStep<T>(a: seq<T>, b: seq<T>, i: nat)
    requires i < |a| && i < |b| && a[i] == b[i]
    ensures CommonPrefix(a[i..], b[i..]) == 1 + CommonPrefix(a[i + 1..], b[i + 1..])
  {
    assert a[i..][1..] == a[i + 1..] && b[i..][1..] == b[i + 1..];
  }

  lemma SuffixStep<T>(a: seq<T>, b: seq<T>, m: nat, n: nat)
    requires 0 < m <= |a| && 0 < n <= |b| && a[m - 1] == b[n - 1]
    ensures CommonSuffix(a[..m], b[..n]) == 1 + CommonSuffix(a[..m - 1], b[..n - 1])
  {
    assert a[..m][..m - 1] == a[..m - 1] && b[..n][..n - 1] == b[..n - 1];
  }

  method TrimPrefix(prev: seq<uint32>, next: seq<uint32>) returns (prefix: nat)
    ensures var a, b := Tuples(prev), Tuples(next);
            prefix <= |a| && prefix <= |b| && a[..prefix] == b[..prefix] && prefix == CommonPrefix(a, b)
  {
    hide CommonPrefix;
    var prevTok, newTok := |prev| / 5, |next| / 5;
    ghost var a, b := Tuples(prev), Tuples(next);
    assert a[0..] == a && b[0..] == b;
    prefix := 0;
    var minTok := if prevTok < newTok then prevTok else newTok;
    while prefix < minTok && TokensEqual(prev, prefix, next, prefix)
      invariant prefix <= minTok && a[..prefix] == b[..prefix]
      invariant prefix + CommonPrefix(a[prefix..], b[prefix..]) == CommonPrefix(a, b)
    {
      PrefixStep(a, b, prefix);
      prefix := prefix + 1;
    }
    PrefixEnds(a[prefix..], b[prefix..]);
  }

  lemma PrefixEnds<T>(a: seq<T>, b: seq<T>)
    requires a == [] || b == [] || a[0] != b[0]
    ensures CommonPrefix(a, b) == 0
  {
  }

  /** How far the suffix loop has got. */
  ghost predicate SuffixTrimmed<T>(a: seq<T>, b: seq<T>, n: nat) {
    && n <= |a| && n <= |b| && a[|a| - n..] == b[|b| - n..]
    && n + CommonSuffix(a[..|a| - n], b[..|b| - n]) == CommonSuffix(a, b)
  }

  lemma SuffixLoopStep<T>(a: seq<T>, b: seq<T>, n: nat)
    requires SuffixTrimmed(a, b, n) && n < |a| && n < |b| && a[|a| - n - 1] == b[|b| - n - 1]
    ensures SuffixTrimmed(a, b, n + 1)
  {
    hide CommonSuffix;
    SuffixStep(a, b, |a| - n, |b| - n);
    assert a[|a| - n - 1..] == [a[|a| - n - 1]] + a[|a| - n..];
    assert b[|b| - n - 1..] == [b[|b| - n - 1]] + b[|b| - n..];
  }

  lemma SuffixLoopStart<T>(a: seq<T>, b: seq<T>)
    ensures SuffixTrimmed(a, b, 0)
  {
    assert a[..|a|] == a && b[..|b|] == b;
  }

  /** The shared suffix of what follows the prefix, so that the two never overlap. */
  method TrimSuffix(prev: seq<uint32>, next: seq<uint32>, prefix: nat) returns (suffix: nat)
    requires prefix <= |prev| / 5 && prefix <= |next| / 5
    ensures var a, b := Tuples(prev)[prefix..], Tuples(next)[prefix..];
            && suffix <= |a| && suffix <= |b| && a[|a| - suffix..] == b[|b| - suffix..]
            && suffix == CommonSuffix(a, b)
  {
    hide CommonSuffix, SuffixTrimmed, TokensEqual, Tuples;
    var prevTok, newTok := |prev| / 5, |next| / 5;
    ghost var a, b := Tuples(prev)[prefix..], Tuples(next)[prefix..];
    SuffixLoopStart(a, b);
    suffix := 0;
    while suffix < prevTok - prefix && suffix < newTok - prefix &&
          TokensEqual(prev, prevTok - 1 - suffix, next, newTok - 1 - suffix)
      invariant suffix <= |a| && suffix <= |b|
      invariant SuffixTrimmed(a, b, suffix)
    {
      SuffixLoopStep(a, b, suffix);
      suffix := suffix + 1;
    }
    SuffixLoopDone(a, b, suffix);
  }

  lemma SuffixLoopDone<T>(a: seq<T>, b: seq<T>, n: nat)
    requires SuffixTrimmed(a, b, n)
    requires n == |a| || n == |b| || a[|a| - n - 1] != b[|b| - n - 1]
    ensures n <= |a| && n <= |b| && a[|a| - n..] == b[|b| - n..] && n == CommonSuffix(a, b)
  {
  }

  /** An edit list over the trimmed middles, placed behind the prefix, is one over the whole. */
  lemma {:induction false} EmbedMiddle<T>(ops: seq<EditOp>, p: seq<T>, a: seq<T>, b: seq<T>, q: seq<T>, x: nat, y: nat)
    requires Builds(ops, a, b, |p|, |p|, x, y)
    ensures Builds(ops, p + a + q, p + b + q, 0, 0, |p| + x, |p| + y)
    decreases |ops|
  {
    hide Builds, SharedTail;
    BuildsBounds(ops, a, b, |p|, |p|, x, y);
    if ops == [] {
      EmbedNothing(p, a, b, q, x, y);
    } else {
      var o := ops[|ops| - 1];
      BuildsLast(ops, a, b, |p|, |p|, x, y);
      var x0, y0 := o.startTok - |p|, o.insertBStart - |p|;
      EmbedMiddle(ops[..|ops| - 1], p, a, b, q, x0, y0);
      ShiftTail(p, a, b, q, x0 + o.deleteTok, y0 + o.insertTok, x, y);
      BuildsLast(ops, p + a + q, p + b + q, 0, 0, |p| + x, |p| + y);
    }
  }

  lemma BuildsBounds<T>(ops: seq<EditOp>, a: seq<T>, b: seq<T>, ao: nat, bo: nat, x: nat, y: nat)
    requires Builds(ops, a, b, ao, bo, x, y)
    ensures x <= |a| && y <= |b|
  {
  }

  lemma EmbedNothing<T>(p: seq<T>, a: seq<T>, b: seq<T>, q: seq<T>, x: nat, y: nat)
    requires Builds([], a, b, |p|, |p|, x, y)
    ensures Builds([], p + a + q, p + b + q, 0, 0, |p| + x, |p| + y)
  {
    assert (p + a + q)[..|p| + x] == p + a[..x] && (p + b + q)[..|p| + y] == p + b[..y];
  }

  lemma ShiftTail<T>(p: seq<T>, a: seq<T>, b: seq<T>, q: seq<T>, x1: nat, y1: nat, x: nat, y: nat)
    requires SharedTail(a, b, x1, y1, x, y)
    ensures SharedTail(p + a + q, p + b + q, |p| + x1, |p| + y1, |p| + x, |p| + y)
  {
    assert (p + a + q)[|p| + x1..|p| + x] == a[x1..x];
    assert (p + b + q)[|p| + y1..|p| + y] == b[y1..y];
  }

  lemma {:induction false} ExtendOverSuffix<T>(ops: seq<EditOp>, a: seq<T>, b: seq<T>, x: nat, y: nat)
    requires Builds(ops, a, b, 0, 0, x, y) && a[x..] == b[y..]
    ensures Builds(ops, a, b, 0, 0, |a|, |b|)
    decreases |a| - x
  {
    if x < |a| {
      assert a[x] == a[x..][0] == b[y..][0] == b[y];
      assert a[x + 1..] == a[x..][1..] && b[y + 1..] == b[y..][1..];
      BuildsKeep(ops, a, b, 0, 0, x, y);
      ExtendOverSuffix(ops, a, b, x + 1, y + 1);
    } else {
      assert y == |b| by { assert |b[y..]| == 0; }
    }
  }

  /** The middle edit list is an edit list over the whole, at the same distance. */
  lemma UntrimmedEdits<T>(ops: seq<EditOp>, a: seq<T>, b: seq<T>, prefix: nat, suffix: nat)
    requires prefix + suffix <= |a| && prefix + suffix <= |b|
    requires a[..prefix] == b[..prefix] && a[|a| - suffix..] == b[|b| - suffix..]
    requires Builds(ops, a[prefix..|a| - suffix], b[prefix..|b| - suffix], prefix, prefix,
                    |a| - suffix - prefix, |b| - suffix - prefix)
    ensures Builds(ops, a, b, 0, 0, |a|, |b|)
    ensures Distance(a, b, TotalEdits(ops)) <==>
            Distance(a[prefix..|a| - suffix], b[prefix..|b| - suffix], TotalEdits(ops))
  {
    hide Builds, Distance;
    var p, q, a', b' := a[..prefix], a[|a| - suffix..], a[prefix..|a| - suffix], b[prefix..|b| - suffix];
    assert a == p + a' + q && b == p + b' + q;
    EmbedMiddle(ops, p, a', b', q, |a'|, |b'|);
    ExtendOverSuffix(ops, a, b, |a| - suffix, |b| - suffix);
    TrimKeepsDistance(p, a', b', q, TotalEdits(ops));
  }

  lemma TrimIsMaximal<T>(a: seq<T>, b: seq<T>, prefix: nat, suffix: nat)
    requires prefix <= |a| && prefix <= |b| && prefix == CommonPrefix(a, b)
    requires suffix == CommonSuffix(a[prefix..], b[prefix..])
    ensures TrimmedSize(a, b) == |a| + |b| - 2 * prefix - 2 * suffix
  {
  }

  lemma {:induction false} ChangedIntegersOfOps(ops: seq<EditOp>, next: seq<uint32>)
    requires InsertsFit(ops, |next|)
    ensures ChangedIntegers(ToEdits(ops, next)) == 5 * TotalEdits(ops)
    decreases |ops|
  {
    if ops != [] {
      ToEditsSnoc(ops, next);
      var init := ToEdits(ops[..|ops| - 1], next);
      assert (init + [ToEdit(ops[|ops| - 1], next)])[..|init|] == init;
      ChangedIntegersOfOps(ops[..|ops| - 1], next);
    }
  }

  /** The diff of the trimmed middles, as edits over the whole buffers. */
  method DiffMiddle(prev: seq<uint32>, next: seq<uint32>, prefix: nat, suffix: nat) returns (ops: seq<EditOp>)
    requires |prev| % 5 == 0 && |next| % 5 == 0
    requires prefix + suffix <= |Tuples(prev)| && prefix + suffix <= |Tuples(next)|
    requires Tuples(prev)[..prefix] == Tuples(next)[..prefix]
    requires Tuples(prev)[|Tuples(prev)| - suffix..] == Tuples(next)[|Tuples(next)| - suffix..]
    ensures InsertsFit(ops, |next|) && Applicable(ToEdits(ops, next), |prev|)
    ensures ApplyEdits(prev, ToEdits(ops, next)) == next
    ensures var n := |Tuples(prev)| + |Tuples(next)| - 2 * prefix - 2 * suffix;
            && (n <= 1024 ==> Distance(Tuples(prev), Tuples(next), TotalEdits(ops)) && |ops| <= TotalEdits(ops))
  {
    hide Builds, Distance, TotalEdits, ApplyEdits, Applicable;
    ghost var ta, tb := Tuples(prev), Tuples(next);
    var a, b := Tuples(prev)[prefix..|prev| / 5 - suffix], Tuples(next)[prefix..|next| / 5 - suffix];
    ops := MyersDiffRun(a, b, prefix, prefix);
    UntrimmedEdits(ops, ta, tb, prefix, suffix);
    BuiltEditsApply(ops, prev, next, |ta|, |tb|, []);
    assert prev[..5 * |ta|] + [] == prev && next[..5 * |tb|] + [] == next;
  }

  /** The edits of a delta response: they turn the previous buffer into the new one, keep to token
      boundaries, and change no more tokens than any script must, unless the diff was cut short. */
  method BuildSemanticTokensDelta(prev: seq<uint32>, next: seq<uint32>) returns (edits: seq<Edit>)
    requires |prev| % 5 == 0 && |next| % 5 == 0
    ensures Applicable(edits, |prev|) && ApplyEdits(prev, edits) == next
    ensures forall i :: 0 <= i < |edits| ==>
              edits[i].start % 5 == 0 && edits[i].deleteCount % 5 == 0 && |edits[i].data| % 5 == 0
    ensures TrimmedSize(Tuples(prev), Tuples(next)) <= 1024 ==>
              ChangedIntegers(edits) % 5 == 0 &&
              Distance(Tuples(prev), Tuples(next), ChangedIntegers(edits) / 5) &&
              |edits| <= ChangedIntegers(edits) / 5
  {
    hide Builds, Distance, CommonPrefix, CommonSuffix, TrimmedSize, TotalEdits, ChangedIntegers, ApplyEdits, Applicable, Tuples;
    var prefix := TrimPrefix(prev, next);
    var suffix := TrimSuffix(prev, next, prefix);
    var ops := DiffMiddle(prev, next, prefix, suffix);
    TrimIsMaximal(Tuples(prev), Tuples(next), prefix, suffix);
    ChangedIntegersOfOps(ops, next);
    edits := ToEdits(ops, next);
  }
}