/** Encoding of token spans as relative five-tuples, and the client's decoding of them. */
module SemanticTokens {
  import opened Lsp

  /** The kinds of the tokens recorded as spans; a keyword is known by its word. */
  datatype Kind =
    | LBrace | RBrace | Bang | Dot | Comma
    | LBracket | RBracket
    | LineComment | BlockComment
    | Str | MultiLineStr
    | Date | Duration
    | Ident
    | Keyword(word: string)

  /** A token: its kind, its half-open range, and its lexeme (empty when none was interned). */
  datatype TokenSpan = TokenSpan(kind: Kind, start: Pos, end: Pos, text: string)

  /** The token type sent for a kind, or None when the token is not highlighted. The modifiers are always 0. */
  function Classify(kind: Kind): Option<uint32> {
    match kind
    case LBrace | RBrace | Bang | Dot | Comma => None
    case LineComment | BlockComment => Some(1)
    case Str | MultiLineStr => Some(2)
    case Date | Duration => Some(3)
    case Ident => Some(4)
    case Keyword(word) => Some(if word in {"project", "task", "resource", "account", "shift"} then 0 else 5)
    case LBracket | RBracket => None
  }

  predicate IsSemHighlighted(kind: Kind) {
    !(kind.LBrace? || kind.RBrace? || kind.Bang? || kind.Dot? || kind.Comma?)
  }

  /** What the lexer adds up, token by token, as it records spans. */
  function NumSemEntries(spans: seq<TokenSpan>): int {
    if spans == [] then 0
    else
      var s := spans[|spans| - 1];
      NumSemEntries(spans[..|spans| - 1]) +
      (if IsSemHighlighted(s.kind) then s.end.line - s.start.line + 1 else 0)
  }

  /** One highlighted stretch on one line. */
  datatype Segment = Segment(line: nat, character: nat, length: nat, tokenType: nat, modifiers: nat)

  function NewlineAt(s: string, p: nat): (i: nat)
    requires p <= |s|
    ensures p <= i <= |s|
    ensures forall j :: p <= j < i ==> s[j] != '\n'
    ensures i < |s| ==> s[i] == '\n'
    decreases |s| - p
  {
    if p == |s| || s[p] == '\n' then p else NewlineAt(s, p + 1)
  }

  /** The lines of a lexeme, from position p on. */
  function LinesFrom(s: string, p: nat): (r: seq<string>)
    requires p <= |s|
    ensures |r| > 0
    decreases |s| - p
  {
    var i := NewlineAt(s, p);
    if i == |s| then [s[p..]] else [s[p..i]] + LinesFrom(s, i + 1)
  }

  /** The i-th line; a lexeme cut short repeats its last one. */
  function LineOf(lines: seq<string>, i: nat): string
    requires |lines| > 0
  {
    lines[if i < |lines| then i else |lines| - 1]
  }

  /** The non-empty stretches of lines i .. n - 1 of a token that starts at (line, character). */
  function InnerMarks(lines: seq<string>, i: nat, n: nat, line: nat, character: nat, t: nat): seq<Segment>
    requires |lines| > 0 && i <= n
    decreases n - i
  {
    if i == n then []
    else
      var len := |LineOf(lines, i)|;
      (if len > 0 then [Segment(line + i, if i == 0 then character else 0, len, t, 0)] else []) +
      InnerMarks(lines, i + 1, n, line, character, t)
  }

  /** The stretches of one highlighted token; the last one may be empty. */
  function Marks(s: TokenSpan, t: nat): seq<Segment>
    requires AtMost(s.start, s.end)
  {
    if s.start.line == s.end.line then
      [Segment(s.start.line, s.start.character, s.end.character - s.start.character, t, 0)]
    else
      InnerMarks(LinesFrom(s.text, 0), 0, s.end.line - s.start.line, s.start.line, s.start.character, t) +
      [Segment(s.end.line, 0, s.end.character, t, 0)]
  }

  /** Every span ends no earlier than it starts, and its lexeme's length fits in 32 bits. */
  ghost predicate Forward(spans: seq<TokenSpan>) {
    forall i :: 0 <= i < |spans| ==> AtMost(spans[i].start, spans[i].end) && |spans[i].text| < 0x1_0000_0000
  }

  function AllMarks(spans: seq<TokenSpan>): seq<Segment>
    requires Forward(spans)
  {
    if spans == [] then []
    else
      var s := spans[|spans| - 1];
      AllMarks(spans[..|spans| - 1]) +
      (match Classify(s.kind) case None => [] case Some(t) => Marks(s, t))
  }

  /** The difference as 32 bits hold it: adding b back gives a, in 32 bits. */
  function Sub32(a: nat, b: nat): (r: uint32)
    ensures (r + b) % 0x1_0000_0000 == a % 0x1_0000_0000
  {
    (a - b) % 0x1_0000_0000
  }

  function U32(a: nat): uint32 {
    a % 0x1_0000_0000
  }

  /** The entry for one stretch relative to cursor c; an empty stretch has none. */
  function Entry(m: Segment, c: (nat, nat)): seq<uint32> {
    if U32(m.length) == 0 then []
    else
      var deltaLine := Sub32(m.line, c.0);
      [deltaLine, if deltaLine == 0 then Sub32(m.character, c.1) else U32(m.character),
       U32(m.length), U32(m.tokenType), U32(m.modifiers)]
  }

  function Cursor(ms: seq<Segment>, c: (nat, nat)): (nat, nat) {
    if ms == [] then c else (ms[|ms| - 1].line, ms[|ms| - 1].character)
  }

  function Encode(ms: seq<Segment>): seq<uint32> {
    if ms == [] then []
    else Encode(ms[..|ms| - 1]) + Entry(ms[|ms| - 1], Cursor(ms[..|ms| - 1], (0, 0)))
  }

  /** How a client reads the buffer: each five-tuple is relative to the token before it. */
  function Decode(buf: seq<uint32>): seq<Segment> {
    if |buf| < 5 then []
    else
      var n := |buf| - 5;
      var before := Decode(buf[..n]);
      var c := Cursor(before, (0, 0));
      var line := c.0 + buf[n];
      before + [Segment(line, if buf[n] == 0 then c.1 + buf[n + 1] else buf[n + 1], buf[n + 2], buf[n + 3], buf[n + 4])]
  }

  function NonEmpty(ms: seq<Segment>): seq<Segment> {
    if ms == [] then []
    else NonEmpty(ms[..|ms| - 1]) + (if ms[|ms| - 1].length == 0 then [] else [ms[|ms| - 1]])
  }

  // ---- bounds ----------------------------------------------------------------------------------

  lemma {:induction false} InnerMarksBound(lines: seq<string>, i: nat, n: nat, line: nat, character: nat, t: nat)
    requires |lines| > 0 && i <= n
    ensures |InnerMarks(lines, i, n, line, character, t)| <= n - i
    decreases n - i
  {
    if i < n { InnerMarksBound(lines, i + 1, n, line, character, t); }
  }

  lemma {:induction false} EncodeLength(ms: seq<Segment>)
    ensures |Encode(ms)| % 5 == 0 && |Encode(ms)| <= 5 * |ms|
  {
    if ms != [] { EncodeLength(ms[..|ms| - 1]); }
  }

  /** Punctuation counts for nothing, any other token for the lines it touches. */
  lemma CountedPerLine(spans: seq<TokenSpan>, s: TokenSpan)
    ensures NumSemEntries([]) == 0
    ensures NumSemEntries(spans + [s]) ==
            NumSemEntries(spans) + if s.kind in {LBrace, RBrace, Bang, Dot, Comma} then 0 else s.end.line - s.start.line + 1
  {
    assert (spans + [s])[..|spans|] == spans;
  }

  lemma MarksBound(s: TokenSpan, t: nat)
    requires AtMost(s.start, s.end)
    ensures |Marks(s, t)| <= s.end.line - s.start.line + 1
  {
    if s.start.line < s.end.line {
      InnerMarksBound(LinesFrom(s.text, 0), 0, s.end.line - s.start.line, s.start.line, s.start.character, t);
    }
  }

  /** Whatever the lexemes are, the entries counted at lex time are enough for the encoder. */
  lemma {:induction false} EncoderFits(spans: seq<TokenSpan>)
    requires Forward(spans)
    ensures |AllMarks(spans)| <= NumSemEntries(spans)
    ensures |Encode(AllMarks(spans))| <= 5 * NumSemEntries(spans)
  {
    hide Marks, Encode;
    EncodeLength(AllMarks(spans));
    if spans != [] {
      var s := spans[|spans| - 1];
      EncoderFits(spans[..|spans| - 1]);
      match Classify(s.kind) {
        case None =>
        case Some(t) => MarksBound(s, t);
      }
    }
  }

  // ---- round trip ------------------------------------------------------------------------------

  predicate NotAfter(c: (nat, nat), d: (nat, nat)) {
    c.0 < d.0 || (c.0 == d.0 && c.1 <= d.1)
  }

  predicate Small(m: Segment) {
    m.line < 0x1_0000_0000 && m.character < 0x1_0000_0000 && m.length < 0x1_0000_0000
    && m.tokenType < 0x1_0000_0000 && m.modifiers < 0x1_0000_0000
  }

  /** The stretches come in source order. */
  ghost predicate Ordered(ms: seq<Segment>) {
    && (forall i :: 0 <= i < |ms| ==> Small(ms[i]))
    && (forall i :: 0 < i < |ms| ==> NotAfter((ms[i - 1].line, ms[i - 1].character), (ms[i].line, ms[i].character)))
  }

  /** Before stretch m, the encoder stands at c and the client at d: does the client find m? */
  predicate InStep(c: (nat, nat), d: (nat, nat), m: Segment) {
    c.0 == d.0 && (m.line == c.0 ==> c.1 == d.1)
  }

  /** No visible stretch is placed relative to an empty one, unless that makes no difference. */
  ghost predicate NeverMisled(ms: seq<Segment>) {
    forall i :: 0 <= i < |ms| && ms[i].length > 0 ==>
                  InStep(Cursor(ms[..i], (0, 0)), Cursor(NonEmpty(ms[..i]), (0, 0)), ms[i])
  }

  lemma NeverMisledSnoc(ms: seq<Segment>)
    requires ms != []
    ensures var init, m := ms[..|ms| - 1], ms[|ms| - 1];
            NeverMisled(ms) <==>
            NeverMisled(init) &&
            (m.length > 0 ==> InStep(Cursor(init, (0, 0)), Cursor(NonEmpty(init), (0, 0)), m))
  {
    hide Cursor, NonEmpty, InStep;
    var init := ms[..|ms| - 1];
    forall i | 0 <= i < |init| ensures init[..i] == ms[..i] {}
  }

  lemma {:induction false} CursorsOrdered(ms: seq<Segment>)
    requires Ordered(ms)
    ensures NotAfter(Cursor(NonEmpty(ms), (0, 0)), Cursor(ms, (0, 0)))
  {
    if ms != [] {
      CursorsOrdered(ms[..|ms| - 1]);
    }
  }

  /** A client reads back exactly the visible stretches if and only if it is never misled. */
  lemma {:induction false} DecodeEncode(ms: seq<Segment>)
    requires Ordered(ms)
    ensures |Encode(ms)| % 5 == 0
    ensures Decode(Encode(ms)) == NonEmpty(ms) <==> NeverMisled(ms)
    decreases |ms|
  {
    EncodeLength(ms);
    if ms == [] {
      assert Decode(Encode(ms)) == [] == NonEmpty(ms);
    } else {
      DecodeEncodeStep(ms);
    }
  }

  lemma {:induction false} DecodeEncodeStep(ms: seq<Segment>)
    requires ms != [] && Ordered(ms) && |Encode(ms)| % 5 == 0
    ensures Decode(Encode(ms)) == NonEmpty(ms) <==> NeverMisled(ms)
    decreases |ms|, 0
  {
    var init, m := ms[..|ms| - 1], ms[|ms| - 1];
    assert Ordered(init) && Small(m) && NotAfter(Cursor(init, (0, 0)), (m.line, m.character));
    hide Encode, Decode, NonEmpty, NeverMisled, Ordered, Cursor;
    DecodeEncode(init);
    NeverMisledSnoc(ms);
    CursorsOrdered(init);
    if m.length > 0 {
      DecodeEncodeVisible(ms, init, m);
    } else {
      EmptyIsDropped(ms);
    }
  }

  lemma EmptyIsDropped(ms: seq<Segment>)
    requires ms != [] && ms[|ms| - 1].length == 0
    ensures Encode(ms) == Encode(ms[..|ms| - 1]) && NonEmpty(ms) == NonEmpty(ms[..|ms| - 1])
  {
    hide Cursor;
  }

  lemma DecodeEncodeVisible(ms: seq<Segment>, init: seq<Segment>, m: Segment)
    requires ms != [] && init == ms[..|ms| - 1] && m == ms[|ms| - 1] && m.length > 0 && Small(m)
    requires |Encode(init)| % 5 == 0 && |Encode(ms)| % 5 == 0
    requires NotAfter(Cursor(init, (0, 0)), (m.line, m.character))
    requires NotAfter(Cursor(NonEmpty(init), (0, 0)), Cursor(init, (0, 0)))
    ensures Decode(Encode(ms)) == NonEmpty(ms) <==>
            Decode(Encode(init)) == NonEmpty(init) &&
            InStep(Cursor(init, (0, 0)), Cursor(NonEmpty(init), (0, 0)), m)
  {
    var c, d := Cursor(init, (0, 0)), Cursor(NonEmpty(init), (0, 0));
    var e := Entry(m, c);
    assert Encode(ms) == Encode(init) + e && NonEmpty(ms) == NonEmpty(init) + [m];
    hide Encode, Decode, NonEmpty, Entry, InStep, DecodedSegment;
    DecodeSnoc(Encode(init), e);
    DecodeOne(m, c, d);
    var seen := Decode(Encode(init));
    SnocInjective(seen, DecodedSegment(e, Cursor(seen, (0, 0))), NonEmpty(init), m);
  }

  lemma SnocInjective<T>(s: seq<T>, x: T, t: seq<T>, y: T)
    ensures s + [x] == t + [y] <==> s == t && x == y
  {
    if s + [x] == t + [y] {
      assert s == (s + [x])[..|s|] && t == (t + [y])[..|t|];
      assert (s + [x])[|s|] == x && (t + [y])[|t|] == y;
    }
  }

  function DecodedSegment(e: seq<uint32>, c: (nat, nat)): Segment
    requires |e| == 5
  {
    Segment(c.0 + e[0], if e[0] == 0 then c.1 + e[1] else e[1], e[2], e[3], e[4])
  }

  lemma DecodeUnfold(buf: seq<uint32>)
    requires |buf| >= 5
    ensures var n := |buf| - 5;
            var c := Cursor(Decode(buf[..n]), (0, 0));
            Decode(buf) == Decode(buf[..n]) +
              [Segment(c.0 + buf[n], if buf[n] == 0 then c.1 + buf[n + 1] else buf[n + 1], buf[n + 2], buf[n + 3], buf[n + 4])]
  {
    hide Cursor;
  }

  lemma DecodeSnoc(buf: seq<uint32>, e: seq<uint32>)
    requires |e| == 5
    ensures Decode(buf + e) == Decode(buf) + [DecodedSegment(e, Cursor(Decode(buf), (0, 0)))]
  {
    DecodeUnfold(buf + e);
    hide Decode;
    var n, whole := |buf|, buf + e;
    assert |whole| - 5 == n && whole[..n] == buf;
    assert whole[n] == e[0] && whole[n + 1] == e[1] && whole[n + 2] == e[2] && whole[n + 3] == e[3] && whole[n + 4] == e[4];
  }

  lemma DecodeOne(m: Segment, c: (nat, nat), d: (nat, nat))
    requires Small(m) && m.length > 0 && NotAfter(c, (m.line, m.character)) && NotAfter(d, c)
    ensures |Entry(m, c)| == 5
    ensures DecodedSegment(Entry(m, c), d) == m <==> InStep(c, d, m)
  {
  }

  /** Spans in source order, none overlapping the next. */
  ghost predicate WellFormed(spans: seq<TokenSpan>) {
    && Forward(spans)
    && (forall i :: 0 < i < |spans| ==> AtMost(spans[i - 1].end, spans[i].start))
  }

  ghost predicate Within(ms: seq<Segment>, lo: (nat, nat), hi: (nat, nat)) {
    forall i :: 0 <= i < |ms| ==> NotAfter(lo, (ms[i].line, ms[i].character)) && NotAfter((ms[i].line, ms[i].character), hi)
  }

  lemma OrderedConcat(xs: seq<Segment>, ys: seq<Segment>, lo: (nat, nat), mid: (nat, nat), hi: (nat, nat))
    requires Ordered(xs) && Ordered(ys) && Within(xs, lo, mid) && Within(ys, mid, hi)
    requires NotAfter(lo, mid) && NotAfter(mid, hi)
    ensures Ordered(xs + ys) && Within(xs + ys, lo, hi)
  {
    var zs := xs + ys;
    forall i | 0 < i < |zs|
      ensures NotAfter((zs[i - 1].line, zs[i - 1].character), (zs[i].line, zs[i].character))
    {
      if i < |xs| {
        assert zs[i - 1] == xs[i - 1] && zs[i] == xs[i];
      } else if i == |xs| {
        assert zs[i - 1] == xs[|xs| - 1] && zs[i] == ys[0];
      } else {
        assert zs[i - 1] == ys[i - 1 - |xs|] && zs[i] == ys[i - |xs|];
      }
    }
  }

  lemma {:induction false} InnerMarksOrdered(lines: seq<string>, i: nat, n: nat, line: nat, character: nat, t: nat)
    requires |lines| > 0 && i <= n && line + n < 0x1_0000_0000 && character < 0x1_0000_0000 && t < 0x1_0000_0000
    requires forall j :: 0 <= j < |lines| ==> |lines[j]| < 0x1_0000_0000
    ensures Ordered(InnerMarks(lines, i, n, line, character, t))
    ensures Within(InnerMarks(lines, i, n, line, character, t), (line + i, if i == 0 < n then character else 0), (line + n, 0))
    decreases n - i
  {
    if i < n {
      InnerMarksOrdered(lines, i + 1, n, line, character, t);
      var at := (line + i, if i == 0 then character else 0);
      var len := |LineOf(lines, i)|;
      var head := if len > 0 then [Segment(at.0, at.1, len, t, 0)] else [];
      OrderedConcat(head, InnerMarks(lines, i + 1, n, line, character, t), at, (line + i + 1, 0), (line + n, 0)) by {
        assert Within(head, at, at);
      }
    }
  }

  lemma {:induction false} LinesAreShort(s: string, p: nat)
    requires p <= |s|
    ensures forall j :: 0 <= j < |LinesFrom(s, p)| ==> |LinesFrom(s, p)[j]| <= |s|
    decreases |s| - p
  {
    var i := NewlineAt(s, p);
    if i < |s| { LinesAreShort(s, i + 1); }
  }

  lemma MarksOrdered(s: TokenSpan, t: uint32)
    requires AtMost(s.start, s.end) && |s.text| < 0x1_0000_0000
    ensures Ordered(Marks(s, t)) && Within(Marks(s, t), (s.start.line, s.start.character), (s.end.line, s.end.character))
  {
    if s.start.line < s.end.line {
      var lines, n := LinesFrom(s.text, 0), s.end.line - s.start.line;
      LinesAreShort(s.text, 0);
      InnerMarksOrdered(lines, 0, n, s.start.line, s.start.character, t);
      var last := [Segment(s.end.line, 0, s.end.character, t, 0)];
      OrderedConcat(InnerMarks(lines, 0, n, s.start.line, s.start.character, t), last,
                    (s.start.line, s.start.character), (s.end.line, 0), (s.end.line, s.end.character));
    }
  }

  lemma {:induction false} AllMarksOrdered(spans: seq<TokenSpan>)
    requires WellFormed(spans)
    ensures Ordered(AllMarks(spans))
    ensures spans != [] ==> var e := spans[|spans| - 1].end; Within(AllMarks(spans), (0, 0), (e.line, e.character))
    ensures spans == [] ==> AllMarks(spans) == []
  {
    hide Marks, Ordered;
    if spans == [] {
      EmptyOrdered();
    } else {
      var init, s := spans[..|spans| - 1], spans[|spans| - 1];
      AllMarksOrdered(init);
      var start, end := (s.start.line, s.start.character), (s.end.line, s.end.character);
      assert Within(AllMarks(init), (0, 0), start) by {
        if init != [] { assert init[|init| - 1] == spans[|spans| - 2]; }
      }
      match Classify(s.kind) {
        case None =>
          assert AllMarks(spans) == AllMarks(init);
        case Some(t) =>
          MarksOrdered(s, t);
          OrderedConcat(AllMarks(init), Marks(s, t), (0, 0), start, end);
      }
    }
  }

  lemma EmptyOrdered()
    ensures Ordered([])
  {
  }

  /** The last stretch of the token is not empty; every token the lexer closes is so. */
  predicate EndsVisibly(s: TokenSpan) {
    if s.start.line == s.end.line then s.start.character < s.end.character else 0 < s.end.character
  }

  lemma {:induction false} InnerMarksVisible(lines: seq<string>, i: nat, n: nat, line: nat, character: nat, t: nat)
    requires |lines| > 0 && i <= n
    ensures forall m :: m in InnerMarks(lines, i, n, line, character, t) ==> m.length > 0
    decreases n - i
  {
    if i < n { InnerMarksVisible(lines, i + 1, n, line, character, t); }
  }

  lemma MarksVisible(s: TokenSpan, t: nat)
    requires AtMost(s.start, s.end) && EndsVisibly(s)
    ensures forall m :: m in Marks(s, t) ==> m.length > 0
  {
    if s.start.line < s.end.line {
      InnerMarksVisible(LinesFrom(s.text, 0), 0, s.end.line - s.start.line, s.start.line, s.start.character, t);
    }
  }

  lemma {:induction false} AllMarksVisible(spans: seq<TokenSpan>)
    requires Forward(spans)
    requires forall i :: 0 <= i < |spans| && Classify(spans[i].kind).Some? ==> EndsVisibly(spans[i])
    ensures forall m :: m in AllMarks(spans) ==> m.length > 0
  {
    hide Marks;
    if spans != [] {
      var s := spans[|spans| - 1];
      AllMarksVisible(spans[..|spans| - 1]);
      match Classify(s.kind) {
        case None =>
        case Some(t) => MarksVisible(s, t);
      }
    }
  }

  lemma {:induction false} NonEmptyByPlace(ms: seq<Segment>)
    requires forall i :: 0 <= i < |ms| ==> ms[i].length > 0
    ensures NonEmpty(ms) == ms
  {
    if ms != [] {
      NonEmptyByPlace(ms[..|ms| - 1]);
      assert ms == ms[..|ms| - 1] + [ms[|ms| - 1]];
    }
  }

  lemma NonEmptyOfVisible(ms: seq<Segment>)
    requires forall m :: m in ms ==> m.length > 0
    ensures NonEmpty(ms) == ms
  {
    NonEmptyByPlace(ms);
  }

  /** When no token ends in an empty line, the client reads back exactly the stretches the encoder meant. */
  lemma MarksRead(spans: seq<TokenSpan>)
    requires WellFormed(spans)
    requires forall i :: 0 <= i < |spans| && Classify(spans[i].kind).Some? ==> EndsVisibly(spans[i])
    ensures |Encode(AllMarks(spans))| % 5 == 0 && Decode(Encode(AllMarks(spans))) == AllMarks(spans)
  {
    var ms := AllMarks(spans);
    AllMarksOrdered(spans);
    AllMarksVisible(spans);
    DecodeEncode(ms);
    hide Encode, Decode, AllMarks, NonEmpty;
    forall i | 0 <= i < |ms| && ms[i].length > 0
      ensures InStep(Cursor(ms[..i], (0, 0)), Cursor(NonEmpty(ms[..i]), (0, 0)), ms[i])
    {
      NonEmptyOfVisible(ms[..i]);
    }
    NonEmptyOfVisible(ms);
  }

  /** Without that guarantee it fails: a comment ending at column 0, which no rule of the lexer makes, would
      shift the identifier after it. */
  lemma EmptyEndMisleads()
    ensures var spans := [TokenSpan(BlockComment, Pos(0, 0), Pos(1, 0), "/*\n"), TokenSpan(Ident, Pos(2, 0), Pos(2, 3), "abc")];
            && WellFormed(spans)
            && |Encode(AllMarks(spans))| % 5 == 0 && Decode(Encode(AllMarks(spans))) != NonEmpty(AllMarks(spans))
  {
    var spans := [TokenSpan(BlockComment, Pos(0, 0), Pos(1, 0), "/*\n"), TokenSpan(Ident, Pos(2, 0), Pos(2, 3), "abc")];
    var ms := MisleadingMarks(spans);
    AllMarksOrdered(spans);
    DecodeEncode(ms);
    hide Encode, Decode, AllMarks;
    var first, ending := Segment(0, 0, 2, 1, 0), Segment(1, 0, 0, 1, 0);
    assert ms[..2] == [first, ending] && [first, ending][..1] == [first] && [first][..0] == [];
    assert NonEmpty([first]) == [] + [first];
    assert NonEmpty([first, ending]) == [first] + [];
    assert !InStep(Cursor(ms[..2], (0, 0)), Cursor(NonEmpty(ms[..2]), (0, 0)), ms[2]);
  }

  lemma MisleadingMarks(spans: seq<TokenSpan>) returns (ms: seq<Segment>)
    requires spans == [TokenSpan(BlockComment, Pos(0, 0), Pos(1, 0), "/*\n"), TokenSpan(Ident, Pos(2, 0), Pos(2, 3), "abc")]
    ensures ms == AllMarks(spans) == [Segment(0, 0, 2, 1, 0), Segment(1, 0, 0, 1, 0), Segment(2, 0, 3, 4, 0)]
  {
    var comment, ident := spans[0], spans[1];
    var first, ending, third := Segment(0, 0, 2, 1, 0), Segment(1, 0, 0, 1, 0), Segment(2, 0, 3, 4, 0);
    assert Marks(comment, 1) == [first, ending] by {
      assert NewlineAt(comment.text, 0) == 2;
      assert LinesFrom(comment.text, 0)[0] == comment.text[0..2];
      assert InnerMarks(LinesFrom(comment.text, 0), 1, 1, 0, 0, 1) == [];
    }
    assert Marks(ident, 4) == [third];
    hide Marks;
    assert spans[..1] == [comment] && [comment][..0] == [];
    assert AllMarks([comment]) == [] + [first, ending];
    ms := [first, ending, third];
  }

  // ---- the encoder -----------------------------------------------------------------------------

  method PushRelativeEntry(buf: array<uint32>, count: nat, ghost done: seq<Segment>, m: Segment, prevLine: nat, prevChar: nat)
    returns (n: nat)
    requires count + 5 <= buf.Length && buf[..count] == Encode(done)
    requires (prevLine, prevChar) == Cursor(done, (0, 0))
    modifies buf
    ensures n <= count + 5 && buf[..n] == Encode(done + [m]) && (m.line, m.character) == Cursor(done + [m], (0, 0))
  {
    assert (done + [m])[..|done|] == done;
    var deltaLine := Sub32(m.line, prevLine);
    var deltaStart := if deltaLine == 0 then Sub32(m.character, prevChar) else U32(m.character);
    n := count;
    if U32(m.length) != 0 {
      buf[n], buf[n + 1], buf[n + 2], buf[n + 3], buf[n + 4] :=
        deltaLine, deltaStart, U32(m.length), U32(m.tokenType), U32(m.modifiers);
      n := n + 5;
      assert buf[..n] == Encode(done) + Entry(m, (prevLine, prevChar));
    }
  }

  /** Where strchr finds the next newline. */
  method FindNewline(s: string, p: nat) returns (i: nat)
    requires p <= |s|
    ensures i == NewlineAt(s, p)
  {
    i := p;
    while i < |s| && s[i] != '\n'
      invariant p <= i <= |s| && NewlineAt(s, i) == NewlineAt(s, p)
    {
      i := i + 1;
    }
  }

  /** The mark of line i, if it is not empty. */
  function LineMark(lines: seq<string>, i: nat, line: nat, character: nat, t: nat): seq<Segment>
    requires |lines| > 0
  {
    var len := |LineOf(lines, i)|;
    if len > 0 then [Segment(line + i, if i == 0 then character else 0, len, t, 0)] else []
  }

  lemma InnerMarksUnfold(lines: seq<string>, i: nat, n: nat, line: nat, character: nat, t: nat)
    requires |lines| > 0 && i <= n
    ensures InnerMarks(lines, n, n, line, character, t) == []
    ensures i < n ==> InnerMarks(lines, i, n, line, character, t) ==
                      LineMark(lines, i, line, character, t) + InnerMarks(lines, i + 1, n, line, character, t)
  {
    hide LineOf;
  }

  /** The marks done when line i of the token is next; a line index past the end stays on the last. */
  lemma {:induction false} InnerMarksSnoc(lines: seq<string>, i: nat, n: nat, line: nat, character: nat, t: nat)
    requires |lines| > 0 && i <= n
    ensures InnerMarks(lines, i, n + 1, line, character, t) ==
            InnerMarks(lines, i, n, line, character, t) + LineMark(lines, n, line, character, t)
    decreases n - i
  {
    hide LineMark, InnerMarks;
    InnerMarksUnfold(lines, i, n, line, character, t);
    InnerMarksUnfold(lines, i, n + 1, line, character, t);
    InnerMarksUnfold(lines, n + 1, n + 1, line, character, t);
    if i < n {
      InnerMarksSnoc(lines, i + 1, n, line, character, t);
    } else {
      assert LineMark(lines, n, line, character, t) + [] == [] + LineMark(lines, n, line, character, t);
    }
  }

  /** p points at line i of the lexeme, or at its last line when it has fewer. */
  ghost predicate AtLine(s: string, p: nat, lines: seq<string>, i: nat) {
    && |lines| > 0 && p <= |s|
    && LinesFrom(s, p) == lines[if i < |lines| then i else |lines| - 1..]
  }

  lemma FirstLine(s: TokenSpan, t: nat)
    ensures AtLine(s.text, 0, LinesFrom(s.text, 0), 0)
    ensures InnerMarks(LinesFrom(s.text, 0), 0, 0, s.start.line, s.start.character, t) == []
  {
  }

  lemma NextLine(s: string, p: nat, lines: seq<string>, i: nat)
    requires AtLine(s, p, lines, i)
    ensures var q := NewlineAt(s, p);
            && q - p == |LineOf(lines, i)|
            && AtLine(s, if q < |s| then q + 1 else p, lines, i + 1)
  {
    var q := NewlineAt(s, p);
    var j := if i < |lines| then i else |lines| - 1;
    assert LinesFrom(s, p)[0] == lines[j];
    assert lines[j..][1..] == lines[j + 1..];
    if q < |s| {
      assert LinesFrom(s, p)[1..] == LinesFrom(s, q + 1);
    }
  }

  /** Appends the entries of one highlighted token. */
  method EmitToken(buf: array<uint32>, count: nat, ghost done: seq<Segment>, s: TokenSpan, t: uint32, prevLine: nat, prevChar: nat)
    returns (n: nat, line: nat, character: nat)
    requires AtMost(s.start, s.end) && count + 5 * (s.end.line - s.start.line + 1) <= buf.Length
    requires buf[..count] == Encode(done) && (prevLine, prevChar) == Cursor(done, (0, 0))
    modifies buf
    ensures n <= count + 5 * (s.end.line - s.start.line + 1) && buf[..n] == Encode(done + Marks(s, t))
    ensures (line, character) == Cursor(done + Marks(s, t), (0, 0))
  {
    hide Encode, InnerMarks, LinesFrom, AtLine, LineOf, NewlineAt;
    n, line, character := count, prevLine, prevChar;
    if s.start.line == s.end.line {
      var m := Segment(s.start.line, s.start.character, s.end.character - s.start.character, t, 0);
      n := PushRelativeEntry(buf, n, done, m, line, character);
      return n, m.line, m.character;
    }
    var p: nat, i: nat := 0, 0;
    ghost var lines := LinesFrom(s.text, 0);
    FirstLine(s, t);
    ghost var emitted := done;
    while s.start.line + i < s.end.line
      invariant i <= s.end.line - s.start.line && p <= |s.text| && AtLine(s.text, p, lines, i)
      invariant emitted == done + InnerMarks(lines, 0, i, s.start.line, s.start.character, t)
      invariant n <= count + 5 * i && n <= buf.Length && buf[..n] == Encode(emitted)
      invariant (line, character) == Cursor(emitted, (0, 0))
    {
      var nl := FindNewline(s.text, p);
      NextLine(s.text, p, lines, i);
      InnerMarksSnoc(lines, 0, i, s.start.line, s.start.character, t);
      if nl > p {
        var m := Segment(s.start.line + i, if i == 0 then s.start.character else 0, nl - p, t, 0);
        n := PushRelativeEntry(buf, n, emitted, m, line, character);
        emitted := emitted + [m];
        line, character := m.line, m.character;
      }
      if nl < |s.text| { p := nl + 1; }
      i := i + 1;
    }
    var m := Segment(s.start.line + i, 0, s.end.character, t, 0);
    n := PushRelativeEntry(buf, n, emitted, m, line, character);
    line, character := m.line, m.character;
    assert emitted + [m] == done + Marks(s, t);
  }

  /** The buffer for a document, sized by the count taken at lex time. */
  method ComputeSemanticTokensData(spans: seq<TokenSpan>, numSemEntries: int) returns (data: seq<uint32>)
    requires Forward(spans) && numSemEntries == NumSemEntries(spans)
    ensures data == Encode(AllMarks(spans))
  {
    hide Encode, Marks, AllMarks, NumSemEntries;
    CountIsNatural(spans);
    var cap := numSemEntries * 5;
    var buf := new uint32[if cap > 0 then cap else 1];
    var count: nat, line: nat, character: nat := 0, 0, 0;
    NothingYet();
    assert spans[..0] == [] && buf[..0] == [];
    for i := 0 to |spans|
      invariant count <= 5 * NumSemEntries(spans[..i]) && count <= buf.Length
      invariant buf[..count] == Encode(AllMarks(spans[..i]))
      invariant (line, character) == Cursor(AllMarks(spans[..i]), (0, 0))
    {
      CountGrows(spans, i + 1);
      CountGrowsBy(spans, i);
      AllMarksSnoc(spans, i);
      match Classify(spans[i].kind) {
        case None =>
        case Some(t) =>
          count, line, character := EmitToken(buf, count, AllMarks(spans[..i]), spans[i], t, line, character);
      }
    }
    assert spans[..|spans|] == spans;
    data := buf[..count];
  }

  lemma NothingYet()
    ensures Encode([]) == [] && AllMarks([]) == [] && NumSemEntries([]) == 0
  {
  }

  lemma AllMarksSnoc(spans: seq<TokenSpan>, i: nat)
    requires Forward(spans) && i < |spans|
    ensures match Classify(spans[i].kind)
            case None => AllMarks(spans[..i + 1]) == AllMarks(spans[..i])
            case Some(t) => AllMarks(spans[..i + 1]) == AllMarks(spans[..i]) + Marks(spans[i], t)
  {
    assert spans[..i + 1][..i] == spans[..i];
  }

  lemma {:induction false} CountIsNatural(spans: seq<TokenSpan>)
    requires Forward(spans)
    ensures NumSemEntries(spans) >= 0
  {
    if spans != [] { CountIsNatural(spans[..|spans| - 1]); }
  }

  lemma CountGrowsBy(spans: seq<TokenSpan>, i: nat)
    requires Forward(spans) && i < |spans|
    ensures NumSemEntries(spans[..i + 1]) >= NumSemEntries(spans[..i])
    ensures Classify(spans[i].kind).Some? ==>
              NumSemEntries(spans[..i + 1]) == NumSemEntries(spans[..i]) + spans[i].end.line - spans[i].start.line + 1
  {
    assert spans[..i + 1][..i] == spans[..i];
  }

  lemma {:induction false} CountGrows(spans: seq<TokenSpan>, i: nat)
    requires Forward(spans) && i <= |spans|
    ensures NumSemEntries(spans[..i]) <= NumSemEntries(spans)
    decreases |spans| - i
  {
    if i < |spans| {
      CountGrowsBy(spans, i);
      CountGrows(spans, i + 1);
    } else {
      assert spans[..i] == spans;
    }
  }
}