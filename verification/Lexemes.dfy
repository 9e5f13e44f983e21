/** Lexemes of several fragments: the bounded buffer that collects them, and what of their lines a client sees. */
module Lexemes {
  import opened Lsp
  import opened SemanticTokens

  function Lines(s: string): (r: seq<string>)
    ensures |r| > 0
  {
    LinesFrom(s, 0)
  }

  // ---- the buffer ------------------------------------------------------------------------------

  /** One append: a fragment that does not fit into the 4096 bytes is dropped whole. */
  function Append(buf: string, frag: string): string {
    if |buf| + |frag| < 4095 then buf + frag else buf
  }

  /** What the buffer holds after all fragments of a token. */
  function Interned(frags: seq<string>): string {
    if frags == [] then "" else Append(Interned(frags[..|frags| - 1]), frags[|frags| - 1])
  }

  /** The token as it stands in the source. */
  function Lexeme(frags: seq<string>): string {
    if frags == [] then "" else Lexeme(frags[..|frags| - 1]) + frags[|frags| - 1]
  }

  class StrBuf {
    const data: array<char>
    var len: nat

    ghost predicate Valid()
      reads this
    {
      data.Length == 4096 && len < 4095
    }

    ghost function Contents(): string
      requires Valid()
      reads this, data
    {
      data[..len]
    }

    constructor ()
      ensures Valid() && fresh(data) && Contents() == ""
    {
      data := new char[4096];
      len := 0;
    }

    method Reset()
      requires Valid()
      modifies this`len
      ensures Valid() && Contents() == ""
    {
      len := 0;
    }

    method StrAppend(s: string)
      requires Valid()
      modifies this`len, data
      ensures Valid() && Contents() == Append(old(Contents()), s)
    {
      if len + |s| < data.Length - 1 {
        forall i | 0 <= i < |s| { data[len + i] := s[i]; }
        len := len + |s|;
      }
    }

    method Finish()
      requires Valid()
      modifies data
      ensures Valid() && Contents() == old(Contents()) && data[len] == '\0'
    {
      data[len] := '\0';
    }

    /** The rules of one token: reset at the opening delimiter, append each fragment, finish at the closing one. */
    method Collect(frags: seq<string>) returns (text: string)
      requires Valid()
      modifies this`len, data
      ensures Valid() && text == Interned(frags)
    {
      Reset();
      assert frags[..0] == [];
      for i := 0 to |frags|
        invariant Valid() && Contents() == Interned(frags[..i])
      {
        assert frags[..i + 1][..i] == frags[..i];
        StrAppend(frags[i]);
      }
      assert frags[..|frags|] == frags;
      Finish();
      text := data[..len];
    }
  }

  // ---- what the scanner does with a token --------------------------------------------------------

  /** Every rule of a token matches one newline or some characters other than newlines. */
  predicate Fragments(frags: seq<string>) {
    forall i :: 0 <= i < |frags| ==> frags[i] == "\n" || (frags[i] != "" && '\n' !in frags[i])
  }

  /** Lines and columns as the rules count them: a newline resets the column. */
  function EndOf(start: (nat, nat), frags: seq<string>): (nat, nat) {
    if frags == [] then start
    else
      var at := EndOf(start, frags[..|frags| - 1]);
      if frags[|frags| - 1] == "\n" then (at.0 + 1, 0) else (at.0, at.1 + |frags[|frags| - 1]|)
  }

  predicate Buffered(kind: Kind) {
    kind.BlockComment? || kind.Str? || kind.MultiLineStr?
  }

  /** s is the span recorded for these fragments. The last one is the closing delimiter, or the whole
      token where one rule matches it. */
  ghost predicate Scanned(s: TokenSpan, frags: seq<string>) {
    && Fragments(frags) && frags != [] && frags[|frags| - 1] != "\n"
    && EndOf((s.start.line, s.start.character), frags) == (s.end.line, s.end.character)
    && (if Buffered(s.kind) then s.text == Interned(frags) else |frags| == 1)
  }

  // ---- the segments a reader of the source expects -----------------------------------------------

  /** The token types announced to the client, in this order. */
  const LEGEND := ["keyword", "comment", "string", "number", "variable", "function"]

  /** What a token is to be shown as: nothing for braces, brackets and the separators of references. */
  function Face(kind: Kind): Option<string> {
    if kind.Keyword? then
      if kind.word == "project" || kind.word == "task" || kind.word == "resource" || kind.word == "account"
         || kind.word == "shift" then Some("keyword") else Some("function")
    else if kind in {LineComment, BlockComment} then Some("comment")
    else if kind in {Str, MultiLineStr} then Some("string")
    else if kind in {Date, Duration} then Some("number")
    else if kind == Ident then Some("variable")
    else None
  }

  function IndexOf(names: seq<string>, name: string): (i: nat)
    ensures i <= |names| && (i < |names| ==> names[i] == name) && (i == |names| ==> name !in names)
  {
    if names == [] || names[0] == name then 0 else 1 + IndexOf(names[1..], name)
  }

  lemma LegendPlaces()
    ensures |LEGEND| == 6
    ensures forall i, j :: 0 <= i < j < |LEGEND| ==> LEGEND[i] != LEGEND[j]
  {
    assert |LEGEND[0]| == 7 && |LEGEND[1]| == 7 && |LEGEND[2]| == 6 && |LEGEND[3]| == 6 && |LEGEND[4]| == 8 && |LEGEND[5]| == 8;
    assert LEGEND[0][0] != LEGEND[1][0] && LEGEND[2][0] != LEGEND[3][0] && LEGEND[4][0] != LEGEND[5][0];
  }

  lemma PlaceOf(i: nat)
    requires i < 6
    ensures IndexOf(LEGEND, LEGEND[i]) == i
  {
    hide IndexOf;
    LegendPlaces();
    var j := IndexOf(LEGEND, LEGEND[i]);
    assert forall k :: 0 <= k < |LEGEND| && LEGEND[k] == LEGEND[i] ==> k == i;
    assert LEGEND[i] in LEGEND && LEGEND[j] == LEGEND[i];
  }

  /** The number sent for a kind is the place in the legend of what it is to be shown as. */
  lemma TypesNameFaces(kind: Kind)
    ensures Classify(kind).Some? <==> Face(kind).Some?
    ensures Face(kind).Some? ==>
              var t := Classify(kind).value; t < |LEGEND| && LEGEND[t] == Face(kind).value && t == IndexOf(LEGEND, Face(kind).value)
  {
    hide IndexOf;
    if Classify(kind).Some? {
      PlaceOf(Classify(kind).value);
    }
  }

  /** One segment for each line that is not empty. */
  function LineMarks(lines: seq<string>, line: nat, character: nat, t: nat): seq<Segment> {
    if lines == [] then []
    else
      var n := |lines| - 1;
      LineMarks(lines[..n], line, character, t) +
      (if lines[n] == "" then [] else [Segment(line + n, if n == 0 then character else 0, |lines[n]|, t, 0)])
  }

  function TrueMarks(s: TokenSpan, lexeme: string, t: nat): seq<Segment> {
    LineMarks(Lines(lexeme), s.start.line, s.start.character, t)
  }

  function AllTrueMarks(spans: seq<TokenSpan>, lexemes: seq<string>): seq<Segment>
    requires |spans| == |lexemes|
  {
    if spans == [] then []
    else
      var n := |spans| - 1;
      AllTrueMarks(spans[..n], lexemes[..n]) +
      (match Face(spans[n].kind)
       case None => []
       case Some(name) => TrueMarks(spans[n], lexemes[n], IndexOf(LEGEND, name)))
  }

  /** The span's range is the lexeme's: as many line breaks, and the last line ends where the span does. */
  ghost predicate Spans(s: TokenSpan, lexeme: string) {
    var lines := Lines(lexeme);
    && s.start.line + |lines| == s.end.line + 1
    && (if |lines| == 1 then s.start.character else 0) + |lines[|lines| - 1]| == s.end.character
  }

  /** Walking the text the encoder was given meets lines as long as the lexeme's, up to the last. */
  ghost predicate SameLengths(text: string, lexeme: string) {
    LengthsAgree(Lines(text), Lines(lexeme), |Lines(lexeme)| - 1)
  }

  ghost predicate LengthsAgree(kept: seq<string>, lines: seq<string>, k: nat)
    requires |kept| > 0 && k <= |lines|
  {
    forall i :: 0 <= i < k ==> |LineOf(kept, i)| == |lines[i]|
  }

  // ---- lines -----------------------------------------------------------------------------------

  lemma {:induction false} NewlineOfConcat(a: string, b: string, p: nat)
    requires p <= |a|
    ensures var i := NewlineAt(a, p);
            NewlineAt(a + b, p) == if i < |a| then i else |a| + NewlineAt(b, 0)
    decreases |a| - p
  {
    if p == |a| {
      NewlineShifted(a, b, 0);
    } else if a[p] != '\n' {
      NewlineOfConcat(a, b, p + 1);
    }
  }

  lemma {:induction false} NewlineShifted(a: string, b: string, q: nat)
    requires q <= |b|
    ensures NewlineAt(a + b, |a| + q) == |a| + NewlineAt(b, q)
    decreases |b| - q
  {
    if q < |b| && b[q] != '\n' { NewlineShifted(a, b, q + 1); }
  }

  lemma {:induction false} LinesShifted(a: string, b: string, q: nat)
    requires q <= |b|
    ensures LinesFrom(a + b, |a| + q) == LinesFrom(b, q)
    decreases |b| - q
  {
    NewlineShifted(a, b, q);
    var i := NewlineAt(b, q);
    if i < |b| {
      LinesShifted(a, b, i + 1);
      assert (a + b)[|a| + q..|a| + i] == b[q..i];
    } else {
      assert (a + b)[|a| + q..] == b[q..];
    }
  }

  /** The last line of the first string goes on with the first line of the second. */
  function JoinLines(xs: seq<string>, ys: seq<string>): seq<string>
    requires |xs| > 0 && |ys| > 0
  {
    xs[..|xs| - 1] + [xs[|xs| - 1] + ys[0]] + ys[1..]
  }

  lemma LinesUnfold(s: string, p: nat)
    requires p <= |s|
    ensures var i := NewlineAt(s, p);
            LinesFrom(s, p) == if i == |s| then [s[p..]] else [s[p..i]] + LinesFrom(s, i + 1)
  {
  }

  lemma {:induction false} LinesOfConcatFrom(a: string, b: string, p: nat)
    requires p <= |a|
    ensures LinesFrom(a + b, p) == JoinLines(LinesFrom(a, p), LinesFrom(b, 0))
    decreases |a| - p
  {
    hide NewlineAt, LinesFrom, JoinLines;
    NewlineOfConcat(a, b, p);
    LinesUnfold(a, p);
    LinesUnfold(b, 0);
    LinesUnfold(a + b, p);
    var i := NewlineAt(a, p);
    if i < |a| {
      LinesOfConcatFrom(a, b, i + 1);
      assert (a + b)[p..i] == a[p..i];
      JoinCons(a[p..i], LinesFrom(a, i + 1), LinesFrom(b, 0));
    } else {
      var j := NewlineAt(b, 0);
      if j < |b| {
        assert |a| + j + 1 == |a| + (j + 1);
        LinesShifted(a, b, j + 1);
        assert (a + b)[p..|a| + j] == a[p..] + b[0..j];
        JoinFirst(a[p..], b[0..j], LinesFrom(b, j + 1));
      } else {
        assert (a + b)[p..] == a[p..] + b[0..];
        JoinFirst(a[p..], b[0..], []);
        assert [b[0..]] + [] == [b[0..]] && [a[p..] + b[0..]] + [] == [a[p..] + b[0..]];
      }
    }
  }

  lemma JoinCons(x: string, xs: seq<string>, ys: seq<string>)
    requires |xs| > 0 && |ys| > 0
    ensures JoinLines([x] + xs, ys) == [x] + JoinLines(xs, ys)
  {
    assert ([x] + xs)[..|xs|] == [x] + xs[..|xs| - 1];
  }

  lemma JoinFirst(x: string, y: string, ys: seq<string>)
    ensures JoinLines([x], [y] + ys) == [x + y] + ys
  {
    assert [x][..0] == [] && ([y] + ys)[1..] == ys;
  }

  lemma LinesOfConcat(a: string, b: string)
    ensures Lines(a + b) == JoinLines(Lines(a), Lines(b))
  {
    LinesOfConcatFrom(a, b, 0);
  }

  lemma {:induction false} NoNewlineFrom(s: string, p: nat)
    requires p <= |s|
    ensures NewlineAt(s, p) == |s| <==> '\n' !in s[p..]
    decreases |s| - p
  {
    if p < |s| && s[p] != '\n' {
      NoNewlineFrom(s, p + 1);
      assert s[p..] == [s[p]] + s[p + 1..];
    }
  }

  lemma OneLine(s: string)
    ensures |Lines(s)| == 1 <==> '\n' !in s
    ensures '\n' !in s ==> Lines(s) == [s]
    ensures s == "\n" ==> Lines(s) == ["", ""]
  {
    NoNewlineFrom(s, 0);
    LinesUnfold(s, 0);
    assert s[0..] == s;
    if s == "\n" {
      LinesUnfold(s, 1);
      assert NewlineAt(s, 0) == 0;
      assert NewlineAt(s, 1) == 1;
      assert s[0..0] == "" && s[1..] == "";
    }
  }

  function LengthenedBy(lines: seq<string>, frag: string): seq<string>
    requires |lines| > 0
  {
    var n := |lines| - 1;
    if frag == "\n" then lines + [""] else lines[..n] + [lines[n] + frag]
  }

  /** One more fragment: a newline starts a line, anything else lengthens the last. */
  lemma LinesOfFragment(s: string, frag: string)
    requires frag == "\n" || '\n' !in frag
    ensures Lines(s + frag) == LengthenedBy(Lines(s), frag)
  {
    LinesOfConcat(s, frag);
    OneLine(frag);
    var lines := Lines(s);
    hide Lines;
    if frag == "\n" {
      assert lines[|lines| - 1] + "" == lines[|lines| - 1];
    }
  }

  // ---- the recorded range ------------------------------------------------------------------------

  lemma {:induction false} EndIsLexemeEnd(start: (nat, nat), frags: seq<string>)
    requires Fragments(frags)
    ensures var lines := Lines(Lexeme(frags));
            EndOf(start, frags) == (start.0 + |lines| - 1, (if |lines| == 1 then start.1 else 0) + |lines[|lines| - 1]|)
  {
    hide Lines;
    if frags == [] {
      OneLine("");
    } else {
      EndIsLexemeEnd(start, frags[..|frags| - 1]);
      LinesOfFragment(Lexeme(frags[..|frags| - 1]), frags[|frags| - 1]);
    }
  }

  lemma {:induction false} EndNotBefore(start: (nat, nat), frags: seq<string>)
    ensures NotAfter(start, EndOf(start, frags))
  {
    if frags != [] { EndNotBefore(start, frags[..|frags| - 1]); }
  }

  /** A scanned span has its lexeme's range and, because something other than a newline closes it,
      does not end in an empty line. */
  lemma ClosedTokensEndVisibly(s: TokenSpan, frags: seq<string>)
    requires Scanned(s, frags)
    ensures AtMost(s.start, s.end) && EndsVisibly(s) && Spans(s, Lexeme(frags))
  {
    hide Interned, Lines;
    var start := (s.start.line, s.start.character);
    EndIsLexemeEnd(start, frags);
    EndNotBefore(start, frags[..|frags| - 1]);
    assert |frags[|frags| - 1]| > 0;
  }

  // ---- what cutting does to the lines ------------------------------------------------------------

  /** Checkable on the source text: no line break lies beyond the buffer; or the first character that
      does not fit is one, and the lines after it, up to the last, are as long as the one it ends. */
  ghost predicate Spared(lexeme: string) {
    || (forall j :: 4095 <= j < |lexeme| ==> lexeme[j] != '\n')
    || (&& |lexeme| > 4094 && lexeme[4094] == '\n'
        && var lines, k := Lines(lexeme), |Lines(lexeme[..4094])| - 1;
           forall i :: k < i < |lines| - 1 ==> |lines[i]| == |lines[k]|)
  }

  /** The buffer after some fragments: everything; or all before a line break that found it full; or
      a line cut short, with everything before that line. */
  ghost predicate CutAt(text: string, lexeme: string) {
    && |text| <= 4094
    && if |lexeme| <= 4094 then text == lexeme
       else if lexeme[4094] == '\n' then text == lexeme[..4094]
       else CutInLine(text, Lines(text), Lines(lexeme), |Lines(lexeme[..4094])| - 1)
  }

  predicate CutInLine(text: string, kept: seq<string>, lines: seq<string>, k: nat) {
    && k < |kept| && k < |lines|
    && kept[..k] == lines[..k]
    && |kept[k]| < |lines[k]|
    && (|kept| == k + 1 < |lines| ==> |text| == 4094)
  }

  lemma {:induction false} BufferCuts(frags: seq<string>)
    requires Fragments(frags)
    ensures CutAt(Interned(frags), Lexeme(frags))
  {
    if frags == [] {
      assert CutAt("", "");
    } else {
      hide CutAt, Append;
      BufferCuts(frags[..|frags| - 1]);
      FragmentCuts(Interned(frags[..|frags| - 1]), Lexeme(frags[..|frags| - 1]), frags[|frags| - 1]);
    }
  }

  lemma FragmentCuts(text: string, lexeme: string, frag: string)
    requires CutAt(text, lexeme) && (frag == "\n" || (frag != "" && '\n' !in frag))
    ensures CutAt(Append(text, frag), lexeme + frag)
  {
    hide Lines;
    var longer := lexeme + frag;
    if |longer| > 4094 {
      if |lexeme| > 4094 {
        assert longer[4094] == lexeme[4094] && longer[..4094] == lexeme[..4094];
        if lexeme[4094] != '\n' {
          var k := |Lines(lexeme[..4094])| - 1;
          LineStaysCut(text, lexeme, k, frag);
        }
      } else if frag == "\n" {
        assert longer[..4094] == lexeme;
      } else {
        var m := 4094 - |lexeme|;
        assert longer[4094] == frag[m] && longer[..4094] == lexeme + frag[..m];
        assert frag[m] in frag;
        LinesOfFragment(lexeme, frag);
        forall c | c in frag[..m] ensures c in frag {}
        assert frag[..m] != "\n" by { assert '\n' in "\n"; }
        LinesOfFragment(lexeme, frag[..m]);
        var kept, lines, k := Lines(lexeme), Lines(longer), |Lines(lexeme)| - 1;
        assert lines == kept[..k] + [kept[k] + frag];
        assert |Lines(longer[..4094])| == k + 1;
        assert CutInLine(text, kept, lines, k);
      }
    }
  }

  lemma LineStaysCut(text: string, lexeme: string, k: nat, frag: string)
    requires |text| <= 4094 && (frag == "\n" || (frag != "" && '\n' !in frag))
    requires CutInLine(text, Lines(text), Lines(lexeme), k)
    ensures CutInLine(Append(text, frag), Lines(Append(text, frag)), Lines(lexeme + frag), k)
  {
    LinesOfFragment(text, frag);
    LinesOfFragment(lexeme, frag);
    hide Lines, LengthenedBy, CutInLine;
    LongerStaysCut(text, Lines(text), Lines(lexeme), k, frag);
  }

  lemma LongerStaysCut(text: string, kept: seq<string>, lines: seq<string>, k: nat, frag: string)
    requires |text| <= 4094 && frag != "" && CutInLine(text, kept, lines, k)
    ensures CutInLine(Append(text, frag), if Append(text, frag) == text + frag then LengthenedBy(kept, frag) else kept,
                      LengthenedBy(lines, frag), k)
  {
    var longer := LengthenedBy(lines, frag);
    assert longer[..k] == lines[..k] && |longer[k]| >= |lines[k]|;
    if Append(text, frag) == text + frag {
      assert LengthenedBy(kept, frag)[..k] == kept[..k];
    }
  }

  /** The encoder meets the lexeme's line lengths if and only if the lexeme is spared. */
  lemma CutLengths(text: string, lexeme: string)
    requires CutAt(text, lexeme)
    ensures SameLengths(text, lexeme) <==> Spared(lexeme)
  {
    hide Lines, SameLengths, Spared, CutInLine;
    if |lexeme| <= 4094 {
      WholeIsSpared(lexeme);
    } else {
      var a, b := lexeme[..4094], lexeme[4095..];
      assert lexeme == a + [lexeme[4094]] + b;
      if lexeme[4094] == '\n' {
        LostBreak(lexeme, a, b);
      } else {
        LostText(text, lexeme, a, b);
      }
    }
  }

  lemma WholeIsSpared(lexeme: string)
    requires |lexeme| <= 4094
    ensures SameLengths(lexeme, lexeme) && Spared(lexeme)
  {
    hide Lines;
  }

  lemma LostBreak(lexeme: string, a: string, b: string)
    requires |a| == 4094 && lexeme == a + "\n" + b
    ensures SameLengths(a, lexeme) <==> Spared(lexeme)
  {
    LinesOfConcat(a + "\n", b);
    LinesOfFragment(a, "\n");
    OneLine(b);
    assert lexeme[..4094] == a && lexeme[4094] == '\n';
    var kept, lines, rest := Lines(a), Lines(lexeme), Lines(b);
    assert lines == kept + rest by {
      assert (kept + [""])[..|kept|] == kept;
      assert "" + rest[0] == rest[0];
    }
    hide Lines;
    assert (forall j :: 4095 <= j < |lexeme| ==> lexeme[j] != '\n') ==> |lines| == |kept| + 1 by {
      forall j | 0 <= j < |b| ensures b[j] == lexeme[4095 + j] {}
    }
  }

  lemma LostText(text: string, lexeme: string, a: string, b: string)
    requires |a| == 4094 && |lexeme| > 4094 && lexeme[4094] != '\n' && lexeme == a + [lexeme[4094]] + b
    requires CutInLine(text, Lines(text), Lines(lexeme), |Lines(a)| - 1)
    ensures SameLengths(text, lexeme) <==> Spared(lexeme)
  {
    var c := [lexeme[4094]];
    LinesOfConcat(a + c, b);
    LinesOfFragment(a, c);
    OneLine(b);
    hide Lines;
    var k := |Lines(a)| - 1;
    assert |Lines(lexeme)| == k + |Lines(b)|;
    assert '\n' in b <==> !(forall j :: 4095 <= j < |lexeme| ==> lexeme[j] != '\n') by {
      forall j | 0 <= j < |b| ensures b[j] == lexeme[4095 + j] {}
      forall j | 4095 <= j < |lexeme| ensures lexeme[j] == b[j - 4095] {}
    }
    forall i | 0 <= i < k ensures Lines(text)[i] == Lines(lexeme)[i] {
      assert Lines(text)[..k][i] == Lines(lexeme)[..k][i];
    }
  }

  // ---- the encoder's segments against the true ones ----------------------------------------------

  ghost predicate AllBefore(ms: seq<Segment>, at: (nat, nat)) {
    forall i :: 0 <= i < |ms| ==> ms[i].line < at.0 || (ms[i].line == at.0 && ms[i].character < at.1)
  }

  ghost predicate NoneBefore(ms: seq<Segment>, at: (nat, nat)) {
    forall i :: 0 <= i < |ms| ==> NotAfter(at, (ms[i].line, ms[i].character))
  }

  lemma NoShorter(xs: seq<Segment>, xs': seq<Segment>, ys: seq<Segment>, ys': seq<Segment>, at: (nat, nat))
    requires AllBefore(ys, at) && NoneBefore(xs', at) && |xs| < |ys|
    ensures xs + xs' != ys + ys'
  {
    if xs' != [] {
      assert (xs + xs')[|xs|] == xs'[0] && (ys + ys')[|xs|] == ys[|xs|];
    } else {
      assert |xs + xs'| < |ys + ys'|;
    }
  }

  /** Lists cut at the same place in the source are equal piece by piece. */
  lemma SplitAt(xs: seq<Segment>, xs': seq<Segment>, ys: seq<Segment>, ys': seq<Segment>, at: (nat, nat))
    requires AllBefore(xs, at) && AllBefore(ys, at) && NoneBefore(xs', at) && NoneBefore(ys', at)
    ensures xs + xs' == ys + ys' <==> xs == ys && xs' == ys'
  {
    if |xs| < |ys| {
      NoShorter(xs, xs', ys, ys', at);
    } else if |ys| < |xs| {
      NoShorter(ys, ys', xs, xs', at);
    } else if xs + xs' == ys + ys' {
      assert xs == (xs + xs')[..|xs|] && xs' == (xs + xs')[|xs|..];
      assert ys == (ys + ys')[..|xs|] && ys' == (ys + ys')[|xs|..];
    }
  }

  /** The mark of one line. */
  function OneMark(length: nat, line: nat, character: nat, t: nat): seq<Segment> {
    if length == 0 then [] else [Segment(line, character, length, t, 0)]
  }

  lemma LineMarksSnoc(lines: seq<string>, k: nat, line: nat, character: nat, t: nat)
    requires k < |lines|
    ensures LineMarks(lines[..k + 1], line, character, t) ==
            LineMarks(lines[..k], line, character, t) + OneMark(|lines[k]|, line + k, if k == 0 then character else 0, t)
  {
    assert lines[..k + 1][..k] == lines[..k];
  }

  lemma InnerMarksSnocMark(kept: seq<string>, k: nat, line: nat, character: nat, t: nat)
    requires |kept| > 0
    ensures InnerMarks(kept, 0, k + 1, line, character, t) ==
            InnerMarks(kept, 0, k, line, character, t) + OneMark(|LineOf(kept, k)|, line + k, if k == 0 then character else 0, t)
  {
    InnerMarksSnoc(kept, 0, k, line, character, t);
    hide InnerMarks, LineOf;
  }

  lemma OneMoreLine(ms: seq<Segment>, ns: seq<Segment>, p: nat, q: nat, start: (nat, nat), line: nat, character: nat, t: nat)
    requires AllBefore(ms, (line, 0)) && AllBefore(ns, (line, 0)) && NoneBefore(ms, start) && NoneBefore(ns, start)
    requires NotAfter(start, (line, character))
    ensures var m, n := OneMark(p, line, character, t), OneMark(q, line, character, t);
            && (ms + m == ns + n <==> ms == ns && p == q)
            && AllBefore(ms + m, (line + 1, 0)) && AllBefore(ns + n, (line + 1, 0))
            && NoneBefore(ms + m, start) && NoneBefore(ns + n, start)
  {
    var m, n := OneMark(p, line, character, t), OneMark(q, line, character, t);
    SplitAt(ms, m, ns, n, (line, 0));
    assert m == n <==> p == q;
  }

  lemma AgreeSnoc(kept: seq<string>, lines: seq<string>, k: nat)
    requires |kept| > 0 && k < |lines|
    ensures LengthsAgree(kept, lines, k + 1) <==> LengthsAgree(kept, lines, k) && |LineOf(kept, k)| == |lines[k]|
  {
    hide LineOf;
  }

  /** The first k lines are marked alike if and only if their lengths agree. */
  lemma {:induction false} LinesMarkedAlike(kept: seq<string>, lines: seq<string>, k: nat, line: nat, character: nat, t: nat)
    requires |kept| > 0 && k <= |lines|
    ensures var ms, ns := InnerMarks(kept, 0, k, line, character, t), LineMarks(lines[..k], line, character, t);
            && AllBefore(ms, (line + k, 0)) && AllBefore(ns, (line + k, 0))
            && NoneBefore(ms, (line, character)) && NoneBefore(ns, (line, character))
            && (ms == ns <==> LengthsAgree(kept, lines, k))
  {
    hide InnerMarks, LineMarks, LineOf, AllBefore, NoneBefore, LengthsAgree, OneMark;
    if k == 0 {
      NoLines(kept, lines, line, character, t);
    } else {
      LinesMarkedAlike(kept, lines, k - 1, line, character, t);
      AgreeSnoc(kept, lines, k - 1);
      InnerMarksSnocMark(kept, k - 1, line, character, t);
      LineMarksSnoc(lines, k - 1, line, character, t);
      OneMoreLine(InnerMarks(kept, 0, k - 1, line, character, t), LineMarks(lines[..k - 1], line, character, t),
                  |LineOf(kept, k - 1)|, |lines[k - 1]|, (line, character), line + k - 1, if k == 1 then character else 0, t);
    }
  }

  lemma NoLines(kept: seq<string>, lines: seq<string>, line: nat, character: nat, t: nat)
    requires |kept| > 0
    ensures InnerMarks(kept, 0, 0, line, character, t) == LineMarks(lines[..0], line, character, t) == []
    ensures AllBefore([], (line, 0)) && NoneBefore([], (line, character)) && LengthsAgree(kept, lines, 0)
  {
  }

  /** A token is marked line by line exactly if walking its text meets the lengths of its lines. */
  lemma MarksAreLines(s: TokenSpan, lexeme: string, t: nat)
    requires AtMost(s.start, s.end) && EndsVisibly(s) && Spans(s, lexeme)
    ensures Marks(s, t) == TrueMarks(s, lexeme, t) <==> SameLengths(s.text, lexeme)
    ensures forall ms | ms == Marks(s, t) || ms == TrueMarks(s, lexeme, t) ::
              NoneBefore(ms, (s.start.line, s.start.character)) && AllBefore(ms, (s.end.line, s.end.character))
  {
    hide Marks, TrueMarks, Lines, NoneBefore, AllBefore;
    if |Lines(lexeme)| == 1 {
      OneLineMarked(s, lexeme, t);
    } else {
      ManyLinesMarked(s, lexeme, t);
    }
  }

  lemma OneLineMarked(s: TokenSpan, lexeme: string, t: nat)
    requires EndsVisibly(s) && Spans(s, lexeme) && AtMost(s.start, s.end) && |Lines(lexeme)| == 1
    ensures SameLengths(s.text, lexeme) && Marks(s, t) == TrueMarks(s, lexeme, t)
    ensures NoneBefore(Marks(s, t), (s.start.line, s.start.character)) && AllBefore(Marks(s, t), (s.end.line, s.end.character))
  {
    hide Lines, LineMarks;
    var lines := Lines(lexeme);
    assert lines[..1] == lines;
    LineMarksSnoc(lines, 0, s.start.line, s.start.character, t);
    NoLines(lines, lines, s.start.line, s.start.character, t);
    assert TrueMarks(s, lexeme, t) == [] + OneMark(|lines[0]|, s.start.line, s.start.character, t);
  }

  lemma ManyLinesMarked(s: TokenSpan, lexeme: string, t: nat)
    requires EndsVisibly(s) && Spans(s, lexeme) && AtMost(s.start, s.end) && |Lines(lexeme)| > 1
    ensures Marks(s, t) == TrueMarks(s, lexeme, t) <==> SameLengths(s.text, lexeme)
    ensures NoneBefore(Marks(s, t), (s.start.line, s.start.character)) && AllBefore(Marks(s, t), (s.end.line, s.end.character))
    ensures NoneBefore(TrueMarks(s, lexeme, t), (s.start.line, s.start.character))
    ensures AllBefore(TrueMarks(s, lexeme, t), (s.end.line, s.end.character))
  {
    hide LinesFrom, InnerMarks, LineOf, LineMarks, LengthsAgree;
    var lines, n := Lines(lexeme), |Lines(lexeme)| - 1;
    var line, character := s.start.line, s.start.character;
    assert lines[..n + 1] == lines;
    var last := [Segment(s.end.line, 0, s.end.character, t, 0)];
    LineMarksSnoc(lines, n, line, character, t);
    LinesMarkedAlike(LinesFrom(s.text, 0), lines, n, line, character, t);
    var ms, ns := InnerMarks(LinesFrom(s.text, 0), 0, n, line, character, t), LineMarks(lines[..n], line, character, t);
    assert TrueMarks(s, lexeme, t) == ns + last && Marks(s, t) == ms + last;
    SplitAt(ms, last, ns, last, (line + n, 0));
  }

  ghost predicate Highlighted(spans: seq<TokenSpan>, i: int) {
    0 <= i < |spans| && Face(spans[i].kind).Some?
  }

  /** Of every highlighted token, walking its text meets the lengths of its lines. */
  ghost predicate AllSameLengths(spans: seq<TokenSpan>, lexemes: seq<string>)
    requires |spans| == |lexemes|
  {
    forall i :: Highlighted(spans, i) ==> SameLengths(spans[i].text, lexemes[i])
  }

  ghost predicate RangesFit(spans: seq<TokenSpan>, lexemes: seq<string>)
    requires |spans| == |lexemes|
  {
    forall i :: Highlighted(spans, i) ==> EndsVisibly(spans[i]) && Spans(spans[i], lexemes[i])
  }

  lemma HighlightedSnoc(spans: seq<TokenSpan>, lexemes: seq<string>)
    requires |spans| == |lexemes| > 0 && RangesFit(spans, lexemes)
    ensures var n := |spans| - 1;
            && RangesFit(spans[..n], lexemes[..n])
            && (Face(spans[n].kind).Some? ==> EndsVisibly(spans[n]) && Spans(spans[n], lexemes[n]))
            && (AllSameLengths(spans, lexemes) <==>
                AllSameLengths(spans[..n], lexemes[..n]) &&
                (Face(spans[n].kind).Some? ==> SameLengths(spans[n].text, lexemes[n])))
  {
    hide SameLengths, Spans, EndsVisibly, Face;
    var n := |spans| - 1;
    assert forall i :: Highlighted(spans[..n], i) <==> Highlighted(spans, i) && i < n;
    assert Highlighted(spans, n) <==> Face(spans[n].kind).Some?;
    assert forall i :: Highlighted(spans, i) ==> Highlighted(spans[..n], i) || i == n;
  }

  /** The document is marked line by line exactly if every highlighted token is. */
  lemma {:induction false} AllMarksAreLines(spans: seq<TokenSpan>, lexemes: seq<string>)
    requires WellFormed(spans) && |spans| == |lexemes| && RangesFit(spans, lexemes)
    ensures AllMarks(spans) == AllTrueMarks(spans, lexemes) <==> AllSameLengths(spans, lexemes)
    ensures spans == [] ==> AllMarks(spans) == AllTrueMarks(spans, lexemes) == []
    ensures spans != [] ==>
              var e := spans[|spans| - 1].end;
              AllBefore(AllMarks(spans), (e.line, e.character)) && AllBefore(AllTrueMarks(spans, lexemes), (e.line, e.character))
  {
    if spans != [] {
      var n := |spans| - 1;
      HighlightedSnoc(spans, lexemes);
      AllMarksUnfold(spans, lexemes);
      var s, init, texts := spans[n], spans[..n], lexemes[..n];
      var start, end := (s.start.line, s.start.character), (s.end.line, s.end.character);
      WellFormedInit(spans);
      hide WellFormed, Forward, AtMost, NotAfter, AllMarks, AllTrueMarks, Marks, TrueMarks, AllSameLengths, RangesFit,
           SameLengths, Spans, AllBefore, EndsVisibly;
      AllMarksAreLines(init, texts);
      BeforeLater(init, texts, start);
      TypesNameFaces(s.kind);
      hide Face, Classify, IndexOf;
      match Classify(s.kind) {
        case None =>
          NoMore(AllMarks(init), start, end);
          NoMore(AllTrueMarks(init, texts), start, end);
        case Some(t) =>
          OneMoreToken(AllMarks(init), AllTrueMarks(init, texts), s, lexemes[n], t);
      }
    }
  }

  lemma OneMoreToken(xs: seq<Segment>, ys: seq<Segment>, s: TokenSpan, lexeme: string, t: nat)
    requires AtMost(s.start, s.end) && EndsVisibly(s) && Spans(s, lexeme)
    requires AllBefore(xs, (s.start.line, s.start.character)) && AllBefore(ys, (s.start.line, s.start.character))
    ensures xs + Marks(s, t) == ys + TrueMarks(s, lexeme, t) <==> xs == ys && SameLengths(s.text, lexeme)
    ensures AllBefore(xs + Marks(s, t), (s.end.line, s.end.character))
    ensures AllBefore(ys + TrueMarks(s, lexeme, t), (s.end.line, s.end.character))
  {
    hide Marks, TrueMarks, SameLengths, Spans, AllBefore, NoneBefore, EndsVisibly;
    MarksAreLines(s, lexeme, t);
    var start, end := (s.start.line, s.start.character), (s.end.line, s.end.character);
    SplitAt(xs, Marks(s, t), ys, TrueMarks(s, lexeme, t), start);
    StillBefore(xs, Marks(s, t), start, end);
    StillBefore(ys, TrueMarks(s, lexeme, t), start, end);
  }

  lemma WellFormedInit(spans: seq<TokenSpan>)
    requires WellFormed(spans) && spans != []
    ensures var n := |spans| - 1;
            && WellFormed(spans[..n]) && AtMost(spans[n].start, spans[n].end)
            && NotAfter((spans[n].start.line, spans[n].start.character), (spans[n].end.line, spans[n].end.character))
            && (n > 0 ==> NotAfter((spans[n - 1].end.line, spans[n - 1].end.character),
                                   (spans[n].start.line, spans[n].start.character)))
  {
  }

  lemma NoMore(xs: seq<Segment>, at: (nat, nat), end: (nat, nat))
    requires AllBefore(xs, at) && NotAfter(at, end)
    ensures xs + [] == xs && AllBefore(xs, end)
  {
  }

  lemma StillBefore(xs: seq<Segment>, ys: seq<Segment>, at: (nat, nat), end: (nat, nat))
    requires AllBefore(xs, at) && AllBefore(ys, end) && NotAfter(at, end)
    ensures AllBefore(xs + ys, end)
  {
  }

  lemma BeforeLater(spans: seq<TokenSpan>, lexemes: seq<string>, at: (nat, nat))
    requires Forward(spans) && |spans| == |lexemes|
    requires spans == [] ==> AllMarks(spans) == AllTrueMarks(spans, lexemes) == []
    requires spans != [] ==>
               var e := spans[|spans| - 1].end;
               && AllBefore(AllMarks(spans), (e.line, e.character))
               && AllBefore(AllTrueMarks(spans, lexemes), (e.line, e.character))
               && NotAfter((e.line, e.character), at)
    ensures AllBefore(AllMarks(spans), at) && AllBefore(AllTrueMarks(spans, lexemes), at)
  {
    hide AllMarks, AllTrueMarks;
  }

  lemma AllMarksUnfold(spans: seq<TokenSpan>, lexemes: seq<string>)
    requires Forward(spans) && |spans| == |lexemes| > 0
    ensures var n := |spans| - 1;
            match Face(spans[n].kind)
            case None =>
              && AllMarks(spans) == AllMarks(spans[..n]) + []
              && AllTrueMarks(spans, lexemes) == AllTrueMarks(spans[..n], lexemes[..n]) + []
            case Some(name) =>
              var t := IndexOf(LEGEND, name);
              && AllMarks(spans) == AllMarks(spans[..n]) + Marks(spans[n], t)
              && AllTrueMarks(spans, lexemes) == AllTrueMarks(spans[..n], lexemes[..n]) + TrueMarks(spans[n], lexemes[n], t)
  {
    hide Marks, TrueMarks, IndexOf, Classify, Face, AllTrueMarks, LEGEND;
    TypesNameFaces(spans[|spans| - 1].kind);
    AllTrueMarksUnfold(spans, lexemes);
  }

  lemma AllTrueMarksUnfold(spans: seq<TokenSpan>, lexemes: seq<string>)
    requires |spans| == |lexemes| > 0
    ensures var n := |spans| - 1;
            AllTrueMarks(spans, lexemes) == AllTrueMarks(spans[..n], lexemes[..n]) +
              match Face(spans[n].kind) case None => [] case Some(name) => TrueMarks(spans[n], lexemes[n], IndexOf(LEGEND, name))
  {
    hide TrueMarks, IndexOf, Face;
  }

  // ---- the round trip to the source --------------------------------------------------------------

  /** A client reads back the true lines of the highlighted tokens exactly if walking each token's
      interned text meets the lengths of its lines. */
  lemma TrueLinesRead(spans: seq<TokenSpan>, lexemes: seq<string>)
    requires WellFormed(spans) && |spans| == |lexemes| && RangesFit(spans, lexemes)
    ensures |Encode(AllMarks(spans))| % 5 == 0
    ensures Decode(Encode(AllMarks(spans))) == AllTrueMarks(spans, lexemes) <==> AllSameLengths(spans, lexemes)
  {
    AllMarksAreLines(spans, lexemes);
    forall i | 0 <= i < |spans| && Classify(spans[i].kind).Some? ensures Highlighted(spans, i) {
      TypesNameFaces(spans[i].kind);
    }
    hide Encode, Decode, AllMarks, AllTrueMarks, SameLengths, Spans, WellFormed, EndsVisibly, Highlighted;
    MarksRead(spans);
  }

  /** Line m is one of the span's, shown as the span's kind is to be. */
  ghost predicate FromSpan(m: Segment, s: TokenSpan) {
    && s.start.line <= m.line <= s.end.line
    && m.modifiers == 0 && m.tokenType < |LEGEND| && Face(s.kind) == Some(LEGEND[m.tokenType])
  }

  ghost predicate EndsAt(m: Segment, s: TokenSpan) {
    m.line == s.end.line && m.character + m.length == s.end.character
  }

  lemma {:induction false} InnerMarksFrom(lines: seq<string>, i: nat, n: nat, line: nat, character: nat, t: nat)
    requires |lines| > 0 && i <= n
    ensures forall m :: m in InnerMarks(lines, i, n, line, character, t) ==>
              line <= m.line < line + n && m.tokenType == t && m.modifiers == 0
    decreases n - i
  {
    hide LineOf;
    if i < n { InnerMarksFrom(lines, i + 1, n, line, character, t); }
  }

  lemma MarksFrom(s: TokenSpan, t: nat)
    requires AtMost(s.start, s.end) && t < |LEGEND| && Face(s.kind) == Some(LEGEND[t])
    ensures forall m :: m in Marks(s, t) ==> FromSpan(m, s)
    ensures exists m :: m in Marks(s, t) && FromSpan(m, s) && EndsAt(m, s)
  {
    hide Face, LinesFrom;
    if s.start.line < s.end.line {
      InnerMarksFrom(LinesFrom(s.text, 0), 0, s.end.line - s.start.line, s.start.line, s.start.character, t);
    }
    hide InnerMarks;
    assert FromSpan(Marks(s, t)[|Marks(s, t)| - 1], s) && EndsAt(Marks(s, t)[|Marks(s, t)| - 1], s);
  }

  /** Every stretch is of some token that is to be shown. */
  ghost predicate AllOfSpans(ms: seq<Segment>, spans: seq<TokenSpan>) {
    forall m :: m in ms ==> exists i :: Highlighted(spans, i) && FromSpan(m, spans[i])
  }

  /** Every token that is to be shown has a stretch up to its end. */
  ghost predicate AllSpansShown(ms: seq<Segment>, spans: seq<TokenSpan>) {
    forall i :: Highlighted(spans, i) ==> exists m :: m in ms && FromSpan(m, spans[i]) && EndsAt(m, spans[i])
  }

  lemma {:induction false} AllMarksFrom(spans: seq<TokenSpan>)
    requires Forward(spans)
    ensures AllOfSpans(AllMarks(spans), spans) && AllSpansShown(AllMarks(spans), spans)
  {
    hide Marks, Face, Classify, FromSpan, EndsAt;
    if spans != [] {
      var n := |spans| - 1;
      var init, s := spans[..n], spans[n];
      AllMarksFrom(init);
      TypesNameFaces(s.kind);
      hide AllOfSpans, AllSpansShown;
      match Classify(s.kind) {
        case None =>
          OneMoreFrom(AllMarks(init), [], init, s);
          assert AllMarks(spans) == AllMarks(init) + [];
        case Some(t) =>
          MarksFrom(s, t);
          OneMoreFrom(AllMarks(init), Marks(s, t), init, s);
      }
      assert spans == init + [s];
    }
  }

  lemma OneMoreFrom(ms: seq<Segment>, more: seq<Segment>, init: seq<TokenSpan>, s: TokenSpan)
    requires AllOfSpans(ms, init) && AllSpansShown(ms, init)
    requires forall m :: m in more ==> FromSpan(m, s)
    requires if Face(s.kind) == None then more == [] else exists m :: m in more && FromSpan(m, s) && EndsAt(m, s)
    ensures AllOfSpans(ms + more, init + [s]) && AllSpansShown(ms + more, init + [s])
  {
    hide FromSpan, EndsAt, Face, AllSpansShown;
    OneMoreShown(ms, more, init, s);
    var spans, n := init + [s], |init|;
    forall m | m in ms + more ensures exists i :: Highlighted(spans, i) && FromSpan(m, spans[i]) {
      if m in ms {
        var i :| Highlighted(init, i) && FromSpan(m, init[i]);
        assert Highlighted(spans, i) && spans[i] == init[i];
      } else {
        assert Highlighted(spans, n) && spans[n] == s;
      }
    }
  }

  lemma OneMoreShown(ms: seq<Segment>, more: seq<Segment>, init: seq<TokenSpan>, s: TokenSpan)
    requires AllSpansShown(ms, init)
    requires Face(s.kind).Some? ==> exists m :: m in more && FromSpan(m, s) && EndsAt(m, s)
    ensures AllSpansShown(ms + more, init + [s])
  {
    hide FromSpan, EndsAt, Face;
    var spans, n := init + [s], |init|;
    forall i | Highlighted(spans, i) ensures exists m :: m in ms + more && FromSpan(m, spans[i]) && EndsAt(m, spans[i]) {
      if i < n {
        assert Highlighted(init, i) && init[i] == spans[i];
        var m :| m in ms && FromSpan(m, init[i]) && EndsAt(m, init[i]);
        assert m in ms + more;
      } else {
        var m :| m in more && FromSpan(m, s) && EndsAt(m, s);
        assert m in ms + more;
      }
    }
  }

  /** Whatever the buffer cut: every stretch a client decodes lies on a line of a token and is shown as that
      token is to be, and every token that is to be shown has one that reaches its end. */
  lemma TokensShownAsTheyAre(spans: seq<TokenSpan>)
    requires WellFormed(spans) && forall i :: Highlighted(spans, i) ==> EndsVisibly(spans[i])
    ensures |Encode(AllMarks(spans))| % 5 == 0
    ensures forall m :: m in Decode(Encode(AllMarks(spans))) ==> exists i :: Highlighted(spans, i) && FromSpan(m, spans[i])
    ensures forall i :: Highlighted(spans, i) ==>
              exists m :: m in Decode(Encode(AllMarks(spans))) && FromSpan(m, spans[i]) && EndsAt(m, spans[i])
  {
    AllMarksFrom(spans);
    forall i | 0 <= i < |spans| && Classify(spans[i].kind).Some? ensures Highlighted(spans, i) {
      TypesNameFaces(spans[i].kind);
    }
    hide Encode, Decode, AllMarks, WellFormed, EndsVisibly, Highlighted, FromSpan, EndsAt;
    MarksRead(spans);
  }

  function LexemesOf(sources: seq<seq<string>>): seq<string> {
    seq(|sources|, i requires 0 <= i < |sources| => Lexeme(sources[i]))
  }

  /** From source to client: what the client decodes is every line of every highlighted token if and
      only if the buffer spared each of them. */
  lemma RoundTrip(spans: seq<TokenSpan>, sources: seq<seq<string>>)
    requires WellFormed(spans) && |spans| == |sources|
    requires forall i :: 0 <= i < |spans| ==> Scanned(spans[i], sources[i])
    ensures |Encode(AllMarks(spans))| % 5 == 0
    ensures Decode(Encode(AllMarks(spans))) == AllTrueMarks(spans, LexemesOf(sources)) <==>
            forall i :: Highlighted(spans, i) ==> Spared(Lexeme(sources[i]))
  {
    var lexemes := LexemesOf(sources);
    hide Encode, Decode, AllMarks, AllTrueMarks, SameLengths, Spared, Spans, WellFormed, EndsVisibly, Scanned, Lexeme;
    forall i | Highlighted(spans, i)
      ensures EndsVisibly(spans[i]) && Spans(spans[i], lexemes[i])
      ensures SameLengths(spans[i].text, lexemes[i]) <==> Spared(Lexeme(sources[i]))
    {
      ClosedTokensEndVisibly(spans[i], sources[i]);
      SparedExactly(spans[i], sources[i]);
    }
    TrueLinesRead(spans, lexemes);
  }

  lemma SparedExactly(s: TokenSpan, frags: seq<string>)
    requires Scanned(s, frags)
    ensures SameLengths(s.text, Lexeme(frags)) <==> Spared(Lexeme(frags))
  {
    if Buffered(s.kind) {
      BufferCuts(frags);
      CutLengths(s.text, Lexeme(frags));
    } else {
      assert frags[..0] == [] && Lexeme(frags) == "" + frags[0] == frags[0];
      OneLine(frags[0]);
      hide Lines;
      forall j | 4095 <= j < |frags[0]| ensures frags[0][j] in frags[0] {}
    }
  }

  /** The text is the lexeme exactly up to 4094 characters. */
  lemma InternedWhole(frags: seq<string>)
    requires Fragments(frags)
    ensures Interned(frags) == Lexeme(frags) <==> |Lexeme(frags)| <= 4094
  {
    BufferCuts(frags);
  }

  /** So a document whose tokens were all interned whole is read back line by line. */
  lemma WholeTextsRead(spans: seq<TokenSpan>, texts: seq<string>)
    requires WellFormed(spans) && |texts| == |spans| && forall i :: 0 <= i < |spans| ==> texts[i] == spans[i].text
    requires RangesFit(spans, texts)
    ensures |Encode(AllMarks(spans))| % 5 == 0 && Decode(Encode(AllMarks(spans))) == AllTrueMarks(spans, texts)
  {
    hide Encode, Decode, AllMarks, AllTrueMarks, Spans, WellFormed, EndsVisibly, LinesFrom;
    TrueLinesRead(spans, texts);
  }

  // ---- a comment cut by the buffer ---------------------------------------------------------------

  /** A comment whose first line fills the buffer, and which has a line of three more characters. */
  function CutComment(x: string): seq<string> {
    ["/*", x, "\n", "yyy", "\n", "*/"]
  }

  /** Its first line break is the first thing dropped, so the client is told 4094 characters of the line of three. */
  lemma CutCommentMisread(x: string)
    requires |x| == 4092 && '\n' !in x
    ensures var s := TokenSpan(BlockComment, Pos(0, 0), Pos(2, 2), "/*" + x);
            && Scanned(s, CutComment(x)) && WellFormed([s]) && |Encode(AllMarks([s]))| % 5 == 0
            && Decode(Encode(AllMarks([s]))) == [Segment(0, 0, 4094, 1, 0), Segment(1, 0, 4094, 1, 0), Segment(2, 0, 2, 1, 0)]
            && TrueMarks(s, Lexeme(CutComment(x)), 1) == [Segment(0, 0, 4094, 1, 0), Segment(1, 0, 3, 1, 0), Segment(2, 0, 2, 1, 0)]
  {
    hide Marks, AllMarks, Encode, Decode, Scanned, Lexeme, Lines, LineMarks, CutComment, WellFormed;
    var text := "/*" + x;
    var s := TokenSpan(BlockComment, Pos(0, 0), Pos(2, 2), text);
    assert |text| == 4094 && '\n' !in text;
    CutCommentScanned(x, text, s);
    CutCommentMarks(text);
    ThreeLines(text, "yyy", "*/");
    OneSpanRead(s, 1);
  }

  lemma OneSpanRead(s: TokenSpan, t: nat)
    requires AtMost(s.start, s.end) && |s.text| < 0x1_0000_0000 && EndsVisibly(s) && Classify(s.kind) == Some(t)
    ensures WellFormed([s]) && |Encode(AllMarks([s]))| % 5 == 0 && Decode(Encode(AllMarks([s]))) == Marks(s, t)
  {
    assert [s][..0] == [];
    assert AllMarks([s]) == [] + Marks(s, t);
    hide Marks, AllMarks, Encode, Decode;
    MarksRead([s]);
  }

  lemma CutCommentMarks(text: string)
    requires |text| == 4094 && '\n' !in text
    ensures Marks(TokenSpan(BlockComment, Pos(0, 0), Pos(2, 2), text), 1) ==
            [Segment(0, 0, 4094, 1, 0), Segment(1, 0, 4094, 1, 0), Segment(2, 0, 2, 1, 0)]
  {
    OneLine(text);
    hide LinesFrom;
    InnerMarksSnoc([text], 0, 1, 0, 0, 1);
    InnerMarksSnoc([text], 0, 0, 0, 0, 1);
    assert InnerMarks([text], 0, 0, 0, 0, 1) == [];
    hide InnerMarks;
  }

  lemma ThreeLines(a: string, b: string, c: string)
    requires |a| > 0 && |b| > 0 && |c| > 0
    ensures LineMarks([a, b, c], 0, 0, 1) == [Segment(0, 0, |a|, 1, 0), Segment(1, 0, |b|, 1, 0), Segment(2, 0, |c|, 1, 0)]
  {
    var lines := [a, b, c];
    assert lines[..3] == lines;
    LineMarksSnoc(lines, 2, 0, 0, 1);
    LineMarksSnoc(lines, 1, 0, 0, 1);
    LineMarksSnoc(lines, 0, 0, 0, 1);
    assert LineMarks(lines[..0], 0, 0, 1) == [];
    hide LineMarks;
  }

  lemma CutCommentScanned(x: string, text: string, s: TokenSpan)
    requires |x| == 4092 && '\n' !in x && text == "/*" + x
    requires s.kind == BlockComment && s.start == Pos(0, 0) && s.end == Pos(2, 2) && s.text == text
    ensures Scanned(s, CutComment(x))
    ensures Lines(Lexeme(CutComment(x))) == [text, "yyy", "*/"]
  {
    var frags := CutComment(x);
    assert Fragments(frags) && forall i :: 2 <= i < 6 ==> frags[i] != "";
    hide Interned, Lexeme, EndOf, Lines, CutComment, Fragments;
    CutCommentHead(frags, x, text);
    CutCommentText(frags, text);
    CutCommentLines(frags, text);
  }

  lemma CutCommentHead(frags: seq<string>, x: string, text: string)
    requires |frags| == 6 && frags[0] == "/*" && frags[1] == x && |x| == 4092 && '\n' !in x && text == "/*" + x
    ensures Interned(frags[..2]) == text && Lexeme(frags[..2]) == text && EndOf((0, 0), frags[..2]) == (0, 4094)
  {
    assert frags[..0] == [];
    FragmentStep(frags, 0);
    FragmentStep(frags, 1);
    hide Lines;
    assert x != "\n" && frags[0] != "\n";
  }

  lemma CutCommentText(frags: seq<string>, text: string)
    requires |frags| == 6 && forall i :: 2 <= i < 6 ==> frags[i] != ""
    requires |text| == 4094 && Interned(frags[..2]) == text
    ensures Interned(frags) == text
  {
    FullStaysFull(frags, 2);
    FullStaysFull(frags, 3);
    FullStaysFull(frags, 4);
    FullStaysFull(frags, 5);
    assert frags[..6] == frags;
  }

  lemma FullStaysFull(frags: seq<string>, i: nat)
    requires i < |frags| && frags[i] != "" && |Interned(frags[..i])| == 4094
    ensures Interned(frags[..i + 1]) == Interned(frags[..i])
  {
    assert frags[..i + 1][..i] == frags[..i];
  }

  lemma CutCommentLines(frags: seq<string>, text: string)
    requires |frags| == 6 && frags[2] == frags[4] == "\n" && frags[3] == "yyy" && frags[5] == "*/" && '\n' !in text
    requires Lexeme(frags[..2]) == text && EndOf((0, 0), frags[..2]) == (0, 4094)
    ensures Lines(Lexeme(frags)) == [text, "yyy", "*/"] && EndOf((0, 0), frags) == (2, 2)
  {
    hide Interned, Lexeme, EndOf, Lines, LengthenedBy;
    OneLine(text);
    OneMoreBreak(frags, 2, [], text);
    OneMoreBreak(frags, 4, [text], frags[3]);
    assert frags[..6] == frags && [] + [text] == [text] && [text] + ["yyy"] + ["*/"] == [text, "yyy", "*/"];
  }

  /** A line break and a fragment of the next line. */
  lemma OneMoreBreak(frags: seq<string>, i: nat, lines: seq<string>, last: string)
    requires i + 1 < |frags| && frags[i] == "\n" && '\n' !in frags[i + 1] && Lines(Lexeme(frags[..i])) == lines + [last]
    ensures Lines(Lexeme(frags[..i + 2])) == lines + [last] + [frags[i + 1]]
    ensures EndOf((0, 0), frags[..i + 2]) == (EndOf((0, 0), frags[..i]).0 + 1, |frags[i + 1]|)
  {
    hide Interned, Lexeme, Lines;
    FragmentStep(frags, i);
    FragmentStep(frags, i + 1);
    assert "" + frags[i + 1] == frags[i + 1];
    assert frags[i + 1] != "\n" by { assert '\n' in "\n"; }
    assert LengthenedBy(lines + [last], "\n") == lines + [last] + [""];
  }

  /** Text, lexeme, position and lines when fragment i has been scanned. */
  lemma FragmentStep(frags: seq<string>, i: nat)
    requires i < |frags| && (frags[i] == "\n" || '\n' !in frags[i])
    ensures Interned(frags[..i + 1]) == Append(Interned(frags[..i]), frags[i])
    ensures Lexeme(frags[..i + 1]) == Lexeme(frags[..i]) + frags[i]
    ensures var at := EndOf((0, 0), frags[..i]);
            EndOf((0, 0), frags[..i + 1]) == if frags[i] == "\n" then (at.0 + 1, 0) else (at.0, at.1 + |frags[i]|)
    ensures Lines(Lexeme(frags[..i + 1])) == LengthenedBy(Lines(Lexeme(frags[..i])), frags[i])
  {
    assert frags[..i + 1][..i] == frags[..i];
    LinesOfFragment(Lexeme(frags[..i]), frags[i]);
    hide Lines;
  }
}
