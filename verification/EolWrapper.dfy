/** The scanner wrapper that puts statement terminators between tokens and closes bodies left open. */
module EolWrapper {
  const EOL_BRACE_MAX := 256

  datatype Kind =
    | Comma | Dot | Colon | Plus | Minus | Bang | LBrace | RBrace | LBracket | RBracket | Percent | Dollar
    | Integer | Float | Date | Duration | Str | MultiLineStr | Error
    | Ident | Keyword(n: nat)
    | Eol | Eof

  /** A token of the scanner, and whether a line break came before it. */
  datatype Raw = Raw(kind: Kind, newlineBefore: bool)

  predicate CanEndStmt(k: Kind) {
    match k
    case Comma | Dot | Colon | Plus | Minus | Bang | LBrace | LBracket | Dollar | Eol | Eof => false
    case _ => true
  }

  predicate CanBeginStmt(k: Kind) {
    match k
    case Comma | Dot | Colon | Plus | Minus | Bang | LBrace | RBrace | LBracket | RBracket | Percent => false
    case Integer | Float | Date | Duration | Str | MultiLineStr | Error | Eol | Eof => false
    case _ => true
  }

  // ---- what the parser should see --------------------------------------------------------------

  /** For each brace open after the first n tokens, whether it opened a macro call. */
  ghost function Braces(s: seq<Raw>, n: nat): seq<bool>
    requires n <= |s|
  {
    if n == 0 then []
    else
      var open := Braces(s, n - 1);
      match s[n - 1].kind
      case LBrace => open + [|open| < EOL_BRACE_MAX && n > 1 && s[n - 2].kind == Dollar]
      case RBrace => if open == [] then [] else open[..|open| - 1]
      case _ => open
  }

  ghost predicate ClosesMacro(s: seq<Raw>, j: nat)
    requires j < |s|
  {
    var open := Braces(s, j);
    s[j].kind == RBrace && 0 < |open| <= EOL_BRACE_MAX && open[|open| - 1]
  }

  ghost predicate ClosesBody(s: seq<Raw>, j: nat)
    requires j < |s|
  {
    s[j].kind == RBrace && !ClosesMacro(s, j)
  }

  /** A terminator belongs before token j. */
  ghost predicate Terminates(s: seq<Raw>, j: nat)
    requires j < |s|
  {
    && j > 0 && CanEndStmt(s[j - 1].kind)
    && ((s[j].newlineBefore && CanBeginStmt(s[j].kind)) || ClosesBody(s, j) || s[j].kind == Eof)
  }

  /** The first n tokens with their terminators. */
  ghost function Terminated(s: seq<Raw>, n: nat): seq<Kind>
    requires n <= |s|
  {
    if n == 0 then []
    else Terminated(s, n - 1) + (if Terminates(s, n - 1) then [Eol] else []) + [s[n - 1].kind]
  }

  function Closers(n: nat): seq<Raw> {
    seq(n, i => Raw(RBrace, false))
  }

  /** The scanner's tokens, the braces still missing, the end of the input. */
  ghost function Completed(raw: seq<Raw>): seq<Raw> {
    raw + Closers(|Braces(raw, |raw|)|) + [Raw(Eof, false)]
  }

  /** The scanner returns no terminator, and the end only at the end. */
  ghost predicate Scanned(raw: seq<Raw>) {
    forall i :: 0 <= i < |raw| ==> raw[i].kind != Eol && raw[i].kind != Eof
  }

  lemma {:induction false} BracesPrefix(s: seq<Raw>, t: seq<Raw>, n: nat)
    requires n <= |s| && s <= t
    ensures Braces(t, n) == Braces(s, n)
    decreases n
  {
    if n > 0 {
      BracesPrefix(s, t, n - 1);
      assert t[n - 1] == s[n - 1];
      assert n > 1 ==> t[n - 2] == s[n - 2];
    }
  }

  /** While the completion closes braces, one brace less is open after each. */
  lemma {:induction false} ClosersClose(raw: seq<Raw>, k: nat)
    requires k <= |Braces(raw, |raw|)|
    ensures var s := Completed(raw); |Braces(s, |raw| + k)| == |Braces(raw, |raw|)| - k
    decreases k
  {
    var s := Completed(raw);
    if k == 0 {
      BracesPrefix(raw, s, |raw|);
    } else {
      ClosersClose(raw, k - 1);
      assert s[|raw| + k - 1] == Raw(RBrace, false);
    }
  }

  /** The completion token by token: the scanner's, then a brace while one is open, then the end. */
  lemma CompletedAt(raw: seq<Raw>, n: nat)
    requires Scanned(raw) && n < |Completed(raw)|
    ensures var s := Completed(raw);
            s[n] == if n < |raw| then raw[n] else if Braces(s, n) != [] then Raw(RBrace, false) else Raw(Eof, false)
    ensures n == |Completed(raw)| - 1 <==> Completed(raw)[n].kind == Eof
    ensures Completed(raw)[n].kind != Eol && (n < |raw| ==> raw[n].kind != Eof)
  {
    if n >= |raw| {
      ClosersClose(raw, n - |raw|);
    }
  }

  lemma TerminatesWhen(s: seq<Raw>, j: nat)
    requires j < |s|
    ensures var open := Braces(s, j);
            var closesMacro := s[j].kind == RBrace && 0 < |open| <= EOL_BRACE_MAX && open[|open| - 1];
            Terminates(s, j) <==>
              && j > 0 && CanEndStmt(s[j - 1].kind)
              && ((s[j].newlineBefore && CanBeginStmt(s[j].kind)) || (s[j].kind == RBrace && !closesMacro) || s[j].kind == Eof)
  {}

  lemma EndEndsNothing()
    ensures !CanEndStmt(Eof)
  {}

  lemma BracesStep(s: seq<Raw>, n: nat)
    requires n < |s|
    ensures var open := Braces(s, n);
            Braces(s, n + 1) == match s[n].kind
              case LBrace => open + [|open| < EOL_BRACE_MAX && n > 0 && s[n - 1].kind == Dollar]
              case RBrace => if open == [] then [] else open[..|open| - 1]
              case _ => open
  {}

  lemma TerminatedStep(s: seq<Raw>, n: nat)
    requires n < |s|
    ensures Terminated(s, n + 1) == Terminated(s, n) + (if Terminates(s, n) then [Eol] else []) + [s[n].kind]
  {}

  // ---- the wrapper -----------------------------------------------------------------------------

  class Lexer {
    const raw: seq<Raw>
    var pos: nat
    var prevCanEnd: bool
    var prevKind: Kind
    var haveBuffered: bool
    var bufferedKind: Kind
    const braceIsMacro: array<bool>
    var braceDepth: nat
    ghost var given: nat          // real tokens handed to the parser
    ghost var out: seq<Kind>      // everything handed to the parser

    ghost predicate BracesMatch()
      reads this, braceIsMacro
      requires given <= |Completed(raw)|
    {
      var open := Braces(Completed(raw), given);
      && braceIsMacro.Length == EOL_BRACE_MAX && braceDepth == |open|
      && forall i :: 0 <= i < |open| && i < EOL_BRACE_MAX ==> braceIsMacro[i] == open[i]
    }

    ghost predicate Valid()
      reads this, braceIsMacro
    {
      var s := Completed(raw);
      && Scanned(raw) && given <= |s| && BracesMatch()
      && pos == (if given + (if haveBuffered then 1 else 0) < |raw| then given + (if haveBuffered then 1 else 0) else |raw|)
      && prevKind == (if given == 0 then Eof else s[given - 1].kind)
      && (haveBuffered ==> given < |s| && bufferedKind == s[given].kind && Terminates(s, given) && !prevCanEnd)
      && (!haveBuffered ==> prevCanEnd == CanEndStmt(prevKind))
      && out == Terminated(s, given) + if haveBuffered then [Eol] else []
    }

    constructor (raw: seq<Raw>)
      requires Scanned(raw)
      ensures Valid() && this.raw == raw && given == 0 && out == [] && !haveBuffered && fresh(braceIsMacro)
    {
      this.raw := raw;
      pos, prevCanEnd, prevKind, haveBuffered, bufferedKind, braceDepth := 0, false, Eof, false, Eof, 0;
      braceIsMacro := new bool[EOL_BRACE_MAX];
      given, out := 0, [];
    }

    /** The scanner, which keeps returning the end once there. */
    method RawYylex() returns (kind: Kind, newlineBefore: bool)
      requires pos <= |raw|
      modifies this`pos
      ensures pos == (if old(pos) < |raw| then old(pos) + 1 else old(pos))
      ensures old(pos) < |raw| ==> Raw(kind, newlineBefore) == raw[old(pos)]
      ensures old(pos) == |raw| ==> kind == Eof && !newlineBefore
    {
      if pos < |raw| {
        kind, newlineBefore := raw[pos].kind, raw[pos].newlineBefore;
        pos := pos + 1;
      } else {
        kind, newlineBefore := Eof, false;
      }
    }

    /** The held token, or the scanner's next one; at the end, a brace for each body still open. */
    method NextReal() returns (kind: Kind, newlineBefore: bool)
      requires Valid() && given < |Completed(raw)|
      modifies this`pos, this`haveBuffered
      ensures !haveBuffered && kind == Completed(raw)[given].kind
      ensures pos == (if given + 1 < |raw| then given + 1 else |raw|)
      ensures !old(haveBuffered) ==> newlineBefore == Completed(raw)[given].newlineBefore
    {
      hide Completed, Braces, Terminates, Terminated, Scanned;
      CompletedAt(raw, given);
      if haveBuffered {
        kind, newlineBefore := bufferedKind, false;
        haveBuffered := false;
      } else {
        kind, newlineBefore := RawYylex();
        if kind == Eof && braceDepth > 0 {
          kind := RBrace;
        }
      }
    }

    /** One token for the parser: the next real one, or the terminator that belongs before it. */
    method Yylex() returns (kind: Kind)
      requires Valid() && given < |Completed(raw)|
      modifies this, braceIsMacro
      ensures Valid() && out == old(out) + [kind]
      ensures given == old(given) + (if kind == Eol then 0 else 1)
      ensures kind == Eol ==> !old(haveBuffered) && haveBuffered
      ensures kind != Eol ==> !haveBuffered && kind == Completed(raw)[old(given)].kind
    {
      hide Completed, Braces, Terminates, Terminated, Scanned, CanEndStmt, CanBeginStmt;
      CompletedAt(raw, given);
      EndEndsNothing();
      TerminatesWhen(Completed(raw), given);
      var newlineBefore;
      kind, newlineBefore := NextReal();
      var macroClose := kind == RBrace && braceDepth > 0 && braceDepth <= EOL_BRACE_MAX && braceIsMacro[braceDepth - 1];
      var bodyClose := kind == RBrace && !macroClose;
      if prevCanEnd && ((newlineBefore && CanBeginStmt(kind)) || bodyClose || kind == Eof) {
        bufferedKind, haveBuffered, prevCanEnd := kind, true, false;
        kind := Eol;
        out := out + [Eol];
        return;
      }
      Deliver(kind);
    }

    /** Hand the token over, tracking the nesting. */
    method Deliver(kind: Kind)
      requires Scanned(raw) && given < |Completed(raw)| && BracesMatch() && !haveBuffered
      requires var s := Completed(raw);
               && kind == s[given].kind && prevKind == (if given == 0 then Eof else s[given - 1].kind)
               && pos == (if given + 1 < |raw| then given + 1 else |raw|)
               && out == Terminated(s, given) + if Terminates(s, given) then [Eol] else []
      modifies this, braceIsMacro
      ensures Valid() && !haveBuffered && out == old(out) + [kind] && given == old(given) + 1
    {
      hide Completed, Braces, Terminates, Terminated, Scanned, CanEndStmt;
      ghost var s := Completed(raw);
      BracesStep(s, given);
      TerminatedStep(s, given);
      if kind == LBrace {
        if braceDepth < EOL_BRACE_MAX {
          braceIsMacro[braceDepth] := prevKind == Dollar;
        }
        braceDepth := braceDepth + 1;
      } else if kind == RBrace && braceDepth > 0 {
        braceDepth := braceDepth - 1;
      }
      prevKind, prevCanEnd := kind, CanEndStmt(kind);
      given, out := given + 1, out + [kind];
    }
  }

  // ---- what the terminators promise ------------------------------------------------------------

  function Erased(out: seq<Kind>): seq<Kind> {
    if out == [] then []
    else Erased(out[..|out| - 1]) + if out[|out| - 1] == Eol then [] else [out[|out| - 1]]
  }

  function Kinds(s: seq<Raw>): seq<Kind> {
    seq(|s|, i requires 0 <= i < |s| => s[i].kind)
  }

  lemma ErasedOne(out: seq<Kind>, k: Kind)
    ensures Erased(out + [k]) == Erased(out) + if k == Eol then [] else [k]
  {
    assert (out + [k])[..|out|] == out;
  }

  lemma {:induction false} ErasedTerminated(s: seq<Raw>, n: nat)
    requires n <= |s| && forall i :: 0 <= i < n ==> s[i].kind != Eol
    ensures Erased(Terminated(s, n)) == Kinds(s[..n])
    decreases n
  {
    hide Erased, Terminates, Terminated;
    if n == 0 {
      NothingErased(s);
    } else {
      ErasedTerminated(s, n - 1);
      TerminatedStep(s, n - 1);
      var before, k := Terminated(s, n - 1), s[n - 1].kind;
      if Terminates(s, n - 1) {
        ErasedOne(before, Eol);
        ErasedOne(before + [Eol], k);
      } else {
        ErasedOne(before, k);
        assert before + [] + [k] == before + [k];
      }
      assert Kinds(s[..n]) == Kinds(s[..n - 1]) + [k];
    }
  }

  lemma NothingErased(s: seq<Raw>)
    ensures Erased(Terminated(s, 0)) == [] == Kinds(s[..0])
  {}

  /** Without its terminators the output is the input, the missing braces and the end: nothing is lost or moved. */
  lemma ErasingGivesInput(raw: seq<Raw>)
    requires Scanned(raw)
    ensures Erased(Terminated(Completed(raw), |Completed(raw)|))
         == Kinds(raw) + Kinds(Closers(|Braces(raw, |raw|)|)) + [Eof]
  {
    var s := Completed(raw);
    forall i | 0 <= i < |s| ensures s[i].kind != Eol {
      CompletedAt(raw, i);
    }
    ErasedTerminated(s, |s|);
    assert s[..|s|] == s;
  }

  /** No two terminators are adjacent, and each follows a token that can end a statement. */
  ghost predicate WellPlaced(out: seq<Kind>) {
    forall i :: 0 <= i < |out| && out[i] == Eol ==> i > 0 && CanEndStmt(out[i - 1])
  }

  lemma {:induction false} TerminatorsWellPlaced(s: seq<Raw>, n: nat)
    requires n <= |s| && forall i :: 0 <= i < n ==> s[i].kind != Eol
    ensures var out := Terminated(s, n);
            && WellPlaced(out) && (n == 0 ==> out == []) && (n > 0 ==> out != [] && out[|out| - 1] == s[n - 1].kind)
            && forall i :: 0 <= i < |out| - 1 ==> !(out[i] == Eol && out[i + 1] == Eol)
    decreases n
  {
    hide Terminates;
    if n > 0 {
      TerminatorsWellPlaced(s, n - 1);
      var before, out := Terminated(s, n - 1), Terminated(s, n);
      TerminatesWhen(s, n - 1);
      forall i | 0 <= i < |out| && out[i] == Eol ensures i > 0 && CanEndStmt(out[i - 1]) {
        if i < |before| { assert out[i] == before[i]; }
      }
      forall i | 0 <= i < |out| - 1 ensures !(out[i] == Eol && out[i + 1] == Eol) {
        if i < |before| - 1 { assert out[i] == before[i] && out[i + 1] == before[i + 1]; }
      }
    }
  }

  /** Where token j stands in the output. */
  ghost function PlaceOf(s: seq<Raw>, j: nat): nat
    requires j < |s|
  {
    |Terminated(s, j)| + if Terminates(s, j) then 1 else 0
  }

  lemma {:induction false} PlaceHolds(s: seq<Raw>, j: nat, n: nat)
    requires j < n <= |s|
    ensures Terminated(s, j + 1) <= Terminated(s, n) && PlaceOf(s, j) < |Terminated(s, n)|
    ensures Terminated(s, n)[PlaceOf(s, j)] == s[j].kind
    ensures Terminates(s, j) ==> PlaceOf(s, j) > 0 && Terminated(s, n)[PlaceOf(s, j) - 1] == Eol
    decreases n
  {
    hide Terminates;
    TerminatedStep(s, j);
    if n > j + 1 {
      PlaceHolds(s, j, n - 1);
    }
  }

  /** Every brace that closes a body, and the end, follows a terminator or a token that cannot end a statement. */
  lemma BodiesAreTerminated(raw: seq<Raw>, j: nat)
    requires Scanned(raw) && j < |Completed(raw)| && (ClosesBody(Completed(raw), j) || j == |Completed(raw)| - 1)
    ensures var s := Completed(raw);
            var out := Terminated(s, |s|);
            var at := PlaceOf(s, j);
            && at < |out| && out[at] == s[j].kind
            && (at > 0 ==> out[at - 1] == Eol || !CanEndStmt(out[at - 1]))
  {
    hide Braces, Completed;
    var s := Completed(raw);
    CompletedAt(raw, j);
    PlaceHolds(s, j, |s|);
    if !Terminates(s, j) && j > 0 {
      PlaceHolds(s, j - 1, |s|);
      TerminatedStep(s, j - 1);
    }
  }

  // ---- macro calls -----------------------------------------------------------------------------

  /** The braces open after the first n tokens without the bound of the wrapper's stack: does each begin a macro call? */
  ghost function Opened(s: seq<Raw>, n: nat): seq<bool>
    requires n <= |s|
  {
    if n == 0 then []
    else
      var open := Opened(s, n - 1);
      match s[n - 1].kind
      case LBrace => open + [n > 1 && s[n - 2].kind == Dollar]
      case RBrace => if open == [] then [] else open[..|open| - 1]
      case _ => open
  }

  /** Token j is the closing brace of a macro call. */
  ghost predicate EndsCall(s: seq<Raw>, j: nat)
    requires j < |s|
  {
    var open := Opened(s, j);
    s[j].kind == RBrace && open != [] && open[|open| - 1]
  }

  /** The wrapper's stack knows the macro calls among the outermost 256 braces and takes the rest for bodies. */
  lemma {:induction false} StackForgets(s: seq<Raw>, n: nat)
    requires n <= |s|
    ensures |Braces(s, n)| == |Opened(s, n)|
    ensures forall i :: 0 <= i < |Opened(s, n)| ==> Braces(s, n)[i] == (Opened(s, n)[i] && i < 256)
    decreases n
  {
    if n > 0 { StackForgets(s, n - 1); }
  }

  /** The closing brace of a macro call, after a token that could end a statement, gets a terminator it
      should not have exactly when more than 256 braces are open; any other closing brace is read right. */
  lemma CallsReadExactly(s: seq<Raw>, j: nat)
    requires 0 < j < |s| && s[j].kind == RBrace && CanEndStmt(s[j - 1].kind)
    ensures Terminates(s, j) <==> !EndsCall(s, j) || |Opened(s, j)| > 256
  {
    StackForgets(s, j);
    TerminatesWhen(s, j);
    hide Braces, Opened, Terminates;
  }

  /** 256 bodies, one in another, and `${name}` in the innermost. */
  function DeepCall(): seq<Raw> {
    seq(256, i => Raw(LBrace, false)) + [Raw(Dollar, false), Raw(LBrace, false), Raw(Ident, false), Raw(RBrace, false)]
  }

  lemma {:induction false} BodiesOpen(s: seq<Raw>, n: nat)
    requires n <= |s| && forall i :: 0 <= i < n ==> s[i].kind == LBrace
    ensures |Opened(s, n)| == n
  {
    if n > 0 { BodiesOpen(s, n - 1); }
  }

  lemma DeepCallMisread()
    ensures var s := DeepCall(); |s| == 260 && EndsCall(s, 259) && Terminates(s, 259)
  {
    hide DeepCall, EndsCall, Terminates, Opened;
    var s := DeepCallShape();
    BodiesOpen(s, 256);
    CallEnds(s, 256);
    CallsReadExactly(s, 259);
  }

  lemma DeepCallShape() returns (s: seq<Raw>)
    ensures s == DeepCall() && |s| == 260 && forall i :: 0 <= i < 256 ==> s[i].kind == LBrace
    ensures s[256].kind == Dollar && s[257].kind == LBrace && s[258].kind == Ident && s[259].kind == RBrace
  {
    s := DeepCall();
  }

  lemma CallEnds(s: seq<Raw>, n: nat)
    requires n + 4 <= |s|
    requires s[n].kind == Dollar && s[n + 1].kind == LBrace && s[n + 2].kind == Ident && s[n + 3].kind == RBrace
    ensures EndsCall(s, n + 3) && |Opened(s, n + 3)| == |Opened(s, n)| + 1
  {
    assert Opened(s, n + 1) == Opened(s, n);
    assert Opened(s, n + 2) == Opened(s, n + 1) + [true];
    assert Opened(s, n + 3) == Opened(s, n + 2);
  }

  // ---- every terminator ------------------------------------------------------------------------

  /** After these a statement goes on. */
  predicate Continues(k: Kind) {
    k in {Comma, Dot, Colon, Plus, Minus, Bang, LBrace, LBracket, Dollar}
  }

  /** Where the grammar needs a terminator before token j: between two statements on different lines, where
      a body ends, and at the end of the input; never after a token after which the statement goes on. A
      macro call with more than 256 braces open counts as a body. */
  ghost predicate Wanted(s: seq<Raw>, j: nat)
    requires j < |s|
  {
    && j > 0 && !Continues(s[j - 1].kind)
    && (|| (s[j].newlineBefore && (s[j].kind.Keyword? || s[j].kind == Ident || s[j].kind == Dollar))
        || (s[j].kind == RBrace && (!EndsCall(s, j) || |Opened(s, j)| > 256))
        || s[j].kind == Eof)
  }

  /** In the output, token j of the input stands behind a terminator if it wants one, else behind token j - 1. */
  ghost predicate StandsRight(out: seq<Kind>, s: seq<Raw>, j: nat)
    requires j < |s|
  {
    var at := PlaceOf(s, j);
    && at < |out| && out[at] == s[j].kind
    && (j == 0 ==> at == 0)
    && (j > 0 ==> at > 0 && out[at - 1] == if Wanted(s, j) then Eol else s[j - 1].kind)
  }

  lemma TerminatesExactly(s: seq<Raw>, j: nat)
    requires j < |s| && (j > 0 ==> s[j - 1].kind != Eol && s[j - 1].kind != Eof)
    ensures Terminates(s, j) <==> Wanted(s, j)
  {
    StackForgets(s, j);
    TerminatesWhen(s, j);
    hide Braces, Opened, Terminates;
  }

  /** Every token of the completed input stands right: a line break between statements always gives a
      terminator, and a literal, an operator or other punctuation never stands behind one. */
  lemma EveryTokenStandsRight(raw: seq<Raw>, j: nat)
    requires Scanned(raw) && j < |Completed(raw)|
    ensures var s := Completed(raw); StandsRight(Terminated(s, |s|), s, j)
  {
    hide Braces, Completed, Opened, Scanned;
    var s := Completed(raw);
    CompletedAt(raw, j);
    if j > 0 { CompletedAt(raw, j - 1); }
    TerminatesExactly(s, j);
    PlaceHolds(s, j, |s|);
    if j > 0 {
      PlaceHolds(s, j - 1, |s|);
      TerminatedStep(s, j - 1);
      hide Terminated, Wanted, Terminates, EndsCall;
      var out := Terminated(s, |s|);
      assert PlaceOf(s, j) == PlaceOf(s, j - 1) + if Terminates(s, j) then 2 else 1;
    }
  }

  /** The parser reads until the end of the input. */
  method Tokens(raw: seq<Raw>) returns (out: seq<Kind>)
    requires Scanned(raw)
    ensures out == Terminated(Completed(raw), |Completed(raw)|)
    ensures forall j :: 0 <= j < |Completed(raw)| ==> StandsRight(out, Completed(raw), j)
  {
    hide Completed, Braces, Terminates, Terminated, Scanned, StandsRight;
    forall j | 0 <= j < |Completed(raw)| ensures StandsRight(Terminated(Completed(raw), |Completed(raw)|), Completed(raw), j) {
      EveryTokenStandsRight(raw, j);
    }
    var lexer := new Lexer(raw);
    out := [];
    EndComes(raw);
    var more := true;
    while more
      invariant lexer.Valid() && lexer.raw == raw && out == lexer.out && fresh(lexer) && fresh(lexer.braceIsMacro)
      invariant more <==> lexer.given < |Completed(raw)|
      invariant !more ==> !lexer.haveBuffered
      decreases |Completed(raw)| - lexer.given, !lexer.haveBuffered, more
    {
      CompletedAt(raw, lexer.given);
      var kind := lexer.Yylex();
      out := out + [kind];
      more := kind != Eof;
    }
  }

  lemma EndComes(raw: seq<Raw>)
    ensures |Completed(raw)| > 0
  {}
}
