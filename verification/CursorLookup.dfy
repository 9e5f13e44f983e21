/** From a cursor position to the declaration around it, through the owner of the token before it. */
module CursorLookup {
  import opened Lsp
  import opened TokenOwners
  import opened OwnerScope

  datatype Token = Token(start: Pos, isEof: bool)

  function Starts(tokens: seq<Token>): seq<Pos> {
    seq(|tokens|, i requires 0 <= i < |tokens| => tokens[i].start)
  }

  /** Tokens in source order, end-of-input markers at the tail only. */
  ghost predicate Lexed(tokens: seq<Token>) {
    forall i, j :: 0 <= i < j < |tokens| ==>
      AtMost(tokens[i].start, tokens[j].start) && (tokens[i].isEof ==> tokens[j].isEof)
  }

  /** Tokens before the end of input that start at or before the cursor. */
  predicate Candidate(tokens: seq<Token>, pos: Pos, i: int) {
    0 <= i < |tokens| && !tokens[i].isEof && AtMost(tokens[i].start, pos)
  }

  ghost predicate LastCandidate(tokens: seq<Token>, pos: Pos, f: int) {
    if f == -1 then forall i :: !Candidate(tokens, pos, i)
    else Candidate(tokens, pos, f) && forall i :: f < i ==> !Candidate(tokens, pos, i)
  }

  /** A token of the text that starts on an earlier line, or on the same line at no later column. */
  ghost predicate StartsBy(t: Token, pos: Pos) {
    !t.isEof && (t.start.line < pos.line || (t.start.line == pos.line && t.start.character <= pos.character))
  }

  /** The candidates are the tokens up to the last one. */
  lemma CandidatesFirst(tokens: seq<Token>, pos: Pos, found: int)
    requires Lexed(tokens) && -1 <= found < |tokens| && LastCandidate(tokens, pos, found)
    ensures forall i :: 0 <= i < |tokens| ==> (i <= found <==> StartsBy(tokens[i], pos))
  {
    forall i | 0 <= i < |tokens| ensures i <= found <==> Candidate(tokens, pos, i) {
      if i < found { assert AtMost(tokens[i].start, tokens[found].start); }
    }
    forall i | 0 <= i < |tokens| ensures StartsBy(tokens[i], pos) <==> Candidate(tokens, pos, i) {
      var a := tokens[i].start;
      assert a == Pos(a.line, a.character) && pos == Pos(pos.line, pos.character);
    }
  }

  method FindToken(tokens: seq<Token>, pos: Pos) returns (found: int)
    requires Lexed(tokens)
    ensures -1 <= found < |tokens| && LastCandidate(tokens, pos, found)
    ensures forall i :: 0 <= i < |tokens| ==> (i <= found <==> StartsBy(tokens[i], pos))
  {
    found := -1;
    var lo, hi := 0, |tokens| - 1;
    while lo <= hi
      invariant -1 <= found < lo <= hi + 1 <= |tokens|
      invariant found == -1 || Candidate(tokens, pos, found)
      invariant found == lo - 1
      invariant forall i :: hi < i ==> !Candidate(tokens, pos, i)
      decreases hi - lo
    {
      var mid := lo + (hi - lo) / 2;
      if tokens[mid].isEof {
        hi := mid - 1;
      } else if AtMost(tokens[mid].start, pos) {
        found := mid;
        lo := mid + 1;
      } else {
        hi := mid - 1;
      }
    }
    CandidatesFirst(tokens, pos, found);
  }

  // ---- parent links ----------------------------------------------------------------------------

  /** The owner and its parents, outermost first: a hoisted declaration's parent is the root, not the project. */
  function ParentPath(chain: seq<Node>, project: Option<Node>): seq<Node> {
    if |chain| > 1 && project == Some(chain[0]) then chain[1..] else chain
  }

  /** The path up to its innermost declaration that has not ended at pos. */
  function Trim(path: seq<Node>, pos: Pos): seq<Node> {
    if path == [] then []
    else if Before(pos, path[|path| - 1].end) then path
    else Trim(path[..|path| - 1], pos)
  }

  /** No declaration of the forest starts after a and at or before pos. */
  ghost predicate Unbroken(nodes: seq<Node>, a: Pos, pos: Pos) {
    forall n :: Within(n, nodes) ==> !(Before(a, n.start) && AtMost(n.start, pos))
  }

  lemma {:induction false} TrimEnded(path: seq<Node>, pos: Pos)
    requires forall i :: 0 <= i < |path| ==> !Before(pos, path[i].end)
    ensures Trim(path, pos) == []
    decreases |path|
  {
    if path != [] { TrimEnded(path[..|path| - 1], pos); }
  }

  lemma {:induction false} TrimAfter(first: Node, path: seq<Node>, pos: Pos)
    requires Before(pos, first.end)
    ensures Trim([first] + path, pos) == [first] + Trim(path, pos)
    decreases |path|
  {
    if path == [] {
      assert [first] + path == [first];
    } else {
      TrimAfter(first, path[..|path| - 1], pos);
      assert ([first] + path)[..|path|] == [first] + path[..|path| - 1];
    }
  }

  lemma {:induction false} ChainEndsInside(nodes: seq<Node>, a: Pos, n: Node)
    requires Laminar(nodes) && n in ChainAt(nodes, a)
    ensures exists i :: 0 <= i < |nodes| && Contains(nodes[i], a) && AtMost(n.end, nodes[i].end)
    decreases nodes
  {
    if i :| 0 <= i < |nodes| && Contains(nodes[i], a) {
      forall j | 0 <= j < i ensures !Contains(nodes[j], a) {}
      ChainFrom(nodes, a, i);
      ChainStep(nodes, i, a);
      assert Nested(nodes[i]);
      if n != nodes[i] {
        ChainEndsInside(nodes[i].children, a, n);
      }
    } else {
      NothingAhead(nodes, a);
    }
  }

  lemma TopWithin(nodes: seq<Node>, i: nat)
    requires i < |nodes|
    ensures Within(nodes[i], nodes)
    ensures forall n :: Within(n, nodes[i].children) ==> Within(n, nodes)
  {}

  /** Climbing from the declarations around a to those still open at pos finds the chain at pos. */
  lemma {:induction false} TrimmedChain(nodes: seq<Node>, a: Pos, pos: Pos)
    requires Laminar(nodes) && AtMost(a, pos) && Unbroken(nodes, a, pos)
    ensures Trim(ChainAt(nodes, a), pos) == ChainAt(nodes, pos)
    decreases nodes
  {
    hide Trim, ChainAt, Within;
    if i :| 0 <= i < |nodes| && Contains(nodes[i], a) {
      TopWithin(nodes, i);
      ChainHere(nodes, i, a);
      if Before(pos, nodes[i].end) {
        assert Nested(nodes[i]);
        TrimmedChain(nodes[i].children, a, pos);
        TrimAfter(nodes[i], ChainAt(nodes[i].children, a), pos);
        ChainHere(nodes, i, pos);
      } else {
        forall n | n in ChainAt(nodes, a) ensures !Before(pos, n.end) {
          ChainEndsInside(nodes, a, n);
        }
        TrimEnded(ChainAt(nodes, a), pos);
        NoNewcomer(nodes, a, pos);
        NothingAhead(nodes, pos);
      }
    } else {
      NothingAhead(nodes, a);
      NoNewcomer(nodes, a, pos);
      NothingAhead(nodes, pos);
      TrimEnded([], pos);
    }
  }

  lemma ChainHere(nodes: seq<Node>, i: nat, pos: Pos)
    requires Laminar(nodes) && i < |nodes| && Contains(nodes[i], pos)
    ensures ChainAt(nodes, pos) == [nodes[i]] + ChainAt(nodes[i].children, pos)
  {
    LaminarApart(nodes);
    ChainThrough(nodes, nodes[i], pos);
  }

  /** Without a declaration starting in between, what contains pos contained a already. */
  lemma NoNewcomer(nodes: seq<Node>, a: Pos, pos: Pos)
    requires AtMost(a, pos) && Unbroken(nodes, a, pos)
    ensures forall j :: 0 <= j < |nodes| && Contains(nodes[j], pos) ==> Contains(nodes[j], a)
  {
    forall j | 0 <= j < |nodes| && Contains(nodes[j], pos) ensures Contains(nodes[j], a) {
      TopWithin(nodes, j);
    }
  }

  // ---- the lookup ------------------------------------------------------------------------------

  /** Every declaration starts with a token of its own. */
  ghost predicate StartsAtToken(nodes: seq<Node>, tokens: seq<Token>) {
    forall n :: Within(n, nodes) ==> exists t :: 0 <= t < |tokens| && !tokens[t].isEof && tokens[t].start == n.start
  }

  /**
   * The one family of positions the climb gets wrong: in the project, outside its hoisted declarations,
   * with the last token before them inside one.
   */
  ghost predicate InProjectGap(top: seq<Node>, project: Option<Node>, tokens: seq<Token>, pos: Pos) {
    && project.Some? && ChainAt(top, pos) == [project.value]
    && exists f :: 0 <= f < |tokens| && LastCandidate(tokens, pos, f)
                && |ChainAt(top, tokens[f].start)| > 1
  }

  function Innermost(chain: seq<Node>): Option<Node> {
    if chain == [] then None else Some(chain[|chain| - 1])
  }

  lemma GapIsMissed(top: seq<Node>, project: Option<Node>, tokens: seq<Token>, pos: Pos)
    ensures InProjectGap(top, project, tokens, pos) ==> Innermost(ChainAt(top, pos)) != Innermost([])
    ensures Innermost(ParentPath(ChainAt(top, pos), project)) == Innermost(ChainAt(top, pos))
  {}

  /** The innermost element of the returned path is the node found; an empty path is no node. */
  method TjNodeAt(ghost top: seq<Node>, project: Option<Node>, tokens: seq<Token>, owners: seq<seq<Node>>, pos: Pos)
    returns (path: seq<Node>)
    requires Laminar(top) && Lexed(tokens) && StartsAtToken(top, tokens)
    requires project.Some? ==> project.value in top
    requires |owners| == |tokens| && forall t :: 0 <= t < |tokens| ==> owners[t] == ChainAt(top, tokens[t].start)
    ensures path == if InProjectGap(top, project, tokens, pos) then [] else ParentPath(ChainAt(top, pos), project)
    ensures Innermost(path) == Innermost(ChainAt(top, pos)) <==> !InProjectGap(top, project, tokens, pos)
  {
    hide ChainAt, Laminar, Within, InProjectGap, StartsAtToken, ParentPath, Trim;
    GapIsMissed(top, project, tokens, pos);
    var found := FindToken(tokens, pos);
    if found < 0 {
      NothingYet(top, project, tokens, pos);
      return [];
    }
    path := ParentPath(owners[found], project);
    ghost var start := path;
    while |path| > 0 && AtMost(path[|path| - 1].end, pos)
      invariant Trim(path, pos) == Trim(start, pos)
      decreases |path|
    {
      TrimStep(path, pos);
      path := path[..|path| - 1];
    }
    TrimDone(path, pos);
    ClimbFinds(top, project, tokens, found, pos);
  }

  lemma TrimStep(path: seq<Node>, pos: Pos)
    requires |path| > 0 && AtMost(path[|path| - 1].end, pos)
    ensures Trim(path, pos) == Trim(path[..|path| - 1], pos)
  {}

  lemma TrimDone(path: seq<Node>, pos: Pos)
    requires |path| > 0 ==> !AtMost(path[|path| - 1].end, pos)
    ensures Trim(path, pos) == path
  {}

  lemma NothingYet(top: seq<Node>, project: Option<Node>, tokens: seq<Token>, pos: Pos)
    requires StartsAtToken(top, tokens) && LastCandidate(tokens, pos, -1)
    ensures ChainAt(top, pos) == [] && ParentPath([], project) == []
  {
    forall j | 0 <= j < |top| ensures !Contains(top[j], pos) {
      TopWithin(top, j);
      var t :| 0 <= t < |tokens| && !tokens[t].isEof && tokens[t].start == top[j].start;
      assert !Candidate(tokens, pos, t);
    }
    NothingAhead(top, pos);
  }

  lemma NoStartAfter(top: seq<Node>, tokens: seq<Token>, f: nat, pos: Pos)
    requires Lexed(tokens) && StartsAtToken(top, tokens) && f < |tokens| && LastCandidate(tokens, pos, f)
    ensures Unbroken(top, tokens[f].start, pos)
  {
    hide Within;
    forall n | Within(n, top) ensures !(Before(tokens[f].start, n.start) && AtMost(n.start, pos)) {
      var t :| 0 <= t < |tokens| && !tokens[t].isEof && tokens[t].start == n.start;
      assert Candidate(tokens, pos, t) || !AtMost(n.start, pos);
      assert t < f ==> AtMost(tokens[t].start, tokens[f].start);
    }
  }

  lemma ClimbFinds(top: seq<Node>, project: Option<Node>, tokens: seq<Token>, f: nat, pos: Pos)
    requires Laminar(top) && Lexed(tokens) && StartsAtToken(top, tokens)
    requires project.Some? ==> project.value in top
    requires f < |tokens| && LastCandidate(tokens, pos, f)
    ensures Trim(ParentPath(ChainAt(top, tokens[f].start), project), pos)
         == if InProjectGap(top, project, tokens, pos) then [] else ParentPath(ChainAt(top, pos), project)
  {
    hide Trim, ChainAt, Laminar, Within, StartsAtToken;
    var a := tokens[f].start;
    NoStartAfter(top, tokens, f, pos);
    TrimmedChain(top, a, pos);
    var c := ChainAt(top, a);
    if |c| > 1 && project == Some(c[0]) {
      var rest := c[1..];
      assert c == [c[0]] + rest;
      if Before(pos, c[0].end) {
        TrimAfter(c[0], rest, pos);
        assert ChainAt(top, pos) == [c[0]] + Trim(rest, pos);
      } else {
        AllEnded(top, a, pos);
        TrimEnded(c, pos);
        TrimEnded(rest, pos);
      }
    } else {
      NotTheProject(top, project, a, pos);
    }
  }

  lemma AllEnded(top: seq<Node>, a: Pos, pos: Pos)
    requires Laminar(top) && ChainAt(top, a) != [] && !Before(pos, ChainAt(top, a)[0].end)
    ensures forall i :: 0 <= i < |ChainAt(top, a)| ==> !Before(pos, ChainAt(top, a)[i].end)
  {
    var c := ChainAt(top, a);
    forall i | 0 <= i < |c| ensures !Before(pos, c[i].end) {
      assert c[i] in c;
      ChainEndsInside(top, a, c[i]);
      var k :| 0 <= k < |top| && Contains(top[k], a) && AtMost(c[i].end, top[k].end);
      ChainHere(top, k, a);
    }
  }

  /** An owner chain that does not go through the project leaves the parent links alone. */
  lemma NotTheProject(top: seq<Node>, project: Option<Node>, a: Pos, pos: Pos)
    requires Laminar(top) && Trim(ChainAt(top, a), pos) == ChainAt(top, pos)
    requires !(|ChainAt(top, a)| > 1 && project == Some(ChainAt(top, a)[0]))
    ensures ParentPath(ChainAt(top, pos), project) == ChainAt(top, pos)
    ensures project.Some? && ChainAt(top, pos) == [project.value] ==> |ChainAt(top, a)| <= 1
  {
    TrimIsPrefix(ChainAt(top, a), pos);
  }

  lemma {:induction false} TrimIsPrefix(path: seq<Node>, pos: Pos)
    ensures Trim(path, pos) <= path
    decreases |path|
  {
    if path != [] { TrimIsPrefix(path[..|path| - 1], pos); }
  }

  /** Without a re-nested project the lookup is the naive search at every position. */
  lemma NoGapWithoutProject(top: seq<Node>, tokens: seq<Token>, pos: Pos)
    ensures !InProjectGap(top, None, tokens, pos) && ParentPath(ChainAt(top, pos), None) == ChainAt(top, pos)
  {}

  // ---- parse to cursor -------------------------------------------------------------------------

  function ProjectOf(children: seq<Node>, p: Option<nat>): Option<Node>
    requires p.Some? ==> p.value < |children|
  {
    if p == None then None else Some(Reclaimed(children, p.value))
  }

  lemma ProjectInScope(children: seq<Node>, p: Option<nat>)
    requires Hoisted(children, p)
    ensures ProjectOf(children, p).Some? ==> ProjectOf(children, p).value in ScopeOf(children, p)
  {
    hide Apart, Inside, SortByStart, Others, Laminar, Nested;
    if p.Some? {
      var frame := Inside(Others(children, p.value), children[p.value], false) + [Reclaimed(children, p.value)];
      FramesApart(children, p.value);
      SortMakesLaminar(frame);
      assert frame[|frame| - 1] == Reclaimed(children, p.value);
    }
  }

  /**
   * From the declarations as the grammar left them to the declaration around the cursor: the answer is
   * the naive search's at every position outside the gaps of a re-nested project, and only there.
   */
  method NodeAtCursor(children: seq<Node>, tokens: seq<Token>, pos: Pos) returns (path: seq<Node>, p: Option<nat>)
    requires forall q :: IsFirstProject(children, q) ==> Hoisted(children, q) && StartsAtToken(ScopeOf(children, q), tokens)
    requires Lexed(tokens)
    ensures IsFirstProject(children, p)
    ensures Innermost(path) == Innermost(NaiveChain(children, p, pos)) <==>
              !InProjectGap(ScopeOf(children, p), ProjectOf(children, p), tokens, pos)
  {
    hide ChainAt, Hoisted, NaiveChain, ScopeOf, ProjectOf, Laminar, InProjectGap, StartsAtToken, Within, ParentPath;
    var top;
    top, p := BuildOwnerScope(children);
    ScopeIsLaminar(children, p);
    ProjectInScope(children, p);
    ghost var entered;
    var owners;
    owners, entered := AssignTokenOwners(top, Starts(tokens));
    path := TjNodeAt(top, ProjectOf(children, p), tokens, owners, pos);
    ScopeKeepsChains(children, p, pos);
  }

  /** A blank line of the project block after a task, which the grammar hoists out of it: the project
      encloses the line, the lookup finds nothing. */
  lemma GapExists() returns (children: seq<Node>, tokens: seq<Token>, pos: Pos)
    ensures children == [Node("p", true, Pos(0, 0), Pos(8, 1), []), Node("t", false, Pos(1, 0), Pos(1, 10), [])]
    ensures Hoisted(children, Some(0)) && IsFirstProject(children, Some(0)) && Lexed(tokens)
    ensures StartsAtToken(ScopeOf(children, Some(0)), tokens)
    ensures InProjectGap(ScopeOf(children, Some(0)), ProjectOf(children, Some(0)), tokens, pos)
  {
    var task := Node("t", false, Pos(1, 0), Pos(1, 10), []);
    var project := Node("p", true, Pos(0, 0), Pos(8, 1), []);
    children := [project, task];
    tokens := [Token(Pos(0, 0), false), Token(Pos(1, 0), false), Token(Pos(8, 0), false), Token(Pos(9, 0), true)];
    pos := Pos(5, 0);
    var around := project.(children := [task]);
    GapScope(children, project, task);
    var top := ScopeOf(children, Some(0));
    assert top == [around] && ProjectOf(children, Some(0)) == Some(around);
    hide ScopeOf, Reclaimed, ProjectOf;
    GapStarts(top, around, task, tokens);
    hide StartsAtToken, ChainAt, Laminar, Hoisted;
    GapChains(top, around, task, pos, Pos(1, 0));
    assert Candidate(tokens, pos, 1) && LastCandidate(tokens, pos, 1);
  }

  lemma GapChains(top: seq<Node>, around: Node, task: Node, pos: Pos, a: Pos)
    requires top == [around] && around.children == [task]
    requires Contains(around, pos) && !Contains(task, pos) && Contains(around, a) && Contains(task, a)
    ensures ChainAt(top, pos) == [around] && |ChainAt(top, a)| > 1
  {
    assert ChainAt(top, pos) == [around] + ChainAt([task], pos) && ChainAt(top, a) == [around] + ChainAt([task], a);
    NothingAhead([task], pos);
    assert ChainAt([task], a) == [task] + ChainAt(task.children, a);
    hide ChainAt;
  }

  lemma GapScope(children: seq<Node>, project: Node, task: Node)
    requires children == [project, task] && project.isProject && project.children == task.children == []
    requires RangeWithin(task, project) && Before(task.start, task.end) && Before(project.start, project.end)
    ensures ScopeOf(children, Some(0)) == [project.(children := [task])]
    ensures ProjectOf(children, Some(0)) == Some(project.(children := [task]))
    ensures Hoisted(children, Some(0)) && Laminar(ScopeOf(children, Some(0)))
  {
    hide Hoisted, Laminar;
    var around := project.(children := [task]);
    OnlyOne(task);
    OnlyOne(around);
    assert Others(children, 0) == [task];
    OnlyTask(task, project);
    hide SortByStart, Inside;
    assert Reclaimed(children, 0) == around;
    assert [] + [around] == [around];
    GapHoisted(children, project, task);
    ScopeIsLaminar(children, Some(0));
  }

  lemma GapHoisted(children: seq<Node>, project: Node, task: Node)
    requires children == [project, task] && task.children == []
    requires RangeWithin(task, project) && Before(task.start, task.end) && Before(project.start, project.end)
    ensures Hoisted(children, Some(0))
  {
    assert Others(children, 0) == [task] && Nested(task);
  }

  lemma OnlyOne(n: Node)
    ensures SortByStart([n]) == [n]
  {
    assert [n][..0] == [];
  }

  lemma OnlyTask(task: Node, project: Node)
    requires RangeWithin(task, project)
    ensures Inside([task], project, true) == [task] && Inside([task], project, false) == []
  {
    assert [task][..0] == [];
    assert Inside([], project, true) == [] && Inside([], project, false) == [] && [] + [task] == [task];
  }

  lemma GapStarts(top: seq<Node>, around: Node, task: Node, tokens: seq<Token>)
    requires top == [around] && around.children == [task] && task.children == []
    requires |tokens| > 1 && tokens[0] == Token(around.start, false) && tokens[1] == Token(task.start, false)
    ensures StartsAtToken(top, tokens)
  {
    forall n | Within(n, top) ensures n == around || n == task {
      var i :| 0 <= i < |top| && (n == top[i] || Within(n, top[i].children));
      if n != around {
        var j :| 0 <= j < |[task]| && (n == [task][j] || Within(n, [task][j].children));
      }
    }
  }
}
