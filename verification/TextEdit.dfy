/** Incremental document synchronisation: splicing an edit given by positions into the text. */
module TextEdit {
  import opened Lsp

  /** Line and column counters; they are not bounded here. */
  datatype Spot = Spot(line: nat, character: nat)

  function Advance(p: Spot, c: char): Spot {
    if c == '\n' then Spot(p.line + 1, 0) else Spot(p.line, p.character + 1)
  }

  /** Where the counters stand at an offset. */
  function SpotAt(text: string, k: nat): Spot
    requires k <= |text|
  {
    if k == 0 then Spot(0, 0) else Advance(SpotAt(text, k - 1), text[k - 1])
  }

  /** p is the position of offset k: as many lines as there are breaks before it, as many columns as there are
      characters since the last break. */
  ghost predicate IsPosition(text: string, k: nat, p: Spot) {
    && k <= |text|
    && p.line == multiset(text[..k])['\n']
    && p.character <= k
    && (forall i :: k - p.character <= i < k ==> text[i] != '\n')
    && (p.character < k ==> text[k - p.character - 1] == '\n')
  }

  /** No offset of the text from a certain one on has the position. */
  ghost predicate NowhereFrom(text: string, from: nat, p: Spot) {
    forall k :: from <= k <= |text| ==> !IsPosition(text, k, p)
  }

  lemma PositionUnique(text: string, k: nat, p: Spot, q: Spot)
    requires IsPosition(text, k, p) && IsPosition(text, k, q)
    ensures p == q
  {
    assert p.character < q.character ==> k - q.character <= k - p.character - 1 < k;
    assert q.character < p.character ==> k - p.character <= k - q.character - 1 < k;
  }

  /** The counters are the position. */
  lemma {:induction false} SpotIsPosition(text: string, k: nat)
    requires k <= |text|
    ensures IsPosition(text, k, SpotAt(text, k))
  {
    if k == 0 {
      assert text[..0] == [];
    } else {
      SpotIsPosition(text, k - 1);
      assert text[..k] == text[..k - 1] + [text[k - 1]];
    }
  }

  lemma PositionIsSpot(text: string, k: nat, p: Spot)
    requires k <= |text|
    ensures IsPosition(text, k, p) <==> p == SpotAt(text, k)
  {
    SpotIsPosition(text, k);
    if IsPosition(text, k, p) { PositionUnique(text, k, p, SpotAt(text, k)); }
  }

  predicate Earlier(a: Spot, b: Spot) {
    a.line < b.line || (a.line == b.line && a.character < b.character)
  }

  lemma {:induction false} SpotsAscend(text: string, i: nat, j: nat)
    requires i < j <= |text|
    ensures Earlier(SpotAt(text, i), SpotAt(text, j))
    decreases j
  {
    if i < j - 1 {
      SpotsAscend(text, i, j - 1);
    }
  }

  lemma {:induction false} SpotOfPrefix(text: string, other: string, k: nat)
    requires k <= |text| && k <= |other| && text[..k] == other[..k]
    ensures SpotAt(text, k) == SpotAt(other, k)
    decreases k
  {
    if k > 0 {
      assert text[k - 1] == text[..k][k - 1] && other[k - 1] == other[..k][k - 1];
      assert text[..k - 1] == text[..k][..k - 1] && other[..k - 1] == other[..k][..k - 1];
      SpotOfPrefix(text, other, k - 1);
    }
  }

  /** Where a scan from an offset stops: at the position, or at the end of the text. */
  ghost predicate StopsAt(text: string, from: nat, p: Spot, k: nat) {
    && from <= k <= |text|
    && (k < |text| ==> SpotAt(text, k) == p)
    && forall i :: from <= i < k ==> SpotAt(text, i) != p
  }

  /** The offset at which the scan stops. */
  function Scan(text: string, from: nat, p: Spot): (k: nat)
    requires from <= |text|
    ensures StopsAt(text, from, p, k)
    decreases |text| - from
  {
    if from == |text| || SpotAt(text, from) == p then from else Scan(text, from + 1, p)
  }

  lemma StopsOnce(text: string, from: nat, p: Spot, k: nat)
    requires StopsAt(text, from, p, k)
    ensures k == Scan(text, from, p)
  {}

  /** Replacing the characters between two offsets. */
  function Spliced(text: string, i: nat, j: nat, with: string): string
    requires i <= j <= |text|
  {
    text[..i] + with + text[j..]
  }

  /** A position of the text is found at its offset and nowhere else. */
  lemma StopsAtOffset(text: string, from: nat, k: nat, stop: nat)
    requires from <= k <= |text| && StopsAt(text, from, SpotAt(text, k), stop)
    ensures stop == k
  {
    if stop < k { SpotsAscend(text, stop, k); }
  }

  /** What two scans find: the offsets of the positions, in order, or the end of the text. */
  lemma ScansFind(src: string, start: Spot, end: Spot)
    ensures var si := Scan(src, 0, start); var sj := Scan(src, si, end);
            && (forall i, j :: 0 <= i <= j <= |src| && IsPosition(src, i, start) && IsPosition(src, j, end) ==> si == i && sj == j)
            && (forall i :: 0 <= i <= |src| && IsPosition(src, i, start) ==> si == i)
            && (NowhereFrom(src, 0, start) ==> si == |src|) && (NowhereFrom(src, si, end) ==> sj == |src|)
  {
    var si := Scan(src, 0, start);
    var sj := Scan(src, si, end);
    forall i | 0 <= i <= |src| && IsPosition(src, i, start) ensures si == i {
      PositionIsSpot(src, i, start);
      StopsAtOffset(src, 0, i, si);
    }
    forall j | si <= j <= |src| && IsPosition(src, j, end) ensures sj == j {
      PositionIsSpot(src, j, end);
      StopsAtOffset(src, si, j, sj);
    }
    PositionIsSpot(src, si, start);
    PositionIsSpot(src, sj, end);
  }

  /** Two scans, then prefix, replacement and suffix. Between two positions of the text, in order, exactly the
      text between them is replaced; with no such end the rest goes, with no such start nothing does. */
  method ApplyIncrementalChange(src: string, start: Spot, end: Spot, newText: string) returns (result: string)
    ensures var i := Scan(src, 0, start); result == Spliced(src, i, Scan(src, i, end), newText)
    ensures forall i, j :: 0 <= i <= j <= |src| && IsPosition(src, i, start) && IsPosition(src, j, end) ==>
              result == src[..i] + newText + src[j..]
    ensures forall i :: 0 <= i <= |src| && IsPosition(src, i, start) && NowhereFrom(src, i, end) ==> result == src[..i] + newText
    ensures NowhereFrom(src, 0, start) ==> result == src + newText
  {
    ScansFind(src, start, end);
    var startByte := 0;
    var cur := Spot(0, 0);
    while startByte < |src| && cur != start
      invariant startByte <= |src| && cur == SpotAt(src, startByte)
      invariant forall k :: 0 <= k < startByte ==> SpotAt(src, k) != start
    {
      cur := Advance(cur, src[startByte]);
      startByte := startByte + 1;
    }
    var endByte := startByte;
    cur := start;
    while endByte < |src| && cur != end
      invariant startByte <= endByte <= |src|
      invariant startByte < |src| ==> cur == SpotAt(src, endByte)
      invariant forall k :: startByte <= k < endByte ==> SpotAt(src, k) != end
    {
      cur := Advance(cur, src[endByte]);
      endByte := endByte + 1;
    }
    StopsOnce(src, 0, start, startByte);
    StopsOnce(src, startByte, end, endByte);
    hide IsPosition, SpotAt, Scan;
    result := src[..startByte] + newText + src[endByte..];
    assert src[|src|..] == "" && src[..|src|] == src;
  }

  // ---- in-range edits --------------------------------------------------------------------------

  /** Of any two positions of the text: exactly the text between them is replaced if and only if they come
      in order; given backwards, the range loses the rest of the document. */
  lemma ReplacesExactlyInOrder(src: string, i: nat, j: nat, start: Spot, end: Spot, si: nat, sj: nat)
    requires IsPosition(src, i, start) && IsPosition(src, j, end) && StopsAt(src, 0, start, si) && StopsAt(src, si, end, sj)
    ensures si == i && (sj == j <==> i <= j) && (j < i ==> sj == |src|)
    ensures i <= j ==> forall newText :: Spliced(src, si, sj, newText) == src[..i] + newText + src[j..]
    ensures j < i ==> forall newText :: Spliced(src, si, sj, newText) == src[..i] + newText
  {
    PositionIsSpot(src, i, start);
    PositionIsSpot(src, j, end);
    StopsAtOffset(src, 0, i, si);
    if i <= j {
      StopsAtOffset(src, i, j, sj);
    } else if sj < |src| {
      SpotsAscend(src, j, sj);
    }
  }

  /** The edit that puts the replaced text back over the replacement restores the source. */
  lemma InverseRestores(src: string, i: nat, j: nat, newText: string, start: Spot, end: Spot, si: nat, sj: nat)
    requires i <= j <= |src|
    requires var edited := src[..i] + newText + src[j..];
             && IsPosition(src, i, start) && IsPosition(edited, i + |newText|, end)
             && StopsAt(edited, 0, start, si) && StopsAt(edited, si, end, sj)
    ensures var edited := src[..i] + newText + src[j..]; Spliced(edited, si, sj, src[i..j]) == src
  {
    hide IsPosition, SpotAt;
    var edited := src[..i] + newText + src[j..];
    assert edited[..i] == src[..i];
    PositionIsSpot(src, i, start);
    PositionIsSpot(edited, i + |newText|, end);
    SpotOfPrefix(src, edited, i);
    StopsAtOffset(edited, 0, i, si);
    StopsAtOffset(edited, i, i + |newText|, sj);
    hide StopsAt;
    assert edited[i + |newText|..] == src[j..];
    assert src[..i] + src[i..j] + src[j..] == src;
  }

  // ---- change lists ----------------------------------------------------------------------------

  /** One entry of contentChanges: a range to replace or the whole text, and the text if it is there. */
  datatype Change = Change(range: Option<(Spot, Spot)>, text: Option<string>)

  function Applied(base: string, c: Change): Option<string> {
    if c.text == None then None
    else if c.range == None then c.text
    else
      var i := Scan(base, 0, c.range.value.0);
      Some(Spliced(base, i, Scan(base, i, c.range.value.1), c.text.value))
  }

  /** Folding the list in arrival order; an entry without a text spoils the whole list. */
  function Folded(base: string, changes: seq<Change>): Option<string> {
    if changes == [] then Some(base)
    else
      match Folded(base, changes[..|changes| - 1])
      case None => None
      case Some(mid) => Applied(mid, changes[|changes| - 1])
  }

  lemma {:induction false} Spoilt(base: string, changes: seq<Change>, k: nat)
    requires k < |changes| && changes[k].text == None
    ensures Folded(base, changes) == None
    decreases |changes|
  {
    if k < |changes| - 1 {
      Spoilt(base, changes[..|changes| - 1], k);
    }
  }

  /** Null for an empty list and for a list with an entry that has no text; the caller then keeps its text. */
  method ApplyContentChanges(base: string, changes: seq<Change>) returns (r: Option<string>)
    ensures r == if changes == [] then None else Folded(base, changes)
  {
    var current := base;
    for k := 0 to |changes|
      invariant Folded(base, changes[..k]) == Some(current)
    {
      var change := changes[k];
      if change.text == None {
        Spoilt(base, changes, k);
        return None;
      }
      var next := change.text.value;
      if change.range.Some? {
        next := ApplyIncrementalChange(current, change.range.value.0, change.range.value.1, change.text.value);
      }
      assert changes[..k + 1][..k] == changes[..k];
      current := next;
    }
    assert changes[..|changes|] == changes;
    r := if |changes| == 0 then None else Some(current);
  }

  // ---- whole sessions --------------------------------------------------------------------------

  /** What a client does to its own text: replace between two offsets, or all of it. */
  datatype ClientEdit = Splice(i: nat, j: nat, with: string) | Replace(all: string)

  predicate Possible(text: string, e: ClientEdit) {
    e.Splice? ==> e.i <= e.j <= |text|
  }

  function ClientAfter(text: string, e: ClientEdit): string
    requires Possible(text, e)
  {
    match e
    case Splice(i, j, with) => text[..i] + with + text[j..]
    case Replace(all) => all
  }

  /** What the client may send for it: the positions, in the text the edit was made to, of the two offsets. */
  ghost predicate Announces(text: string, e: ClientEdit, c: Change)
    requires Possible(text, e)
  {
    match e
    case Splice(i, j, with) =>
      && c.range.Some? && IsPosition(text, i, c.range.value.0) && IsPosition(text, j, c.range.value.1)
      && c.text == Some(with)
    case Replace(all) => c == Change(None, Some(all))
  }

  lemma AnnouncedApplies(text: string, e: ClientEdit, c: Change)
    requires Possible(text, e) && Announces(text, e, c)
    ensures Applied(text, c) == Some(ClientAfter(text, e))
  {
    if e.Splice? {
      var i := Scan(text, 0, c.range.value.0);
      ReplacesExactlyInOrder(text, e.i, e.j, c.range.value.0, c.range.value.1, i, Scan(text, i, c.range.value.1));
    }
  }

  /** One notification's edits, each made to the text the previous one left. */
  ghost predicate PossibleAll(text: string, edits: seq<ClientEdit>)
    decreases |edits|, 0
  {
    edits == [] || (PossibleAll(text, edits[..|edits| - 1])
                    && Possible(ClientAfterAll(text, edits[..|edits| - 1]), edits[|edits| - 1]))
  }

  ghost function ClientAfterAll(text: string, edits: seq<ClientEdit>): string
    requires PossibleAll(text, edits)
    decreases |edits|, 1
  {
    if edits == [] then text
    else ClientAfter(ClientAfterAll(text, edits[..|edits| - 1]), edits[|edits| - 1])
  }

  ghost predicate AnnouncesAll(text: string, edits: seq<ClientEdit>, changes: seq<Change>)
    requires PossibleAll(text, edits)
    decreases |edits|
  {
    && |changes| == |edits|
    && (edits != [] ==>
          var n := |edits| - 1;
          AnnouncesAll(text, edits[..n], changes[..n]) && Announces(ClientAfterAll(text, edits[..n]), edits[n], changes[n]))
  }

  /** Folding the announced list gives the client's text. */
  lemma {:induction false} FoldFollowsClient(text: string, edits: seq<ClientEdit>, changes: seq<Change>)
    requires PossibleAll(text, edits) && AnnouncesAll(text, edits, changes)
    ensures Folded(text, changes) == Some(ClientAfterAll(text, edits))
    decreases |edits|
  {
    if edits != [] {
      var n := |edits| - 1;
      FoldFollowsClient(text, edits[..n], changes[..n]);
      AnnouncedApplies(ClientAfterAll(text, edits[..n]), edits[n], changes[n]);
    }
  }

  /** A didChange notification on the server: the fold, or the old text when it gives nothing. */
  function ServerAfter(text: string, changes: seq<Change>): string {
    if changes == [] || Folded(text, changes) == None then text else Folded(text, changes).value
  }

  /** A notification without changes, or with one that has no text, leaves the document as it was. */
  lemma SpoiltKeepsText(text: string, changes: seq<Change>)
    requires changes == [] || exists k :: 0 <= k < |changes| && changes[k].text == None
    ensures ServerAfter(text, changes) == text
  {
    if changes != [] {
      var k :| 0 <= k < |changes| && changes[k].text == None;
      Spoilt(text, changes, k);
    }
  }

  /**
   * Over a session of notifications from a client that announces what it does, the server's text is the
   * client's text after every one of them.
   */
  lemma {:induction false} ServerFollowsClient(client: seq<string>, server: seq<string>, session: seq<seq<ClientEdit>>,
                                               sent: seq<seq<Change>>)
    requires |client| == |server| == |session| + 1 && |sent| == |session| && client[0] == server[0]
    requires forall n :: 0 <= n < |session| ==>
               && PossibleAll(client[n], session[n]) && client[n + 1] == ClientAfterAll(client[n], session[n])
               && AnnouncesAll(client[n], session[n], sent[n]) && server[n + 1] == ServerAfter(server[n], sent[n])
    ensures client == server
    decreases |session|
  {
    if session == [] {
      assert client == [client[0]] && server == [server[0]];
    } else {
      var m := |session| - 1;
      ServerFollowsClient(client[..m + 1], server[..m + 1], session[..m], sent[..m]);
      assert client[m] == client[..m + 1][m] && server[m] == server[..m + 1][m];
      FoldFollowsClient(client[m], session[m], sent[m]);
      assert client[m + 1] == server[m + 1];
      assert client == client[..m + 1] + [client[m + 1]] && server == server[..m + 1] + [server[m + 1]];
    }
  }
}
