/** Sets of diagnostics by document, and the messages that replace one set by another at the client. */
module Diagnostics {
  import opened Lsp

  type Uri = string

  datatype Diagnostic = Diagnostic(start: Pos, end: Pos, severity: int, message: string)

  /** textDocument/publishDiagnostics: the client forgets what it had for the document. */
  datatype Message = Publish(uri: Uri, items: seq<Diagnostic>)

  type View = map<Uri, seq<Diagnostic>>

  function Shown(view: View, uri: Uri): seq<Diagnostic> {
    if uri in view then view[uri] else []
  }

  function Receive(view: View, m: Message): View {
    view[m.uri := m.items]
  }

  function ReceiveAll(view: View, messages: seq<Message>): View {
    if messages == [] then view
    else Receive(ReceiveAll(view, messages[..|messages| - 1]), messages[|messages| - 1])
  }

  datatype DiagFile = DiagFile(uri: Uri, items: seq<Diagnostic>)

  /** One bucket a document, none empty: a bucket is created to receive a diagnostic. */
  ghost predicate WellFormed(files: seq<DiagFile>) {
    && (forall i :: 0 <= i < |files| ==> files[i].items != [])
    && (forall i, j :: 0 <= i < j < |files| ==> files[i].uri != files[j].uri)
  }

  predicate Has(files: seq<DiagFile>, uri: Uri) {
    exists i :: 0 <= i < |files| && files[i].uri == uri
  }

  /** The diagnostics of a document in a set. */
  function ItemsOf(files: seq<DiagFile>, uri: Uri): seq<Diagnostic> {
    if files == [] then []
    else if files[0].uri == uri then files[0].items
    else ItemsOf(files[1..], uri)
  }

  lemma {:induction false} ItemsAt(files: seq<DiagFile>, i: nat)
    requires WellFormed(files) && i < |files|
    ensures ItemsOf(files, files[i].uri) == files[i].items
  {
    if i > 0 {
      assert files[0].uri != files[i].uri;
      ItemsAt(files[1..], i - 1);
    }
  }

  lemma {:induction false} ItemsNone(files: seq<DiagFile>, uri: Uri)
    requires !Has(files, uri)
    ensures ItemsOf(files, uri) == []
  {
    if files != [] {
      assert files[0].uri != uri;
      assert !Has(files[1..], uri) by {
        assert forall i :: 0 <= i < |files| - 1 ==> files[1..][i] == files[i + 1];
      }
      ItemsNone(files[1..], uri);
    }
  }

  lemma HasExactly(files: seq<DiagFile>, uri: Uri)
    requires WellFormed(files)
    ensures Has(files, uri) <==> ItemsOf(files, uri) != []
  {
    if Has(files, uri) {
      var i :| 0 <= i < |files| && files[i].uri == uri;
      ItemsAt(files, i);
    } else {
      ItemsNone(files, uri);
    }
  }

  class DiagSet {
    var files: seq<DiagFile>

    ghost predicate Valid()
      reads this
    {
      WellFormed(files)
    }

    constructor ()
      ensures Valid() && files == []
    {
      files := [];
    }

    method FileIndex(uri: Uri) returns (i: nat)
      requires Valid()
      ensures i <= |files| && (i < |files| ==> files[i].uri == uri)
      ensures i == |files| <==> !Has(files, uri)
    {
      i := 0;
      while i < |files|
        invariant i <= |files| && forall j :: 0 <= j < i ==> files[j].uri != uri
      {
        if files[i].uri == uri {
          return;
        }
        i := i + 1;
      }
    }

    /** Append in source order; every other document keeps its diagnostics. */
    method Add(uri: Uri, d: Diagnostic)
      requires Valid()
      modifies this
      ensures Valid()
      ensures ItemsOf(files, uri) == ItemsOf(old(files), uri) + [d]
      ensures forall u :: u != uri ==> ItemsOf(files, u) == ItemsOf(old(files), u)
    {
      var i := FileIndex(uri);
      ghost var before := files;
      if i == |files| {
        files := files + [DiagFile(uri, [d])];
      } else {
        files := files[i := DiagFile(uri, files[i].items + [d])];
      }
      AddedFile(before, files, i, uri, d);
    }
  }

  lemma AddedFile(before: seq<DiagFile>, after: seq<DiagFile>, i: nat, uri: Uri, d: Diagnostic)
    requires WellFormed(before) && i <= |before| && (i == |before| <==> !Has(before, uri))
    requires i < |before| ==> before[i].uri == uri && after == before[i := DiagFile(uri, before[i].items + [d])]
    requires i == |before| ==> after == before + [DiagFile(uri, [d])]
    ensures WellFormed(after)
    ensures ItemsOf(after, uri) == ItemsOf(before, uri) + [d]
    ensures forall u :: u != uri ==> ItemsOf(after, u) == ItemsOf(before, u)
  {
    assert WellFormed(after);
    assert after[i].uri == uri;
    ItemsAt(after, i);
    if i < |before| { ItemsAt(before, i); } else { ItemsNone(before, uri); }
    forall u | u != uri ensures ItemsOf(after, u) == ItemsOf(before, u) {
      if j :| 0 <= j < |before| && before[j].uri == u {
        ItemsAt(before, j);
        ItemsAt(after, j);
      } else {
        assert forall j :: 0 <= j < |after| ==> after[j].uri == uri || after[j] == before[j];
        ItemsNone(before, u);
        ItemsNone(after, u);
      }
    }
  }

  // ---- publishing one set over another ---------------------------------------------------------

  /** Every document of the current set, then an empty list for each that only the previous set had. */
  function CurrentMessages(files: seq<DiagFile>): seq<Message> {
    if files == [] then []
    else CurrentMessages(files[..|files| - 1]) + [Publish(files[|files| - 1].uri, files[|files| - 1].items)]
  }

  function StaleMessages(files: seq<DiagFile>, current: seq<DiagFile>): seq<Message> {
    if files == [] then []
    else StaleMessages(files[..|files| - 1], current) +
         (if Has(current, files[|files| - 1].uri) then [] else [Publish(files[|files| - 1].uri, [])])
  }

  function PublishMessages(current: seq<DiagFile>, previous: seq<DiagFile>): seq<Message> {
    CurrentMessages(current) + StaleMessages(previous, current)
  }

  method HasUri(files: seq<DiagFile>, uri: Uri) returns (has: bool)
    ensures has == Has(files, uri)
  {
    for i := 0 to |files|
      invariant forall j :: 0 <= j < i ==> files[j].uri != uri
    {
      if files[i].uri == uri {
        return true;
      }
    }
    return false;
  }

  method DiagSetPublish(current: seq<DiagFile>, previous: seq<DiagFile>) returns (messages: seq<Message>)
    ensures messages == PublishMessages(current, previous)
  {
    messages := [];
    for i := 0 to |current|
      invariant messages == CurrentMessages(current[..i])
    {
      assert current[..i + 1][..i] == current[..i];
      messages := messages + [Publish(current[i].uri, current[i].items)];
    }
    assert current[..|current|] == current && previous[..|previous|] == previous;
    for i := 0 to |previous|
      invariant messages == CurrentMessages(current) + StaleMessages(previous[..i], current)
    {
      assert previous[..i + 1][..i] == previous[..i];
      var has := HasUri(current, previous[i].uri);
      if !has {
        messages := messages + [Publish(previous[i].uri, [])];
      }
    }
  }

  /** What is sent: the current set's documents with their diagnostics, empty lists for the stale ones. */
  lemma {:induction false} CurrentSent(files: seq<DiagFile>, m: Message)
    ensures m in CurrentMessages(files) <==> DiagFile(m.uri, m.items) in files
    decreases |files|
  {
    if files != [] {
      CurrentSent(files[..|files| - 1], m);
      assert files == files[..|files| - 1] + [files[|files| - 1]];
    }
  }

  lemma {:induction false} StaleSent(files: seq<DiagFile>, current: seq<DiagFile>, m: Message)
    ensures m in StaleMessages(files, current) <==> m.items == [] && Has(files, m.uri) && !Has(current, m.uri)
    decreases |files|
  {
    if files != [] {
      var init := files[..|files| - 1];
      var last := files[|files| - 1];
      StaleSent(init, current, m);
      assert files == init + [last];
      assert Has(files, m.uri) <==> Has(init, m.uri) || last.uri == m.uri by {
        if Has(init, m.uri) {
          var i :| 0 <= i < |init| && init[i].uri == m.uri;
          assert files[i].uri == m.uri;
        }
        if Has(files, m.uri) && last.uri != m.uri {
          var i :| 0 <= i < |files| && files[i].uri == m.uri;
          assert init[i].uri == m.uri;
        }
        if last.uri == m.uri { assert files[|files| - 1].uri == m.uri; }
      }
    }
  }

  lemma MessagesSent(current: seq<DiagFile>, previous: seq<DiagFile>, m: Message)
    requires WellFormed(current)
    ensures m in PublishMessages(current, previous) <==>
              if Has(current, m.uri) then m.items == ItemsOf(current, m.uri)
              else m.items == [] && Has(previous, m.uri)
  {
    CurrentSent(current, m);
    StaleSent(previous, current, m);
    if i :| 0 <= i < |current| && current[i].uri == m.uri {
      ItemsAt(current, i);
      if DiagFile(m.uri, m.items) in current {
        var j :| 0 <= j < |current| && current[j] == DiagFile(m.uri, m.items);
        ItemsAt(current, j);
      }
    }
  }

  /** After all messages, a document shows the last one about it, or what it showed before. */
  lemma {:induction false} ShownAfter(view: View, messages: seq<Message>, uri: Uri, items: seq<Diagnostic>)
    requires forall i :: 0 <= i < |messages| && messages[i].uri == uri ==> messages[i].items == items
    ensures Shown(ReceiveAll(view, messages), uri)
         == if exists i :: 0 <= i < |messages| && messages[i].uri == uri then items else Shown(view, uri)
    decreases |messages|
  {
    if messages != [] {
      var init := messages[..|messages| - 1];
      ShownAfter(view, init, uri, items);
      if i :| 0 <= i < |messages| && messages[i].uri == uri {
        if i < |init| { assert init[i].uri == uri; }
      }
      if i :| 0 <= i < |init| && init[i].uri == uri {
        assert messages[i].uri == uri;
      }
    }
  }

  /**
   * If the client showed at most the previous set's documents, it shows exactly the current set after
   * the messages, whatever it showed for them.
   */
  lemma PublishReplaces(view: View, current: seq<DiagFile>, previous: seq<DiagFile>, uri: Uri)
    requires WellFormed(current) && (Shown(view, uri) != [] ==> Has(previous, uri))
    ensures Shown(ReceiveAll(view, PublishMessages(current, previous)), uri) == ItemsOf(current, uri)
  {
    hide PublishMessages, ItemsOf, Has, WellFormed;
    var messages := PublishMessages(current, previous);
    var items := ItemsOf(current, uri);
    HasExactly(current, uri);
    forall i | 0 <= i < |messages| && messages[i].uri == uri ensures messages[i].items == items {
      MessagesSent(current, previous, messages[i]);
      assert messages[i] in messages;
    }
    ShownAfter(view, messages, uri, items);
    MessagesSent(current, previous, Publish(uri, items));
  }
}
