/** One slot of the document store: snapshot rotation and version stamping. */
module DocumentStore {
  import opened Lsp
  import opened SemanticTokens

  type ParsedSpans = s: seq<TokenSpan> | Forward(s) ghost witness []

  /** One parse result; its token data is a function of its spans. */
  datatype DocSnapshot = DocSnapshot(version: nat, spans: ParsedSpans)

  ghost function Tokens(d: DocSnapshot): seq<uint32> {
    Encode(AllMarks(d.spans))
  }

  lemma TokensAreTuples(d: DocSnapshot)
    ensures |Tokens(d)| % 5 == 0
  {
    EncodeLength(AllMarks(d.spans));
  }

  /** docVersion is the version the next parse will get. */
  datatype Slot = Slot(inUse: bool, docVersion: nat, snap: Option<DocSnapshot>, prev: Option<DocSnapshot>)

  const UNUSED := Slot(false, 0, None, None)

  function Alloc(s: Slot): Slot {
    s.(inUse := true, docVersion := 1)
  }

  function Clear(s: Slot): Slot {
    s.(snap := None, prev := None)
  }

  /** Rotates the current snapshot into prev; a parse consumes one version, a missing parse none. */
  function Install(s: Slot, po: Option<ParsedSpans>): Slot {
    match po
    case None => s.(snap := None, prev := s.snap)
    case Some(spans) =>
      Slot(s.inUse, s.docVersion + 1, Some(DocSnapshot(s.docVersion, spans)), s.snap)
  }

  class Document {
    var inUse: bool
    var docVersion: nat
    var snap: Option<DocSnapshot>
    var prevSnap: Option<DocSnapshot>

    function State(): Slot
      reads this
    {
      Slot(inUse, docVersion, snap, prevSnap)
    }

    constructor ()
      ensures State() == UNUSED
    {
      inUse, docVersion, snap, prevSnap := false, 0, None, None;
    }

    method DocAlloc()
      modifies this
      ensures State() == Alloc(old(State()))
      ensures inUse && docVersion == 1 && snap == old(snap) && prevSnap == old(prevSnap)
    {
      inUse := true;
      docVersion := 1;
    }

    method ClearParseState()
      modifies this
      ensures State() == Clear(old(State()))
      ensures snap == None && prevSnap == None && inUse == old(inUse) && docVersion == old(docVersion)
    {
      snap := None;
      prevSnap := None;
    }

    method InstallParse(po: Option<ParsedSpans>)
      modifies this
      ensures State() == Install(old(State()), po)
      ensures prevSnap == old(snap) && inUse == old(inUse)
      ensures po == None ==> snap == None && docVersion == old(docVersion)
      ensures po.Some? ==> snap == Some(DocSnapshot(old(docVersion), po.value)) && docVersion == old(docVersion) + 1
    {
      var installed: Option<DocSnapshot> := None;
      if po.Some? {
        var version := docVersion;
        docVersion := docVersion + 1;
        installed := Some(DocSnapshot(version, po.value));
      }
      prevSnap := snap;
      snap := installed;
    }

    method DocFree()
      modifies this
      ensures State() == UNUSED && !inUse && docVersion == 0 && snap == None && prevSnap == None
    {
      ClearParseState();
      inUse, docVersion := false, 0;
    }
  }
}
