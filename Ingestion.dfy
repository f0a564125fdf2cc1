/**
 * Building the documents of the search index from the crawled catalog
 * (`ingest_data`): one document per item, its embedded text composed from the
 * item's name, description and test types, the item itself kept as metadata.
 */
module Ingestion {
  import opened Wrappers
  import opened Text
  import opened Catalog

  /** A document handed to the vector store: the text to embed and the item it stands for. */
  datatype Document = Document(pageContent: string, metadata: Item)

  /** Why ingestion stops: the catalog file is absent, or an item lacks a key the text needs. */
  datatype IngestError = DataFileMissing | MissingKey(key: string)

  /** The text embedded for an item: `Name: {name}. Description: {description}. Type: {", ".join(test_type)}`. */
  function PageContent(name: string, description: string, testTypes: seq<string>): (text: string)
    ensures Contains(text, name) && Contains(text, description)
  {
    var head := "Name: " + name + ". Description: ";
    var text := head + description + ". Type: " + Join(testTypes, ", ");
    assert OccursAt(text, name, |"Name: "|);
    assert OccursAt(text, description, |head|);
    ContainsAt(text, name, |"Name: "|);
    ContainsAt(text, description, |head|);
    "Name: " + name + ". Description: " + description + ". Type: " + Join(testTypes, ", ")
  }

  /** The text mentions the name, the description and every test type, and it opens with the name. */
  lemma PageContentMentions(name: string, description: string, testTypes: seq<string>)
    ensures StartsWith(PageContent(name, description, testTypes), "Name: " + name + ". ")
    ensures Contains(PageContent(name, description, testTypes), description)
    ensures forall i :: 0 <= i < |testTypes| ==> Contains(PageContent(name, description, testTypes), testTypes[i])
  {
    var text := PageContent(name, description, testTypes);
    var head := "Name: " + name + ". Description: ";
    var types := Join(testTypes, ", ");
    assert text == (head + description + ". Type: ") + types;
    assert text[..|"Name: " + name + ". "|] == "Name: " + name + ". ";
    forall i | 0 <= i < |testTypes|
      ensures Contains(text, testTypes[i])
    {
      JoinContains(testTypes, ", ", i);
      ContainsAppend(head + description + ". Type: ", types, testTypes[i]);
    }
  }

  /** With an empty test-type list the text ends in `Type: ` and nothing after it. */
  lemma EmptyTypesEndInType(name: string, description: string)
    ensures EndsWith(PageContent(name, description, []), "Type: ")
  {
    var text := PageContent(name, description, []);
    assert text == "Name: " + name + ". Description: " + description + ". " + "Type: ";
  }

  /** The key whose lookup fails first when the text is composed: name, then description, then test types. */
  function FirstMissingKey(item: Item): (key: Option<string>)
    ensures key.None? <==> item.name.Some? && item.description.Some? && item.testType.Some?
    ensures key == Some("name") <==> item.name.None?
  {
    if item.name.None? then Some("name")
    else if item.description.None? then Some("description")
    else if item.testType.None? then Some("test_type")
    else None
  }

  /** The document for an item that carries every key the text needs. */
  function ToDocument(item: Item): (doc: Document)
    requires FirstMissingKey(item).None?
    ensures doc.metadata == item
  {
    Document(PageContent(item.name.value, item.description.value, item.testType.value), item)
  }

  /** The documents for `data`, or the missing key of the first item that lacks one. */
  function BuildDocuments(data: seq<Item>): (r: Result<seq<Document>, IngestError>)
    ensures r.Success? ==> |r.value| == |data|
    ensures r.Success? <==> forall i :: 0 <= i < |data| ==> FirstMissingKey(data[i]).None?
  {
    if data == [] then Success([])
    else
      match BuildDocuments(data[..|data| - 1])
      case Failure(e) => Failure(e)
      case Success(docs) =>
        var item := data[|data| - 1];
        match FirstMissingKey(item)
        case Some(key) => Failure(MissingKey(key))
        case None => Success(docs + [ToDocument(item)])
  }

  /** `ingest_data` up to the embedding step: a missing catalog file fails before any item is read. */
  function Ingest(dataFileExists: bool, data: seq<Item>): (r: Result<seq<Document>, IngestError>)
    ensures !dataFileExists ==> r == Failure(DataFileMissing)
  {
    if !dataFileExists then Failure(DataFileMissing) else BuildDocuments(data)
  }

  /** On success, document `i` is the document of item `i`: its metadata is the item unchanged. */
  lemma {:induction false} BuildDocumentsInOrder(data: seq<Item>, i: int)
    requires BuildDocuments(data).Success? && 0 <= i < |data|
    ensures FirstMissingKey(data[i]).None?
    ensures BuildDocuments(data).value[i] == ToDocument(data[i])
    ensures BuildDocuments(data).value[i].metadata == data[i]
  {
    var init := data[..|data| - 1];
    if i < |data| - 1 {
      assert init[i] == data[i];
      BuildDocumentsInOrder(init, i);
    }
  }

  /** A failure names the first item that lacks a key, and the key it lacks. */
  lemma {:induction false} BuildDocumentsFailure(data: seq<Item>)
    requires BuildDocuments(data).Failure?
    ensures exists i ::
      && 0 <= i < |data|
      && FirstMissingKey(data[i]).Some?
      && BuildDocuments(data).error == MissingKey(FirstMissingKey(data[i]).value)
      && (forall j :: 0 <= j < i ==> FirstMissingKey(data[j]).None?)
  {
    var init := data[..|data| - 1];
    if BuildDocuments(init).Failure? {
      BuildDocumentsFailure(init);
      var i :| 0 <= i < |init| && FirstMissingKey(init[i]).Some?
        && BuildDocuments(init).error == MissingKey(FirstMissingKey(init[i]).value) && (forall j :: 0 <= j < i ==> FirstMissingKey(init[j]).None?);
      assert init[i] == data[i];
      assert forall j :: 0 <= j < i ==> init[j] == data[j];
    } else {
      var i := |data| - 1;
      assert forall j :: 0 <= j < i ==> init[j] == data[j];
      assert FirstMissingKey(data[i]).Some?;
    }
  }

  /** A failure on a prefix is the failure of the whole list: later items are never looked at. */
  lemma {:induction false} BuildDocumentsStopsAtFailure(data: seq<Item>, n: nat)
    requires n <= |data| && BuildDocuments(data[..n]).Failure?
    ensures BuildDocuments(data) == BuildDocuments(data[..n])
  {
    if n < |data| {
      var init := data[..|data| - 1];
      assert init[..n] == data[..n];
      BuildDocumentsStopsAtFailure(init, n);
    } else {
      assert data[..n] == data;
    }
  }

  /**
   * The loop of `ingest_data`: one document per item, appended in input order;
   * the first item without a name, description or test types stops it.
   */
  method IngestData(dataFileExists: bool, data: seq<Item>) returns (r: Result<seq<Document>, IngestError>)
    ensures r == Ingest(dataFileExists, data)
  {
    if !dataFileExists {
      return Failure(DataFileMissing);
    }
    var documents: seq<Document> := [];
    for i := 0 to |data|
      invariant BuildDocuments(data[..i]) == Success(documents)
    {
      var item := data[i];
      assert data[..i + 1][..i] == data[..i];
      match FirstMissingKey(item) {
        case Some(key) =>
          BuildDocumentsStopsAtFailure(data, i + 1);
          return Failure(MissingKey(key));
        case None =>
      }
      var pageContent := PageContent(item.name.value, item.description.value, item.testType.value);
      documents := documents + [Document(pageContent, item)];
    }
    assert data[..|data|] == data;
    return Success(documents);
  }
}
