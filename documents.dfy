/**
 * The travel-document checklist: one fixed array of documents that the
 * getters read and `updateDocumentStatus` changes in place.
 */
module Documents {
  import opened Options
  import opened Subsequences
  import opened Lookup

  datatype Category = Travel | Identity | Health | Financial | Religious

  /** The category as the source spells it. */
  function CategoryName(c: Category): string {
    match c
    case Travel => "travel"
    case Identity => "identity"
    case Health => "health"
    case Financial => "financial"
    case Religious => "religious"
  }

  datatype DocumentItem = DocumentItem(
    id: string,
    name: string,
    description: string,
    required: bool,
    completed: bool,
    category: Category)

  // ---------------------------------------------------------------------
  // getDocumentsByCategory, getRequiredDocuments, getCompletedDocuments
  // ---------------------------------------------------------------------

  /** The three selections the getters make. */
  datatype Selection = InCategory(category: string) | Required | Completed

  predicate Selects(s: Selection, d: DocumentItem) {
    match s
    case InCategory(c) => CategoryName(d.category) == c
    case Required => d.required
    case Completed => d.completed
  }

  /** `documents.filter(...)` with the selection's test. */
  function Select(docs: seq<DocumentItem>, s: Selection): seq<DocumentItem> {
    if docs == [] then []
    else
      var rest := Select(docs[..|docs| - 1], s);
      var d := docs[|docs| - 1];
      if Selects(s, d) then rest + [d] else rest
  }

  function DocumentsByCategory(docs: seq<DocumentItem>, category: string): seq<DocumentItem> {
    Select(docs, InCategory(category))
  }

  function RequiredDocuments(docs: seq<DocumentItem>): seq<DocumentItem> {
    Select(docs, Required)
  }

  function CompletedDocuments(docs: seq<DocumentItem>): seq<DocumentItem> {
    Select(docs, Completed)
  }

  /** A document is selected exactly when it is on the list and passes the test. */
  lemma {:induction false} SelectMembers(docs: seq<DocumentItem>, s: Selection, d: DocumentItem)
    ensures d in Select(docs, s) <==> d in docs && Selects(s, d)
  {
    if docs != [] {
      var front := docs[..|docs| - 1];
      SelectMembers(front, s, d);
      assert docs == front + [docs[|docs| - 1]];
    }
  }

  /** The selection keeps the list's order. */
  lemma {:induction false} SelectIsSubsequence(docs: seq<DocumentItem>, s: Selection)
    ensures IsSubsequence(Select(docs, s), docs)
  {
    if docs != [] {
      var front := docs[..|docs| - 1];
      SelectIsSubsequence(front, s);
      var r := Select(docs, s);
      if Selects(s, docs[|docs| - 1]) {
        assert r[..|r| - 1] == Select(front, s);
      }
    }
  }

  /** Each selected document occurs as often as on the list; no other document occurs. */
  lemma {:induction false} SelectCounts(docs: seq<DocumentItem>, s: Selection, d: DocumentItem)
    ensures multiset(Select(docs, s))[d] == if Selects(s, d) then multiset(docs)[d] else 0
  {
    if docs != [] {
      var front := docs[..|docs| - 1];
      SelectCounts(front, s, d);
      assert docs == front + [docs[|docs| - 1]];
    }
  }

  /**
   * Selecting by category, required or completed: exactly those documents,
   * each as often as it is listed, in list order.
   */
  lemma GettersSelectExactly(docs: seq<DocumentItem>, category: string, d: DocumentItem)
    ensures d in DocumentsByCategory(docs, category) <==> d in docs && CategoryName(d.category) == category
    ensures d in RequiredDocuments(docs) <==> d in docs && d.required
    ensures d in CompletedDocuments(docs) <==> d in docs && d.completed
    ensures IsSubsequence(DocumentsByCategory(docs, category), docs)
    ensures IsSubsequence(RequiredDocuments(docs), docs)
    ensures IsSubsequence(CompletedDocuments(docs), docs)
    ensures multiset(DocumentsByCategory(docs, category))[d]
              == if CategoryName(d.category) == category then multiset(docs)[d] else 0
    ensures multiset(RequiredDocuments(docs))[d] == if d.required then multiset(docs)[d] else 0
    ensures multiset(CompletedDocuments(docs))[d] == if d.completed then multiset(docs)[d] else 0
  {
    SelectCounts(docs, InCategory(category), d);
    SelectCounts(docs, Required, d);
    SelectCounts(docs, Completed, d);
    SelectMembers(docs, InCategory(category), d);
    SelectMembers(docs, Required, d);
    SelectMembers(docs, Completed, d);
    SelectIsSubsequence(docs, InCategory(category));
    SelectIsSubsequence(docs, Required);
    SelectIsSubsequence(docs, Completed);
  }

  // ---------------------------------------------------------------------
  // getDocumentById
  // ---------------------------------------------------------------------

  /** The id `find(doc => doc.id === id)` compares. */
  function DocumentId(d: DocumentItem): string { d.id }

  /** `getDocumentById(id)`: the first document with that id, or None for `undefined`. */
  function DocumentById(docs: seq<DocumentItem>, id: string): (r: Option<DocumentItem>)
    ensures r.None? <==> forall d :: d in docs ==> d.id != id
    ensures r.Some? ==> exists i :: 0 <= i < |docs| && docs[i] == r.value && r.value.id == id
                                   && forall j :: 0 <= j < i ==> docs[j].id != id
  {
    match FirstIndexOf(docs, DocumentId, id)
    case None => None
    case Some(i) => Some(docs[i])
  }

  // ---------------------------------------------------------------------
  // updateDocumentStatus
  // ---------------------------------------------------------------------

  /** The list after `updateDocumentStatus(id, completed)`. */
  function StatusUpdated(docs: seq<DocumentItem>, id: string, completed: bool): seq<DocumentItem> {
    match FirstIndexOf(docs, DocumentId, id)
    case None => docs
    case Some(i) => docs[i := docs[i].(completed := completed)]
  }

  /**
   * Only `completed` of the first document with that id changes; every other
   * document and field is kept, and an unknown id changes nothing.
   */
  lemma StatusUpdatedChangesOneField(docs: seq<DocumentItem>, id: string, completed: bool)
    ensures var r := StatusUpdated(docs, id, completed);
            && |r| == |docs|
            && ((forall d :: d in docs ==> d.id != id) ==> r == docs)
            && forall i :: 0 <= i < |docs| ==>
                 if docs[i].id == id && forall j :: 0 <= j < i ==> docs[j].id != id
                 then r[i] == docs[i].(completed := completed)
                 else r[i] == docs[i]
  {
  }

  /**
   * Marking a listed document completed makes `getCompletedDocuments` return
   * it; marking it not completed drops it from there when it is the document's
   * only entry.
   */
  lemma StatusShowsInCompleted(docs: seq<DocumentItem>, id: string, i: nat)
    requires i < |docs| && docs[i].id == id
    requires forall j :: 0 <= j < |docs| && j != i ==> docs[j].id != id
    ensures docs[i].(completed := true) in CompletedDocuments(StatusUpdated(docs, id, true))
    ensures forall d :: d in CompletedDocuments(StatusUpdated(docs, id, false)) ==> d.id != id
  {
    var on := StatusUpdated(docs, id, true);
    var off := StatusUpdated(docs, id, false);
    assert FirstIndexOf(docs, DocumentId, id) == Some(i);
    assert on[i] == docs[i].(completed := true);
    SelectMembers(on, Completed, on[i]);
    forall d | d in CompletedDocuments(off)
      ensures d.id != id
    {
      SelectMembers(off, Completed, d);
    }
  }

  /** The checklist held by the module, as one fixed-length array. */
  class DocumentChecklist {
    const documents: array<DocumentItem>

    constructor (initial: seq<DocumentItem>)
      ensures fresh(documents) && documents[..] == initial
    {
      documents := new DocumentItem[|initial|](i requires 0 <= i < |initial| => initial[i]);
    }

    /** `updateDocumentStatus(id, completed)`: find the first document with that id and set its flag. */
    method UpdateDocumentStatus(id: string, completed: bool)
      modifies documents
      ensures documents[..] == StatusUpdated(old(documents[..]), id, completed)
    {
      var i := 0;
      while i < documents.Length && documents[i].id != id
        invariant 0 <= i <= documents.Length
        invariant forall j :: 0 <= j < i ==> documents[j].id != id
      {
        i := i + 1;
      }
      ghost var before := documents[..];
      if i < documents.Length {
        assert FirstIndexOf(before, DocumentId, id) == Some(i);
        documents[i] := documents[i].(completed := completed);
      } else {
        assert FirstIndexOf(before, DocumentId, id).None?;
      }
    }
  }
}
