/**
 * The document catalogue: the single table `documents` and the SQL
 * statements the program runs against it.  The table is held in memory as
 * the sequence of its rows in rowid order; `lastId` is SQLite's
 * AUTOINCREMENT counter (the largest id ever issued) and `clock` is the
 * value CURRENT_TIMESTAMP reads, in whole seconds.
 */
module Catalogue {
  import opened Optional
  import opened SqlLike

  /** One row of `documents`.  `tags` is NULL until it is first set. */
  datatype Document = Document(
    id: nat,
    fileName: string,
    filePath: string,
    fileType: string,
    description: string,
    tags: Option<string>,
    addedOn: int)

  /** One row of the listing query: the selected columns, in their order. */
  datatype ListingRow = ListingRow(
    id: nat,
    fileName: string,
    fileType: string,
    description: string,
    tags: Option<string>,
    filePath: string)

  datatype InsertResult = Inserted(id: nat) | UniqueViolation

  /** What the schema and AUTOINCREMENT guarantee of the table at all times. */
  ghost predicate TableInvariant(docs: seq<Document>, lastId: nat, clock: int) {
    (forall i :: 0 <= i < |docs| ==> 1 <= docs[i].id <= lastId && docs[i].addedOn <= clock) &&
    (forall i, j :: 0 <= i < j < |docs| ==>
      docs[i].id < docs[j].id && docs[i].filePath != docs[j].filePath &&
      docs[i].addedOn <= docs[j].addedOn)
  }

  predicate PathTaken(docs: seq<Document>, path: string) {
    exists i :: 0 <= i < |docs| && docs[i].filePath == path
  }

  predicate HasId(docs: seq<Document>, id: int) {
    exists i :: 0 <= i < |docs| && docs[i].id == id
  }

  /** The rows that `DELETE ... WHERE id=?` leaves, in their order. */
  function RemoveId(docs: seq<Document>, id: int): (r: seq<Document>)
    ensures forall d :: d in r <==> d in docs && d.id != id
    ensures !HasId(docs, id) ==> r == docs
    ensures |r| <= |docs|
  {
    if docs == [] then []
    else
      assert !HasId(docs, id) ==> !HasId(docs[1..], id) by {
        if HasId(docs[1..], id) {
          var i :| 0 <= i < |docs[1..]| && docs[1..][i].id == id;
          assert docs[i + 1].id == id;
        }
      }
      if docs[0].id == id then RemoveId(docs[1..], id) else [docs[0]] + RemoveId(docs[1..], id)
  }

  /** With ids unique and the id present, the delete removes exactly one row. */
  lemma {:induction false} RemoveIdRemovesOne(docs: seq<Document>, id: int)
    requires forall i, j :: 0 <= i < j < |docs| ==> docs[i].id != docs[j].id
    requires HasId(docs, id)
    ensures |RemoveId(docs, id)| == |docs| - 1
  {
    if docs[0].id == id {
      assert !HasId(docs[1..], id);
    } else {
      var i :| 0 <= i < |docs| && docs[i].id == id;
      assert docs[1..][i - 1].id == id;
      RemoveIdRemovesOne(docs[1..], id);
    }
  }

  /** Removing rows keeps the table invariant. */
  lemma {:induction false} RemoveIdKeepsInvariant(docs: seq<Document>, id: int, lastId: nat, clock: int)
    requires TableInvariant(docs, lastId, clock)
    ensures TableInvariant(RemoveId(docs, id), lastId, clock)
  {
    if docs != [] {
      RemoveIdKeepsInvariant(docs[1..], id, lastId, clock);
      if docs[0].id != id {
        FirstRowBeforeRest(docs, RemoveId(docs[1..], id), lastId, clock);
      }
    }
  }

  /** The first row can be put in front of any rows taken from the rest of the table. */
  lemma FirstRowBeforeRest(docs: seq<Document>, rest: seq<Document>, lastId: nat, clock: int)
    requires docs != [] && TableInvariant(docs, lastId, clock) && TableInvariant(rest, lastId, clock)
    requires forall d :: d in rest ==> d in docs[1..]
    ensures TableInvariant([docs[0]] + rest, lastId, clock)
  {
    var r := [docs[0]] + rest;
    forall j | 1 <= j < |r|
      ensures docs[0].id < r[j].id && docs[0].filePath != r[j].filePath && docs[0].addedOn <= r[j].addedOn
    {
      assert r[j] in docs[1..];
    }
  }

  class DocumentStore {
    var hasTable: bool
    var docs: seq<Document>
    var lastId: nat
    var clock: int

    ghost predicate Valid()
      reads this
    {
      TableInvariant(docs, lastId, clock) &&
      (!hasTable ==> docs == [] && lastId == 0)
    }

    /** A database file that does not yet hold the table. */
    constructor Open(now: int)
      ensures Valid() && !hasTable && docs == [] && lastId == 0 && clock == now
    {
      hasTable, docs, lastId, clock := false, [], 0, now;
    }

    /** A database file that already holds the table from an earlier session. */
    constructor OpenExisting(rows: seq<Document>, counter: nat, now: int)
      requires TableInvariant(rows, counter, now)
      ensures Valid() && hasTable && docs == rows && lastId == counter && clock == now
    {
      hasTable, docs, lastId, clock := true, rows, counter, now;
    }

    /** Time passes: CURRENT_TIMESTAMP reads a later value. */
    method Tick(seconds: nat)
      requires Valid()
      modifies this
      ensures Valid()
      ensures clock == old(clock) + seconds
      ensures hasTable == old(hasTable) && docs == old(docs) && lastId == old(lastId)
    {
      clock := clock + seconds;
    }

    /** init_db: CREATE TABLE IF NOT EXISTS leaves an existing table and its rows alone. */
    method InitDb()
      requires Valid()
      modifies this
      ensures Valid() && hasTable && clock == old(clock)
      ensures old(hasTable) ==> docs == old(docs) && lastId == old(lastId)
      ensures !old(hasTable) ==> docs == [] && lastId == 0
    {
      if !hasTable {
        hasTable, docs, lastId := true, [], 0;
      }
    }

    /**
     * insert_document: a path already in the table violates UNIQUE and the
     * table is left as it was; otherwise exactly one row is added, with the
     * next AUTOINCREMENT id, NULL tags and the current time.
     */
    method InsertDocument(name: string, path: string, fileType: string, description: string)
      returns (result: InsertResult)
      requires Valid() && hasTable
      modifies this
      ensures Valid() && hasTable && clock == old(clock)
      ensures PathTaken(old(docs), path) ==>
        result == UniqueViolation && docs == old(docs) && lastId == old(lastId)
      ensures !PathTaken(old(docs), path) ==>
        result == Inserted(old(lastId) + 1) && lastId == old(lastId) + 1 &&
        docs == old(docs) + [Document(old(lastId) + 1, name, path, fileType, description, None, old(clock))]
      ensures result.Inserted? ==> forall d :: d in old(docs) ==> d.id < result.id && d.addedOn <= clock
    {
      if PathTaken(docs, path) {
        return UniqueViolation;
      }
      var id := lastId + 1;
      docs := docs + [Document(id, name, path, fileType, description, None, clock)];
      lastId := id;
      return Inserted(id);
    }

    /** delete_document: removes the row with that id, if there is one; every other row stays. */
    method DeleteDocument(id: int)
      requires Valid() && hasTable
      modifies this
      ensures Valid() && hasTable && clock == old(clock) && lastId == old(lastId)
      ensures docs == RemoveId(old(docs), id)
      ensures HasId(old(docs), id) ==> |docs| == |old(docs)| - 1
    {
      RemoveIdKeepsInvariant(docs, id, lastId, clock);
      if HasId(docs, id) {
        RemoveIdRemovesOne(docs, id);
      }
      docs := RemoveId(docs, id);
    }

    /** update_description: only the description of the row with that id changes. */
    method UpdateDescription(id: int, description: string)
      requires Valid() && hasTable
      modifies this
      ensures Valid() && hasTable && clock == old(clock) && lastId == old(lastId)
      ensures |docs| == |old(docs)|
      ensures forall i :: 0 <= i < |docs| ==>
        docs[i] == if old(docs)[i].id == id then old(docs)[i].(description := description) else old(docs)[i]
    {
      var rows := docs;
      docs := seq(|rows|, i requires 0 <= i < |rows| =>
        if rows[i].id == id then rows[i].(description := description) else rows[i]);
    }

    /** update_doc_details: only the description and tags of the row with that id change. */
    method UpdateDocDetails(id: int, description: string, tags: string)
      requires Valid() && hasTable
      modifies this
      ensures Valid() && hasTable && clock == old(clock) && lastId == old(lastId)
      ensures |docs| == |old(docs)|
      ensures forall i :: 0 <= i < |docs| ==>
        docs[i] == if old(docs)[i].id == id then old(docs)[i].(description := description, tags := Some(tags))
                   else old(docs)[i]
    {
      var rows := docs;
      docs := seq(|rows|, i requires 0 <= i < |rows| =>
        if rows[i].id == id then rows[i].(description := description, tags := Some(tags)) else rows[i]);
    }
  }

  // ---------------------------------------------------------------------
  // fetch_documents

  /** The WHERE clause: three LIKE tests ORed together, then the optional type match. */
  predicate Matches(d: Document, search: string, fileType: string, tag: string) {
    (Like("%" + search + "%", d.fileName) ||
     Like("%" + search + "%", d.description) ||
     LikeNullable("%" + tag + "%", d.tags)) &&
    (fileType == "ALL" || d.fileType == fileType)
  }

  function Where(docs: seq<Document>, search: string, fileType: string, tag: string): (r: seq<Document>)
    ensures forall d :: d in r <==> d in docs && Matches(d, search, fileType, tag)
    ensures multiset(r) <= multiset(docs)
    ensures forall d :: multiset(r)[d] == if Matches(d, search, fileType, tag) then multiset(docs)[d] else 0
  {
    if docs == [] then []
    else
      var rest := Where(docs[1..], search, fileType, tag);
      assert docs == [docs[0]] + docs[1..];
      if Matches(docs[0], search, fileType, tag) then [docs[0]] + rest else rest
  }

  /** ORDER BY added_on DESC. */
  ghost predicate NewestFirst(s: seq<Document>) {
    forall i, j :: 0 <= i < j < |s| ==> s[i].addedOn >= s[j].addedOn
  }

  /** Puts d into a newest-first sequence just before the first row that is not newer. */
  function InsertNewestFirst(d: Document, s: seq<Document>): (r: seq<Document>)
    ensures multiset(r) == multiset(s) + multiset{d}
  {
    if s == [] || s[0].addedOn <= d.addedOn then [d] + s
    else
      assert s == [s[0]] + s[1..];
      [s[0]] + InsertNewestFirst(d, s[1..])
  }

  lemma {:induction false} InsertKeepsNewestFirst(d: Document, s: seq<Document>)
    requires NewestFirst(s)
    ensures NewestFirst(InsertNewestFirst(d, s))
  {
    if s != [] && s[0].addedOn > d.addedOn {
      var rest := InsertNewestFirst(d, s[1..]);
      InsertKeepsNewestFirst(d, s[1..]);
      forall j | 0 <= j < |rest| ensures rest[j].addedOn <= s[0].addedOn {
        assert rest[j] in multiset(s[1..]) + multiset{d};
        if rest[j] != d {
          var k :| 0 <= k < |s[1..]| && s[1..][k] == rest[j];
          assert s[k + 1] == rest[j];
        }
      }
    }
  }

  /** A stable sort by added_on, newest first. */
  function SortNewestFirst(s: seq<Document>): (r: seq<Document>)
    ensures NewestFirst(r)
    ensures multiset(r) == multiset(s)
  {
    if s == [] then []
    else
      assert s == [s[0]] + s[1..];
      InsertKeepsNewestFirst(s[0], SortNewestFirst(s[1..]));
      InsertNewestFirst(s[0], SortNewestFirst(s[1..]))
  }

  /**
   * The rows fetch_documents returns, before the columns are selected.  SQL
   * leaves the order of rows with equal added_on open; the model takes them in
   * rowid order, and nothing below depends on that choice.
   */
  function Listing(docs: seq<Document>, search: string, fileType: string, tag: string): seq<Document> {
    SortNewestFirst(Where(docs, search, fileType, tag))
  }

  function ToRow(d: Document): ListingRow {
    ListingRow(d.id, d.fileName, d.fileType, d.description, d.tags, d.filePath)
  }

  /** fetch_documents(search, ftype, tag). */
  function FetchDocuments(docs: seq<Document>, search: string, fileType: string, tag: string): seq<ListingRow> {
    var rows := Listing(docs, search, fileType, tag);
    seq(|rows|, i requires 0 <= i < |rows| => ToRow(rows[i]))
  }

  /**
   * The listing holds each row that satisfies the WHERE clause as often as
   * the table does (a permutation of the matching rows), nothing else, newest first.
   */
  lemma ListingSpec(docs: seq<Document>, search: string, fileType: string, tag: string)
    ensures var r := Listing(docs, search, fileType, tag);
      NewestFirst(r) &&
      multiset(r) == multiset(Where(docs, search, fileType, tag)) &&
      (forall d :: multiset(r)[d] == if Matches(d, search, fileType, tag) then multiset(docs)[d] else 0) &&
      (forall d :: d in r <==> d in docs && Matches(d, search, fileType, tag))
  {
    var w := Where(docs, search, fileType, tag);
    var r := SortNewestFirst(w);
    forall d ensures d in r <==> d in w {
      assert d in r <==> d in multiset(r);
    }
  }

  /** The i-th tuple fetch_documents returns is the columns of a stored row that matches. */
  lemma FetchedRowIsStored(docs: seq<Document>, search: string, fileType: string, tag: string, i: int)
    requires 0 <= i < |FetchDocuments(docs, search, fileType, tag)|
    ensures exists d :: d in docs && Matches(d, search, fileType, tag) && FetchDocuments(docs, search, fileType, tag)[i] == ToRow(d)
  {
    ListingSpec(docs, search, fileType, tag);
    var ds := Listing(docs, search, fileType, tag);
    assert ds[i] in ds;
  }

  /** Every stored row that matches has its columns among the tuples returned. */
  lemma StoredRowIsFetched(docs: seq<Document>, search: string, fileType: string, tag: string, d: Document)
    requires d in docs && Matches(d, search, fileType, tag)
    ensures ToRow(d) in FetchDocuments(docs, search, fileType, tag)
  {
    ListingSpec(docs, search, fileType, tag);
    var ds := Listing(docs, search, fileType, tag);
    var i :| 0 <= i < |ds| && ds[i] == d;
    assert FetchDocuments(docs, search, fileType, tag)[i] == ToRow(d);
  }

  /**
   * fetch_documents returns one tuple per matching row, and a tuple is
   * returned exactly when it is the columns of a stored row that satisfies
   * the WHERE clause.
   */
  lemma FetchDocumentsRows(docs: seq<Document>, search: string, fileType: string, tag: string)
    ensures |FetchDocuments(docs, search, fileType, tag)| == |Where(docs, search, fileType, tag)|
    ensures forall t :: t in FetchDocuments(docs, search, fileType, tag) <==>
      exists d :: d in docs && Matches(d, search, fileType, tag) && t == ToRow(d)
  {
    var ds := Listing(docs, search, fileType, tag);
    var rows := FetchDocuments(docs, search, fileType, tag);
    assert multiset(ds) == multiset(Where(docs, search, fileType, tag));
    assert |rows| == |ds| == |multiset(ds)|;
    forall t | t in rows
      ensures exists d :: d in docs && Matches(d, search, fileType, tag) && t == ToRow(d)
    {
      var i :| 0 <= i < |rows| && rows[i] == t;
      FetchedRowIsStored(docs, search, fileType, tag, i);
    }
    forall t | exists d :: d in docs && Matches(d, search, fileType, tag) && t == ToRow(d)
      ensures t in rows
    {
      var d :| d in docs && Matches(d, search, fileType, tag) && t == ToRow(d);
      StoredRowIsFetched(docs, search, fileType, tag, d);
    }
  }

  /** The defaults of fetch_documents: search "", ftype "ALL", tag "". */
  const DefaultSearch: string := ""
  const DefaultFileType: string := "ALL"
  const DefaultTag: string := ""

  /** Called with its defaults, fetch_documents returns the columns of every stored row. */
  lemma DefaultFetchListsEverything(docs: seq<Document>)
    ensures |FetchDocuments(docs, DefaultSearch, DefaultFileType, DefaultTag)| == |docs|
    ensures forall t :: t in FetchDocuments(docs, DefaultSearch, DefaultFileType, DefaultTag) <==>
      exists d :: d in docs && t == ToRow(d)
  {
    EmptySearchListsEverything(docs, DefaultTag);
    FetchDocumentsRows(docs, DefaultSearch, DefaultFileType, DefaultTag);
    forall d | d in docs ensures Matches(d, DefaultSearch, DefaultFileType, DefaultTag) {
      assert "%" + "" + "%" == "%%";
      EmptySearchMatchesAll(d.fileName);
    }
  }

  /** For a row-level filter that keeps everything, Where returns the table unchanged. */
  lemma {:induction false} WhereKeepsAll(docs: seq<Document>, search: string, fileType: string, tag: string)
    requires forall i :: 0 <= i < |docs| ==> Matches(docs[i], search, fileType, tag)
    ensures Where(docs, search, fileType, tag) == docs
  {
    if docs != [] {
      WhereKeepsAll(docs[1..], search, fileType, tag);
      assert Matches(docs[0], search, fileType, tag);
      assert Where(docs, search, fileType, tag) == [docs[0]] + Where(docs[1..], search, fileType, tag);
      assert [docs[0]] + docs[1..] == docs;
    }
  }

  /**
   * An empty search with type "ALL" lists every row of the table, whatever
   * the tag text: file_name is NOT NULL and matches `%%`.
   */
  lemma EmptySearchListsEverything(docs: seq<Document>, tag: string)
    ensures multiset(Listing(docs, "", "ALL", tag)) == multiset(docs)
    ensures |Listing(docs, "", "ALL", tag)| == |docs|
  {
    forall i | 0 <= i < |docs| ensures Matches(docs[i], "", "ALL", tag) {
      assert "%" + "" + "%" == "%%";
      EmptySearchMatchesAll(docs[i].fileName);
    }
    WhereKeepsAll(docs, "", "ALL", tag);
    var r := Listing(docs, "", "ALL", tag);
    assert |r| == |multiset(r)|;
  }

  /**
   * For search and tag texts without wildcards the WHERE clause is a
   * case-insensitive substring test on name, description or (non-NULL) tags,
   * with the exact type test on top.
   */
  lemma PlainSearchMatches(d: Document, search: string, fileType: string, tag: string)
    requires NoWildcards(search) && NoWildcards(tag)
    ensures Matches(d, search, fileType, tag) <==>
      (ContainsIgnoringCase(d.fileName, search) ||
       ContainsIgnoringCase(d.description, search) ||
       (d.tags.Some? && ContainsIgnoringCase(d.tags.value, tag))) &&
      (fileType == "ALL" || d.fileType == fileType)
  {
    PlainSearchIsSubstring(search, d.fileName);
    PlainSearchIsSubstring(search, d.description);
    if d.tags.Some? {
      PlainSearchIsSubstring(tag, d.tags.value);
    }
  }

  /**
   * The tag test is ORed in: it can add rows to the listing but never remove
   * one whose name or description matches the search.
   */
  lemma TagNeverRestricts(docs: seq<Document>, search: string, fileType: string, tag: string, d: Document)
    requires d in docs
    requires Like("%" + search + "%", d.fileName) || Like("%" + search + "%", d.description)
    requires fileType == "ALL" || d.fileType == fileType
    ensures d in Listing(docs, search, fileType, tag)
  {
    ListingSpec(docs, search, fileType, tag);
  }
}
