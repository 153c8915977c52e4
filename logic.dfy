/**
 * The import workflow of logic.py.  The path the file dialog returns is a
 * parameter (the empty string when the dialog is cancelled), and the error
 * boxes the workflow shows become the outcome it returns.
 */
module Logic {
  import opened Text
  import opened Optional
  import NtPath
  import opened Catalogue
  import SqlLike

  /** SUPPORTED_TYPES. */
  const SupportedTypes: seq<string> := [".pdf", ".docx", ".xlsx"]

  /** What choose_and_add decides about the picked path before it touches the table. */
  datatype Decision = NoFile | Unsupported | Accept(fileName: string, fileType: string)

  /**
   * How choose_and_add ends: Added returns True; the others return False,
   * after the "Unsupported file type" box, the "File already exists" box, or
   * silently when no file was picked.
   */
  datatype AddOutcome = Added(id: nat) | NoFileChosen | UnsupportedFileType | FileAlreadyExists

  function Validate(path: string): Decision {
    if path == [] then NoFile
    else
      var ext := Lower(NtPath.Ext(path));
      if ext !in SupportedTypes then Unsupported
      else Accept(NtPath.Basename(path), ext)
  }

  /**
   * An accepted path is stored under its base name with a supported type,
   * and that type is how the lower-cased path ends.
   */
  lemma AcceptedRecordShape(path: string)
    requires Validate(path).Accept?
    ensures path != []
    ensures Validate(path).fileType in SupportedTypes
    ensures Validate(path).fileName == NtPath.Basename(path)
    ensures EndsWith(Lower(path), Validate(path).fileType)
  {
    NtPath.SplitExtParts(path);
    var (root, ext) := NtPath.SplitExt(path);
    LowerAppend(root, ext);
    assert Lower(path) == Lower(root) + Lower(ext);
  }

  /**
   * The extension test ignores case: two paths that differ only in the case
   * of their letters are both accepted or both refused, with the same stored type.
   */
  lemma ValidateIgnoresCase(p: string, q: string)
    requires Lower(p) == Lower(q)
    ensures Validate(p).Accept? <==> Validate(q).Accept?
    ensures Validate(p).Accept? ==> Validate(p).fileType == Validate(q).fileType
    ensures Validate(p) == NoFile <==> Validate(q) == NoFile
  {
    NtPath.ExtOfLower(p);
    NtPath.ExtOfLower(q);
  }

  /** For instance, an upper-case ".PDF" is accepted and stored as ".pdf". */
  lemma UpperCasePdfAccepted()
    ensures Validate("C:/Reports/report.PDF") == Accept("report.PDF", ".pdf")
  {
    var p := "C:/Reports/report.PDF";
    assert |p| == 21 && p[10] == '/' && p[17] == '.' && p[11] != '.';
    assert forall k :: 10 < k < |p| ==> !NtPath.IsSep(p[k]);
    assert forall k :: 17 < k < |p| ==> p[k] != '.';
    assert NtPath.LastSep(p) == 10;
    assert LastIndex(p, '.') == 17;
    assert NtPath.HasNonDot(p, 11, 17);
    assert p[17..] == ".PDF" && Lower(".PDF") == ".pdf";
    assert p == "C:/Reports/" + "report.PDF";
    assert p[11..] == "report.PDF";
  }

  /**
   * choose_and_add(description) with the dialog's answer `picked`.  The
   * store gains a row exactly when the outcome is Added.
   */
  method ChooseAndAdd(store: DocumentStore, picked: string, description: string)
    returns (ok: bool, outcome: AddOutcome)
    requires store.Valid() && store.hasTable
    modifies store
    ensures store.Valid() && store.hasTable && store.clock == old(store.clock)
    ensures ok <==> outcome.Added?
    ensures ok <==> |store.docs| == |old(store.docs)| + 1
    ensures Validate(picked) == NoFile ==> outcome == NoFileChosen
    ensures Validate(picked) == Unsupported ==> outcome == UnsupportedFileType
    ensures Validate(picked).Accept? && PathTaken(old(store.docs), picked) ==> outcome == FileAlreadyExists
    ensures Validate(picked).Accept? && !PathTaken(old(store.docs), picked) ==> ok
    ensures !ok ==> store.docs == old(store.docs) && store.lastId == old(store.lastId)
    ensures ok ==>
      outcome.id == old(store.lastId) + 1 && store.lastId == outcome.id &&
      store.docs == old(store.docs) + [Document(outcome.id, NtPath.Basename(picked), picked,
                                                Lower(NtPath.Ext(picked)), description, None, old(store.clock))]
  {
    if picked == [] {
      return false, NoFileChosen;
    }
    var ext := Lower(NtPath.Ext(picked));
    if ext !in SupportedTypes {
      return false, UnsupportedFileType;
    }
    var result := store.InsertDocument(NtPath.Basename(picked), picked, ext, description);
    match result {
      case Inserted(id) => return true, Added(id);
      case UniqueViolation => return false, FileAlreadyExists;
    }
  }

  /** remove_file(doc_id): exactly the delete of that id. */
  method RemoveFile(store: DocumentStore, id: int)
    requires store.Valid() && store.hasTable
    modifies store
    ensures store.Valid() && store.hasTable && store.clock == old(store.clock) && store.lastId == old(store.lastId)
    ensures store.docs == RemoveId(old(store.docs), id)
    ensures HasId(old(store.docs), id) ==> |store.docs| == |old(store.docs)| - 1
  {
    store.DeleteDocument(id);
  }

  /** The path the client below picks is accepted as an .xlsx file. */
  lemma BudgetPathAccepted()
    ensures Validate("C:/Finance/budget.xlsx") == Accept("budget.xlsx", ".xlsx")
  {
    var p := "C:/Finance/budget.xlsx";
    assert |p| == 22 && p[10] == '/' && p[17] == '.' && p[11] != '.';
    assert forall k :: 10 < k < |p| ==> !NtPath.IsSep(p[k]);
    assert forall k :: 17 < k < |p| ==> p[k] != '.';
    assert NtPath.LastSep(p) == 10;
    assert LastIndex(p, '.') == 17;
    assert NtPath.HasNonDot(p, 11, 17);
    assert p[17..] == ".xlsx" && Lower(".xlsx") == ".xlsx";
    assert p == "C:/Finance/" + "budget.xlsx";
    assert p[11..] == "budget.xlsx";
  }

  /** A row described as "Q1 budget" is listed by the search "Q1". */
  lemma BudgetRowFound(d: Document)
    requires d.description == "Q1 budget"
    ensures d in Listing([d], "Q1", "ALL", "Q1")
  {
    assert SqlLike.ContainsIgnoringCase(d.description, "Q1") by {
      assert OccursAt(Lower(d.description), Lower("Q1"), 0);
    }
    PlainSearchMatches(d, "Q1", "ALL", "Q1");
    ListingSpec([d], "Q1", "ALL", "Q1");
  }

  /**
   * A client of the contracts above: a new .xlsx file added with the
   * description "Q1 budget" is listed by the search "Q1", and after it is
   * removed the same search lists nothing.
   */
  method AddSearchRemove()
  {
    var store := new DocumentStore.Open(0);
    store.InitDb();
    BudgetPathAccepted();
    var ok, outcome := ChooseAndAdd(store, "C:/Finance/budget.xlsx", "Q1 budget");
    assert ok;
    BudgetRowFound(store.docs[0]);
    RemoveFile(store, outcome.id);
    assert store.docs == [];
    ListingSpec(store.docs, "Q1", "ALL", "Q1");
    assert Listing(store.docs, "Q1", "ALL", "Q1") == [];
  }
}
