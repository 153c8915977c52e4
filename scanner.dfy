/**
 * The filesystem scan.  Which drive roots exist and what os.walk yields
 * for each drive are inputs: `pathExists` answers os.path.exists, and
 * `walk(drive)` is the sequence of (root, file names) pairs os.walk
 * produces for that drive, in its order.
 */
module Scanner {
  import opened Text
  import NtPath

  /** The keys of SUPPORTED_EXTENSIONS. */
  predicate IsFileTypeKey(key: string) {
    key == "PDF" || key == "DOCX" || key == "XLSX" || key == "ALL"
  }

  /** SUPPORTED_EXTENSIONS[key]: the suffixes each file-type key accepts. */
  function SupportedExtensions(key: string): seq<string>
    requires IsFileTypeKey(key)
  {
    if key == "PDF" then [".pdf"]
    else if key == "DOCX" then [".docx"]
    else if key == "XLSX" then [".xlsx"]
    else [".pdf", ".docx", ".xlsx"]
  }

  /** "ALL" accepts exactly what the three single-type keys accept together. */
  lemma AllIsUnionOfTypes()
    ensures SupportedExtensions("ALL") ==
      SupportedExtensions("PDF") + SupportedExtensions("DOCX") + SupportedExtensions("XLSX")
  {
  }

  // ---------------------------------------------------------------------
  // get_available_drives

  /** string.ascii_uppercase. */
  const Letters: string := "ABCDEFGHIJKLMNOPQRSTUVWXYZ"

  function DrivePath(letter: char): string {
    [letter, ':', '\\']
  }

  /** The drive roots, among those of the given letters, that exist, in letter order. */
  function ExistingDrives(letters: string, pathExists: string -> bool): seq<string> {
    if letters == [] then []
    else
      var last := letters[|letters| - 1];
      ExistingDrives(letters[..|letters| - 1], pathExists) +
      (if pathExists(DrivePath(last)) then [DrivePath(last)] else [])
  }

  function AvailableDrives(pathExists: string -> bool): seq<string> {
    ExistingDrives(Letters, pathExists)
  }

  lemma {:induction false} ExistingDrivesSpec(letters: string, pathExists: string -> bool)
    requires forall i, j :: 0 <= i < j < |letters| ==> letters[i] < letters[j]
    ensures forall i :: 0 <= i < |ExistingDrives(letters, pathExists)| ==>
      var d := ExistingDrives(letters, pathExists)[i];
      |d| == 3 && d == DrivePath(d[0]) && d[0] in letters && pathExists(d)
    ensures forall i, j :: 0 <= i < j < |ExistingDrives(letters, pathExists)| ==>
      ExistingDrives(letters, pathExists)[i][0] < ExistingDrives(letters, pathExists)[j][0]
    ensures forall k :: 0 <= k < |letters| && pathExists(DrivePath(letters[k])) ==>
      DrivePath(letters[k]) in ExistingDrives(letters, pathExists)
  {
    if letters != [] {
      var init := letters[..|letters| - 1];
      ExistingDrivesSpec(init, pathExists);
      var r0 := ExistingDrives(init, pathExists);
      forall i | 0 <= i < |r0| ensures |r0[i]| == 3 && r0[i][0] < letters[|letters| - 1] {
        var k :| 0 <= k < |init| && init[k] == r0[i][0];
      }
      forall k | 0 <= k < |letters| - 1 ensures letters[k] in init {
        assert init[k] == letters[k];
      }
    }
  }

  /** The letter at position k of Letters is the k-th letter of the alphabet. */
  lemma LettersInOrder()
    ensures |Letters| == 26
    ensures forall k :: 0 <= k < |Letters| ==> Letters[k] as int == 'A' as int + k
  {
  }

  /** ExistingDrives over the alphabet A to Z, whatever sequence spells it. */
  lemma {:induction false} AlphabetDrives(letters: string, pathExists: string -> bool)
    requires |letters| == 26
    requires forall k :: 0 <= k < |letters| ==> letters[k] as int == 'A' as int + k
    ensures var r := ExistingDrives(letters, pathExists);
      (forall i :: 0 <= i < |r| ==> |r[i]| == 3 && r[i] == DrivePath(r[i][0]) && 'A' <= r[i][0] <= 'Z' && pathExists(r[i])) &&
      (forall i, j :: 0 <= i < j < |r| ==> r[i][0] < r[j][0]) &&
      (forall c :: 'A' <= c <= 'Z' ==> (DrivePath(c) in r <==> pathExists(DrivePath(c))))
  {
    assert forall i, j :: 0 <= i < j < |letters| ==> letters[i] < letters[j];
    ExistingDrivesSpec(letters, pathExists);
    var r := ExistingDrives(letters, pathExists);
    forall i | 0 <= i < |r| ensures |r[i]| == 3 && 'A' <= r[i][0] <= 'Z' {
      assert |r[i]| == 3 && r[i][0] in letters;
      var k :| 0 <= k < |letters| && letters[k] == r[i][0];
    }
    forall c | 'A' <= c <= 'Z' && pathExists(DrivePath(c)) ensures DrivePath(c) in r {
      var k := c as int - 'A' as int;
      assert letters[k] == c;
    }
  }

  /**
   * get_available_drives returns "X:\" for exactly the letters A to Z whose
   * root exists, in alphabetical order.
   */
  lemma AvailableDrivesSpec(pathExists: string -> bool)
    ensures var r := AvailableDrives(pathExists);
      (forall i :: 0 <= i < |r| ==> |r[i]| == 3 && r[i] == DrivePath(r[i][0]) && 'A' <= r[i][0] <= 'Z' && pathExists(r[i])) &&
      (forall i, j :: 0 <= i < j < |r| ==> r[i][0] < r[j][0]) &&
      (forall c :: 'A' <= c <= 'Z' ==> (DrivePath(c) in r <==> pathExists(DrivePath(c))))
  {
    LettersInOrder();
    AlphabetDrives(Letters, pathExists);
  }

  method GetAvailableDrives(pathExists: string -> bool) returns (drives: seq<string>)
    ensures drives == AvailableDrives(pathExists)
  {
    drives := [];
    var i := 0;
    while i < |Letters|
      invariant 0 <= i <= |Letters|
      invariant drives == ExistingDrives(Letters[..i], pathExists)
    {
      var path := DrivePath(Letters[i]);
      if pathExists(path) {
        drives := drives + [path];
      }
      assert Letters[..i + 1][..i] == Letters[..i];
      i := i + 1;
    }
    assert Letters[..i] == Letters;
  }

  // ---------------------------------------------------------------------
  // scan_files

  datatype WalkEntry = WalkEntry(root: string, files: seq<string>)

  /** A file as the walk reaches it: the root it was listed under and its name. */
  datatype FileEntry = FileEntry(root: string, name: string)

  datatype ScanHit = ScanHit(name: string, path: string, ext: string)

  /** scan_files returns hits, or raises KeyError for a file type that is not a key. */
  datatype ScanResult = Hits(hits: seq<ScanHit>) | UnknownFileType

  /** The deny-list: roots under the Windows and Program Files folders of drive C. */
  predicate Denied(root: string) {
    StartsWith(Lower(root), "c:\\windows") || StartsWith(Lower(root), "c:\\program files")
  }

  /** The name filter; `part` is already lower-cased, and an empty one selects every name. */
  predicate NameSelected(part: string, name: string) {
    part == [] || Contains(Lower(name), part)
  }

  predicate ExtensionSelected(name: string, exts: seq<string>) {
    EndsWithAny(Lower(name), exts)
  }

  predicate Qualifies(f: FileEntry, part: string, exts: seq<string>) {
    !Denied(f.root) && NameSelected(part, f.name) && ExtensionSelected(f.name, exts)
  }

  function ToHit(f: FileEntry): ScanHit {
    ScanHit(f.name, NtPath.Join(f.root, f.name), NtPath.Ext(f.name))
  }

  function EntryFiles(root: string, names: seq<string>): seq<FileEntry> {
    if names == [] then []
    else EntryFiles(root, names[..|names| - 1]) + [FileEntry(root, names[|names| - 1])]
  }

  function WalkFiles(entries: seq<WalkEntry>): seq<FileEntry> {
    if entries == [] then []
    else
      var last := entries[|entries| - 1];
      WalkFiles(entries[..|entries| - 1]) + EntryFiles(last.root, last.files)
  }

  /** Every file the scan reaches, in drive order, then walk order, then file order. */
  function Traversal(drives: seq<string>, walk: string -> seq<WalkEntry>): seq<FileEntry> {
    if drives == [] then []
    else Traversal(drives[..|drives| - 1], walk) + WalkFiles(walk(drives[|drives| - 1]))
  }

  /** The hits for the qualifying files, in order. */
  function Select(fs: seq<FileEntry>, part: string, exts: seq<string>): seq<ScanHit> {
    if fs == [] then []
    else
      var last := fs[|fs| - 1];
      Select(fs[..|fs| - 1], part, exts) + (if Qualifies(last, part, exts) then [ToHit(last)] else [])
  }

  /** The scan stops once the number of hits reaches max_results, and so after one hit when that is below 1. */
  function Cap(maxResults: int): int {
    if maxResults < 1 then 1 else maxResults
  }

  function Take<T>(s: seq<T>, n: nat): seq<T> {
    if |s| <= n then s else s[..n]
  }

  /** What scan_files returns. */
  function Scan(namePart: string, fileType: string, maxResults: int,
                pathExists: string -> bool, walk: string -> seq<WalkEntry>): ScanResult
  {
    if !IsFileTypeKey(fileType) then UnknownFileType
    else
      var all := Select(Traversal(AvailableDrives(pathExists), walk), Lower(namePart), SupportedExtensions(fileType));
      Hits(Take(all, Cap(maxResults)))
  }

  // Lemmas about the traversal order and the selection.

  lemma {:induction false} EntryFilesPrefix(root: string, names: seq<string>, m: nat)
    requires m <= |names|
    ensures EntryFiles(root, names[..m]) <= EntryFiles(root, names)
    decreases |names|
  {
    if m < |names| {
      EntryFilesPrefix(root, names[..|names| - 1], m);
      assert names[..|names| - 1][..m] == names[..m];
    } else {
      assert names[..m] == names;
    }
  }

  lemma {:induction false} WalkFilesPrefix(entries: seq<WalkEntry>, m: nat)
    requires m <= |entries|
    ensures WalkFiles(entries[..m]) <= WalkFiles(entries)
    decreases |entries|
  {
    if m < |entries| {
      WalkFilesPrefix(entries[..|entries| - 1], m);
      assert entries[..|entries| - 1][..m] == entries[..m];
    } else {
      assert entries[..m] == entries;
    }
  }

  /** One more drive adds its walk's files at the end of the traversal. */
  lemma TraversalStep(drives: seq<string>, walk: string -> seq<WalkEntry>, i: nat)
    requires i < |drives|
    ensures Traversal(drives[..i + 1], walk) == Traversal(drives[..i], walk) + WalkFiles(walk(drives[i]))
  {
    assert drives[..i + 1][..i] == drives[..i];
  }

  lemma {:induction false} TraversalPrefix(drives: seq<string>, walk: string -> seq<WalkEntry>, m: nat)
    requires m <= |drives|
    ensures Traversal(drives[..m], walk) <= Traversal(drives, walk)
    decreases |drives|
  {
    if m < |drives| {
      TraversalPrefix(drives[..|drives| - 1], walk, m);
      assert drives[..|drives| - 1][..m] == drives[..m];
    } else {
      assert drives[..m] == drives;
    }
  }

  /** Drive order: every file of an earlier drive comes before every file of a later one. */
  lemma {:induction false} TraversalAppend(d1: seq<string>, d2: seq<string>, walk: string -> seq<WalkEntry>)
    ensures Traversal(d1 + d2, walk) == Traversal(d1, walk) + Traversal(d2, walk)
    decreases |d2|
  {
    if d2 == [] {
      assert d1 + d2 == d1;
    } else {
      var init := d2[..|d2| - 1];
      var last := d2[|d2| - 1];
      var tail := WalkFiles(walk(last));
      assert (d1 + d2)[..|d1 + d2| - 1] == d1 + init;
      assert (d1 + d2)[|d1 + d2| - 1] == last;
      assert Traversal(d1 + d2, walk) == Traversal(d1 + init, walk) + tail;
      TraversalAppend(d1, init, walk);
      assert Traversal(d2, walk) == Traversal(init, walk) + tail;
    }
  }

  /** The selection keeps order: it distributes over concatenation. */
  lemma {:induction false} SelectAppend(a: seq<FileEntry>, b: seq<FileEntry>, part: string, exts: seq<string>)
    ensures Select(a + b, part, exts) == Select(a, part, exts) + Select(b, part, exts)
    decreases |b|
  {
    if b == [] {
      assert a + b == a;
    } else {
      var init := b[..|b| - 1];
      assert (a + b)[..|a + b| - 1] == a + init;
      SelectAppend(a, init, part, exts);
    }
  }

  lemma SelectPrefix(a: seq<FileEntry>, b: seq<FileEntry>, part: string, exts: seq<string>)
    requires a <= b
    ensures Select(a, part, exts) <= Select(b, part, exts)
  {
    assert b == a + b[|a|..];
    SelectAppend(a, b[|a|..], part, exts);
  }

  /** Every hit is the hit of a qualifying file that the walk reached. */
  lemma {:induction false} SelectSound(fs: seq<FileEntry>, part: string, exts: seq<string>, i: int)
    requires 0 <= i < |Select(fs, part, exts)|
    ensures exists f :: f in fs && Qualifies(f, part, exts) && Select(fs, part, exts)[i] == ToHit(f)
  {
    var init := fs[..|fs| - 1];
    var r0 := Select(init, part, exts);
    if i < |r0| {
      SelectSound(init, part, exts, i);
      var f :| f in init && Qualifies(f, part, exts) && r0[i] == ToHit(f);
      assert f in fs;
    } else {
      assert fs[|fs| - 1] in fs;
    }
  }

  /** Every qualifying file the walk reached has its hit in the selection. */
  lemma {:induction false} SelectComplete(fs: seq<FileEntry>, part: string, exts: seq<string>, f: FileEntry)
    requires f in fs && Qualifies(f, part, exts)
    ensures ToHit(f) in Select(fs, part, exts)
  {
    var init := fs[..|fs| - 1];
    if f != fs[|fs| - 1] {
      assert f in init by {
        var k :| 0 <= k < |fs| && fs[k] == f;
        assert init[k] == f;
      }
      SelectComplete(init, part, exts, f);
    }
  }

  /** A file listed under a denied root never yields a hit. */
  lemma {:induction false} DeniedRootSelectsNothing(prefix: seq<FileEntry>, root: string, names: seq<string>,
                                                    part: string, exts: seq<string>)
    requires Denied(root)
    ensures Select(prefix + EntryFiles(root, names), part, exts) == Select(prefix, part, exts)
    decreases |names|
  {
    if names == [] {
      assert prefix + EntryFiles(root, names) == prefix;
    } else {
      var init := names[..|names| - 1];
      var s := prefix + EntryFiles(root, names);
      assert s[..|s| - 1] == prefix + EntryFiles(root, init);
      DeniedRootSelectsNothing(prefix, root, init, part, exts);
    }
  }

  /** Once the prefix reached so far yields Cap hits, those are the scan's result. */
  lemma CapReached(prefix: seq<FileEntry>, all: seq<FileEntry>, part: string, exts: seq<string>, maxResults: int)
    requires prefix <= all
    requires |Select(prefix, part, exts)| == Cap(maxResults)
    ensures Take(Select(all, part, exts), Cap(maxResults)) == Select(prefix, part, exts)
  {
    SelectPrefix(prefix, all, part, exts);
  }

  // Properties of the scan.

  /** At most Cap(max_results) hits: at most max_results when that is 1 or more. */
  lemma ScanBound(namePart: string, fileType: string, maxResults: int,
                  pathExists: string -> bool, walk: string -> seq<WalkEntry>)
    ensures Scan(namePart, fileType, maxResults, pathExists, walk).Hits? ==>
      var hits := Scan(namePart, fileType, maxResults, pathExists, walk).hits;
      |hits| <= Cap(maxResults) && (maxResults >= 1 ==> |hits| <= maxResults)
  {
  }

  /** The defaults of scan_files: name_part "", file_type "ALL", max_results 2000. */
  const DefaultNamePart: string := ""
  const DefaultFileType: string := "ALL"
  const DefaultMaxResults: int := 2000

  /**
   * The search window passes only name_part and file_type, so its scans stop
   * at 2000 hits; a known file type never fails.
   */
  lemma DefaultCapBound(namePart: string, fileType: string,
                        pathExists: string -> bool, walk: string -> seq<WalkEntry>)
    requires IsFileTypeKey(fileType)
    ensures Scan(namePart, fileType, DefaultMaxResults, pathExists, walk).Hits?
    ensures |Scan(namePart, fileType, DefaultMaxResults, pathExists, walk).hits| <= 2000
  {
    ScanBound(namePart, fileType, DefaultMaxResults, pathExists, walk);
  }

  /**
   * With every default there is no name filter: a file qualifies exactly when
   * its root is outside the deny-list and its lower-cased name ends in one of
   * the three extensions, and the scan returns the first 2000 such files.
   */
  lemma DefaultScanSelectsAllTypes(pathExists: string -> bool, walk: string -> seq<WalkEntry>)
    ensures forall f :: Qualifies(f, Lower(DefaultNamePart), SupportedExtensions(DefaultFileType)) <==>
      !Denied(f.root) &&
      (EndsWith(Lower(f.name), ".pdf") || EndsWith(Lower(f.name), ".docx") || EndsWith(Lower(f.name), ".xlsx"))
    ensures Scan(DefaultNamePart, DefaultFileType, DefaultMaxResults, pathExists, walk) ==
      Hits(Take(Select(Traversal(AvailableDrives(pathExists), walk), Lower(DefaultNamePart),
                       SupportedExtensions(DefaultFileType)), 2000))
  {
    assert Lower(DefaultNamePart) == [];
    var exts := SupportedExtensions(DefaultFileType);
    assert exts[0] == ".pdf" && exts[1] == ".docx" && exts[2] == ".xlsx" && |exts| == 3;
  }

  /** The file type must be one of the four keys; any other raises before the walk. */
  lemma ScanRejectsUnknownType(namePart: string, fileType: string, maxResults: int,
                               pathExists: string -> bool, walk: string -> seq<WalkEntry>)
    ensures Scan(namePart, fileType, maxResults, pathExists, walk) == UnknownFileType <==>
      !(fileType == "PDF" || fileType == "DOCX" || fileType == "XLSX" || fileType == "ALL")
  {
  }

  /**
   * The hits are the first qualifying files in traversal order: a prefix of
   * all of them, and all of them when the cap is not reached.
   */
  lemma ScanIsPrefixOfAllMatches(namePart: string, fileType: string, maxResults: int,
                                 pathExists: string -> bool, walk: string -> seq<WalkEntry>)
    requires IsFileTypeKey(fileType)
    ensures var all := Select(Traversal(AvailableDrives(pathExists), walk), Lower(namePart), SupportedExtensions(fileType));
      var hits := Scan(namePart, fileType, maxResults, pathExists, walk).hits;
      hits <= all &&
      (|hits| < Cap(maxResults) ==> hits == all) &&
      (|all| >= Cap(maxResults) ==> |hits| == Cap(maxResults))
  {
  }

  /**
   * Every hit names a file the walk listed under a root outside the
   * deny-list, whose lower-cased name contains the lower-cased name part (when
   * that is not empty) and ends with one of the type's extensions; its path is
   * the name joined to the root and its extension is splitext's, in the
   * file's own case.
   */
  lemma ScanHitsQualify(namePart: string, fileType: string, maxResults: int,
                        pathExists: string -> bool, walk: string -> seq<WalkEntry>)
    requires IsFileTypeKey(fileType)
    ensures var hits := Scan(namePart, fileType, maxResults, pathExists, walk).hits;
      var exts := SupportedExtensions(fileType);
      forall i :: 0 <= i < |hits| ==>
        EndsWithAny(Lower(hits[i].name), exts) &&
        (namePart != [] ==> Contains(Lower(hits[i].name), Lower(namePart))) &&
        hits[i].ext == NtPath.Ext(hits[i].name) &&
        exists f :: f in Traversal(AvailableDrives(pathExists), walk) && !Denied(f.root) &&
          f.name == hits[i].name && hits[i].path == NtPath.Join(f.root, f.name)
  {
    var fs := Traversal(AvailableDrives(pathExists), walk);
    var part, exts := Lower(namePart), SupportedExtensions(fileType);
    var all := Select(fs, part, exts);
    var hits := Scan(namePart, fileType, maxResults, pathExists, walk).hits;
    forall i | 0 <= i < |hits|
      ensures EndsWithAny(Lower(hits[i].name), exts) &&
        (namePart != [] ==> Contains(Lower(hits[i].name), Lower(namePart))) &&
        hits[i].ext == NtPath.Ext(hits[i].name) &&
        exists f :: f in fs && !Denied(f.root) && f.name == hits[i].name && hits[i].path == NtPath.Join(f.root, f.name)
    {
      assert hits[i] == all[i];
      SelectSound(fs, part, exts, i);
      var f :| f in fs && Qualifies(f, part, exts) && all[i] == ToHit(f);
      assert f.name == hits[i].name;
    }
  }

  /** Reaching one more file of a root appends it to the traversal and, if it qualifies, its hit to the selection. */
  lemma SelectNextFile(before: seq<FileEntry>, root: string, files: seq<string>, k: int, part: string, exts: seq<string>)
    requires 0 <= k < |files|
    ensures var f := FileEntry(root, files[k]);
      Select(before + EntryFiles(root, files[..k + 1]), part, exts) ==
      Select(before + EntryFiles(root, files[..k]), part, exts) + (if Qualifies(f, part, exts) then [ToHit(f)] else [])
  {
    var reached := before + EntryFiles(root, files[..k + 1]);
    assert files[..k + 1][..k] == files[..k];
    assert reached[..|reached| - 1] == before + EntryFiles(root, files[..k]);
  }

  lemma PrefixAfterCommonStart<T>(p: seq<T>, x: seq<T>, y: seq<T>)
    requires x <= y
    ensures p + x <= p + y
  {
    assert y == x + y[|x|..];
    assert p + y == (p + x) + y[|x|..];
  }

  lemma PrefixTransitive<T>(a: seq<T>, b: seq<T>, c: seq<T>)
    requires a <= b && b <= c
    ensures a <= c
  {
  }

  /** Finishing one walk entry extends the files reached so far. */
  lemma WalkNextEntry(before: seq<FileEntry>, entries: seq<WalkEntry>, j: int)
    requires 0 <= j < |entries|
    ensures before + WalkFiles(entries[..j]) + EntryFiles(entries[j].root, entries[j].files) ==
      before + WalkFiles(entries[..j + 1])
  {
    assert entries[..j + 1][..j] == entries[..j];
  }

  /** What is reached by the end of one walk entry lies within the drive's traversal. */
  lemma WalkEntryWithin(before: seq<FileEntry>, entries: seq<WalkEntry>, j: int)
    requires 0 <= j < |entries|
    ensures before + WalkFiles(entries[..j + 1]) <= before + WalkFiles(entries)
  {
    WalkFilesPrefix(entries, j + 1);
    PrefixAfterCommonStart(before, WalkFiles(entries[..j + 1]), WalkFiles(entries));
  }

  /**
   * A file named just ".pdf" is a hit for "PDF": its lower-cased name ends
   * with ".pdf".  splitext treats the leading dot as part of the name, so
   * the hit's extension is empty.
   */
  lemma DotFileHitHasNoExtension(root: string)
    requires !Denied(root)
    ensures Qualifies(FileEntry(root, ".pdf"), [], SupportedExtensions("PDF"))
    ensures ToHit(FileEntry(root, ".pdf")).ext == []
  {
    var name := ".pdf";
    assert Lower(name) == name;
    assert EndsWith(Lower(name), SupportedExtensions("PDF")[0]);
    NtPath.NoInnerDotNoExt(name);
  }

  // The three nested loops of scan_files, one method per loop.  Each
  // returns `capped` when the number of hits has reached the cap, which is
  // where scan_files returns early; `reached` is the part of the traversal
  // visited by then.

  /** The loop over the files of one root outside the deny-list. */
  method ScanRoot(root: string, files: seq<string>, part: string, exts: seq<string>, maxResults: int,
                  ghost before: seq<FileEntry>, found: seq<ScanHit>)
    returns (matches: seq<ScanHit>, capped: bool, ghost reached: seq<FileEntry>)
    requires !Denied(root)
    requires found == Select(before, part, exts) && |found| < Cap(maxResults)
    ensures reached <= before + EntryFiles(root, files)
    ensures matches == Select(reached, part, exts)
    ensures capped ==> |matches| == Cap(maxResults)
    ensures !capped ==> reached == before + EntryFiles(root, files) && |matches| < Cap(maxResults)
  {
    matches := found;
    assert before + EntryFiles(root, files[..0]) == before;
    var k := 0;
    while k < |files|
      invariant 0 <= k <= |files|
      invariant matches == Select(before + EntryFiles(root, files[..k]), part, exts)
      invariant |matches| < Cap(maxResults)
    {
      var name := files[k];
      reached := before + EntryFiles(root, files[..k + 1]);
      SelectNextFile(before, root, files, k, part, exts);
      if NameSelected(part, name) && ExtensionSelected(name, exts) {
        matches := matches + [ToHit(FileEntry(root, name))];
        if |matches| >= maxResults {
          EntryFilesPrefix(root, files, k + 1);
          return matches, true, reached;
        }
      }
      k := k + 1;
    }
    assert files[..k] == files;
    return matches, false, before + EntryFiles(root, files);
  }

  /** The loop over the (root, files) entries os.walk yields for one drive. */
  method ScanWalk(entries: seq<WalkEntry>, part: string, exts: seq<string>, maxResults: int,
                  ghost before: seq<FileEntry>, found: seq<ScanHit>)
    returns (matches: seq<ScanHit>, capped: bool, ghost reached: seq<FileEntry>)
    requires found == Select(before, part, exts) && |found| < Cap(maxResults)
    ensures reached <= before + WalkFiles(entries)
    ensures matches == Select(reached, part, exts)
    ensures capped ==> |matches| == Cap(maxResults)
    ensures !capped ==> reached == before + WalkFiles(entries) && |matches| < Cap(maxResults)
  {
    matches := found;
    assert before + WalkFiles(entries[..0]) == before;
    var j := 0;
    while j < |entries|
      invariant 0 <= j <= |entries|
      invariant matches == Select(before + WalkFiles(entries[..j]), part, exts)
      invariant |matches| < Cap(maxResults)
    {
      var root := entries[j].root;
      var files := entries[j].files;
      ghost var done := before + WalkFiles(entries[..j]);
      WalkNextEntry(before, entries, j);
      if Denied(root) {
        DeniedRootSelectsNothing(done, root, files, part, exts);
      } else {
        matches, capped, reached := ScanRoot(root, files, part, exts, maxResults, done, matches);
        if capped {
          WalkEntryWithin(before, entries, j);
          PrefixTransitive(reached, before + WalkFiles(entries[..j + 1]), before + WalkFiles(entries));
          return;
        }
      }
      j := j + 1;
    }
    assert entries[..j] == entries;
    return matches, false, before + WalkFiles(entries);
  }

  method ScanFiles(namePart: string, fileType: string, maxResults: int,
                   pathExists: string -> bool, walk: string -> seq<WalkEntry>) returns (result: ScanResult)
    ensures result == Scan(namePart, fileType, maxResults, pathExists, walk)
  {
    var part := Lower(namePart);
    if !IsFileTypeKey(fileType) {
      return UnknownFileType;
    }
    var exts := SupportedExtensions(fileType);
    var drives := GetAvailableDrives(pathExists);
    ghost var all := Traversal(drives, walk);
    var matches: seq<ScanHit> := [];
    var i := 0;
    while i < |drives|
      invariant 0 <= i <= |drives|
      invariant matches == Select(Traversal(drives[..i], walk), part, exts)
      invariant |matches| < Cap(maxResults)
    {
      ghost var done := Traversal(drives[..i], walk);
      TraversalStep(drives, walk, i);
      var capped;
      ghost var reached;
      matches, capped, reached := ScanWalk(walk(drives[i]), part, exts, maxResults, done, matches);
      if capped {
        TraversalPrefix(drives, walk, i + 1);
        PrefixTransitive(reached, Traversal(drives[..i + 1], walk), all);
        CapReached(reached, all, part, exts, maxResults);
        return Hits(matches);
      }
      i := i + 1;
    }
    assert drives[..i] == drives;
    return Hits(matches);
  }
}
