/**
 The decisions of `downloadAllFiles.py`: which Drive items count as images,
 which name a directly downloaded PDF is saved under, and which spreadsheet
 rows are processed and which become failure records.
 */
module DownloadAllFiles {
  import opened Wrappers
  import opened PyStr
  import opened PyPath
  import opened DriveLink

  // ---------------------------------------------------------------------------
  // is_image_file
  // ---------------------------------------------------------------------------

  /** The eighteen extensions `is_image_file` accepts. */
  const ImageExtensions: set<string> := {
    ".png", ".jpg", ".jpeg", ".gif", ".bmp", ".tiff", ".tif",
    ".webp", ".svg", ".ico", ".heic", ".heif", ".raw", ".cr2",
    ".nef", ".orf", ".sr2", ".dng"
  }

  /** Python truthiness of an optional string: present and non-empty. */
  predicate Truthy(s: Option<string>) {
    s.Some? && |s.value| > 0
  }

  /** `is_image_file(file_name, mime_type)`. */
  function IsImageFile(fileName: Option<string>, mimeType: Option<string>): (r: bool)
    ensures Truthy(fileName) && Lower(Ext(fileName.value)) in ImageExtensions ==> r
    ensures !(Truthy(fileName) && Lower(Ext(fileName.value)) in ImageExtensions) ==>
      (r <==> Truthy(mimeType) && StartsWith(mimeType.value, "image/"))
  {
    ExtOfLower(if fileName.Some? then fileName.value else "");
    if Truthy(fileName) && Ext(Lower(fileName.value)) in ImageExtensions then true
    else if Truthy(mimeType) then StartsWith(mimeType.value, "image/")
    else false
  }

  /** The decision ignores the case of the file name. */
  lemma IsImageFileIgnoresCase(name: string, mimeType: Option<string>)
    ensures IsImageFile(Some(name), mimeType) == IsImageFile(Some(Lower(name)), mimeType)
  {
    ExtOfLower(name);
    ExtOfLower(Lower(name));
    assert Lower(Lower(name)) == Lower(name);
  }

  lemma ImageExtensionsAreDotted()
    ensures forall e :: e in ImageExtensions ==> IsDottedSuffix(e)
  {
  }

  /** The lower-cased name `ln` ends with the extension `e`, with a non-dot character before it in its last component. */
  predicate NameHasExtension(ln: string, e: string) {
    EndsWith(ln, e) && HasNonDotInLastComponent(ln[..|ln| - |e|])
  }

  /**
   The extension test accepts a name exactly when its lower-cased form ends with
   one of the eighteen extensions and the last path component has a character
   other than a dot before it; so a bare `.png` is not an image by name.
   */
  lemma ImageExtensionMatch(name: string)
    ensures Lower(Ext(name)) in ImageExtensions <==>
      exists e :: e in ImageExtensions && NameHasExtension(Lower(name), e)
  {
    ExtOfLower(name);
    ImageExtensionsAreDotted();
    ExtensionInSet(Lower(name), ImageExtensions);
  }

  /** For any set of dotted extensions: the extension is in the set exactly when the name ends with a member of it. */
  lemma ExtensionInSet(ln: string, exts: set<string>)
    requires forall e :: e in exts ==> IsDottedSuffix(e)
    ensures Ext(ln) in exts <==> exists e :: e in exts && NameHasExtension(ln, e)
  {
    if Ext(ln) in exts {
      ExtIsDottedSuffix(ln, Ext(ln));
      assert NameHasExtension(ln, Ext(ln));
    }
    if exists e :: e in exts && NameHasExtension(ln, e) {
      var e :| e in exts && NameHasExtension(ln, e);
      ExtIsDottedSuffix(ln, e);
    }
  }

  /** A name that is only a dot and an extension is classified by its MIME type alone. */
  lemma LeadingDotNameFallsBackToMime(mimeType: Option<string>)
    ensures IsImageFile(Some(".PNG"), mimeType) == (Truthy(mimeType) && StartsWith(mimeType.value, "image/"))
  {
    var n := ".PNG";
    assert n[0] == '.' && n[1] == 'P' && n[2] == 'N' && n[3] == 'G';
    assert RFind(n, Seps) == -1;
    assert RFind(n, {'.'}) == 0;
    assert Ext(n) == "";
  }

  // ---------------------------------------------------------------------------
  // download_pdf: the saved file name
  // ---------------------------------------------------------------------------

  /** `pdf_url.split("/")[-1]`: the name the downloaded PDF is saved under. */
  function PdfFileName(url: string): (name: string)
    ensures EndsWith(url, name) && '/' !in name
    ensures |name| == |url| || url[|url| - |name| - 1] == '/'
  {
    LastPieceIsTextAfterLastSeparator(url, '/');
    LastPiece(url, '/')
  }

  /** A link ending in `.pdf` (the guard in `main`) is saved under a name ending in `.pdf`. */
  lemma PdfFileNameKeepsExtension(url: string)
    requires EndsWith(url, ".pdf")
    ensures EndsWith(PdfFileName(url), ".pdf")
  {
    var name := PdfFileName(url);
    var tail := url[|url| - 4..];
    assert tail == ".pdf";
    if |name| < 4 {
      assert false;
    }
    assert name[|name| - 4..] == url[|url| - 4..];
  }

  // ---------------------------------------------------------------------------
  // main: row filtering
  // ---------------------------------------------------------------------------

  /** One spreadsheet row: `G.Drive Link`, `Layout Link` (possibly empty) and `Name`. */
  datatype Row = Row(driveLink: string, layoutLink: Option<string>, name: string)

  /** An entry of `all_failed_downloads`: person, file or issue, error text. */
  datatype Failure = Failure(person: string, item: string, detail: string)

  /** A direct PDF download: the link and the path it is saved to. */
  datatype PdfDownload = PdfDownload(url: string, path: string)

  /** What `main` goes on to do for a row whose Drive link parsed. */
  datatype Fetch = Fetch(person: string, folder: string, kind: Kind, id: string, pdf: Option<PdfDownload>)

  datatype RowOutcome = Rejected(failure: Failure) | Processed(fetch: Fetch)

  /** The decision `main` takes for one row, downloads under `base`. */
  function Outcome(row: Row, base: string): (o: RowOutcome)
    ensures o.Rejected? <==> ExtractId(row.driveLink).0.None?
    ensures o.Processed? ==>
      (IsId(o.fetch.id) && ExtractId(row.driveLink) == (Some(o.fetch.id), Some(o.fetch.kind)))
    ensures o.Processed? ==>
      (o.fetch.pdf.Some? <==> row.layoutLink.Some? && EndsWith(row.layoutLink.value, ".pdf"))
    ensures o.Processed? ==> o.fetch.person == row.name && o.fetch.folder == PathJoin(base, row.name)
    ensures o.Processed? && o.fetch.pdf.Some? ==>
      o.fetch.pdf.value
      == PdfDownload(row.layoutLink.value, PathJoin(o.fetch.folder, PdfFileName(row.layoutLink.value)))
    ensures o.Rejected? ==> o.failure == Failure(row.name, "Invalid Google Drive link", row.driveLink)
  {
    var (id, kind) := ExtractId(row.driveLink);
    if id.None? then
      Rejected(Failure(row.name, "Invalid Google Drive link", row.driveLink))
    else
      var folder := PathJoin(base, row.name);
      var pdf :=
        if row.layoutLink.Some? && EndsWith(row.layoutLink.value, ".pdf") then
          Some(PdfDownload(row.layoutLink.value, PathJoin(folder, PdfFileName(row.layoutLink.value))))
        else None;
      Processed(Fetch(row.name, folder, kind.value, id.value, pdf))
  }

  /**
   The processed rows, in sheet order: one fetch for every row whose Drive link
   parses, each the outcome of one of the rows.
   */
  function Fetches(rows: seq<Row>, base: string): (fs: seq<Fetch>)
    ensures |fs| + CountInvalid(rows) == |rows|
    ensures forall f :: f in fs ==> exists r :: r in rows && Outcome(r, base) == Processed(f)
  {
    if |rows| == 0 then []
    else
      var o := Outcome(rows[|rows| - 1], base);
      assert forall r :: r in rows[..|rows| - 1] ==> r in rows;
      assert rows[|rows| - 1] in rows;
      Fetches(rows[..|rows| - 1], base) + (if o.Processed? then [o.fetch] else [])
  }

  /** The failure records of the rows whose Drive link does not parse, in sheet order: one per such row. */
  function Rejections(rows: seq<Row>, base: string): (fs: seq<Failure>)
    ensures |fs| == CountInvalid(rows)
  {
    if |rows| == 0 then []
    else
      var o := Outcome(rows[|rows| - 1], base);
      Rejections(rows[..|rows| - 1], base) + (if o.Rejected? then [o.failure] else [])
  }

  /** Number of rows whose Drive link does not parse. */
  function CountInvalid(rows: seq<Row>): nat {
    if |rows| == 0 then 0
    else CountInvalid(rows[..|rows| - 1]) + (if ExtractId(rows[|rows| - 1].driveLink).0.None? then 1 else 0)
  }

  /**
   The loop of `main` as far as the sheet decides it: each row is either
   rejected (its failure recorded, `processed_entries` untouched) or processed
   (counted, and its fetch planned), in sheet order.
   */
  method PlanDownloads(rows: seq<Row>, base: string) returns (fetches: seq<Fetch>, failures: seq<Failure>, processed: nat)
    ensures fetches == Fetches(rows, base)
    ensures failures == Rejections(rows, base)
    ensures processed == |fetches|
    ensures |failures| == CountInvalid(rows)
    ensures processed + |failures| == |rows|
  {
    fetches, failures, processed := [], [], 0;
    var i := 0;
    while i < |rows|
      invariant 0 <= i <= |rows|
      invariant fetches == Fetches(rows[..i], base)
      invariant failures == Rejections(rows[..i], base)
      invariant processed == |fetches|
    {
      assert rows[..i + 1][..i] == rows[..i];
      var o := Outcome(rows[i], base);
      if o.Rejected? {
        failures := failures + [o.failure];
      } else {
        fetches := fetches + [o.fetch];
        processed := processed + 1;
      }
      i := i + 1;
    }
    assert rows[..|rows|] == rows;
  }

  /** Every failure record `main` writes for a row names that row's person and link. */
  lemma {:induction false} RejectionsRecordInvalidLinks(rows: seq<Row>, base: string)
    ensures forall f :: f in Rejections(rows, base) ==>
      f.item == "Invalid Google Drive link"
      && exists r :: r in rows && f == Failure(r.name, f.item, r.driveLink) && ExtractId(r.driveLink).0.None?
  {
    if |rows| > 0 {
      RejectionsRecordInvalidLinks(rows[..|rows| - 1], base);
      assert forall r :: r in rows[..|rows| - 1] ==> r in rows;
      assert rows[|rows| - 1] in rows;
    }
  }

  /** The fetches of a leading part of the sheet come first, in the same order. */
  lemma {:induction false} FetchesOfPrefix(rows: seq<Row>, j: nat, base: string)
    requires j <= |rows|
    ensures Fetches(rows[..j], base) <= Fetches(rows, base)
    decreases |rows|
  {
    if j < |rows| {
      var init := rows[..|rows| - 1];
      assert init[..j] == rows[..j];
      FetchesOfPrefix(init, j, base);
    } else {
      assert rows[..j] == rows;
    }
  }

  /** The failure records of a leading part of the sheet come first, in the same order. */
  lemma {:induction false} RejectionsOfPrefix(rows: seq<Row>, j: nat, base: string)
    requires j <= |rows|
    ensures Rejections(rows[..j], base) <= Rejections(rows, base)
    decreases |rows|
  {
    if j < |rows| {
      var init := rows[..|rows| - 1];
      assert init[..j] == rows[..j];
      RejectionsOfPrefix(init, j, base);
    } else {
      assert rows[..j] == rows;
    }
  }

  /**
   Every row gives exactly one result, in sheet order, since `main` either
   appends a failure and continues or counts the row and fetches. The row at
   index `i` contributes exactly its own result, at its place in sheet order:
   an unparseable link gives the failure numbered by the count of unparseable
   links before it, any other row the fetch numbered by the count of parseable
   links before it.
   */
  lemma RowAtIndex(rows: seq<Row>, i: nat, base: string)
    requires i < |rows|
    ensures CountInvalid(rows[..i]) <= i
    ensures ExtractId(rows[i].driveLink).0.None? ==>
      CountInvalid(rows[..i]) < |Rejections(rows, base)|
      && Rejections(rows, base)[CountInvalid(rows[..i])]
         == Failure(rows[i].name, "Invalid Google Drive link", rows[i].driveLink)
    ensures ExtractId(rows[i].driveLink).0.Some? ==>
      i - CountInvalid(rows[..i]) < |Fetches(rows, base)|
      && Fetches(rows, base)[i - CountInvalid(rows[..i])] == Outcome(rows[i], base).fetch
  {
    var upto := rows[..i + 1];
    assert upto[..i] == rows[..i];
    assert upto[i] == rows[i];
    assert |Fetches(rows[..i], base)| + CountInvalid(rows[..i]) == i;
    FetchesOfPrefix(rows, i + 1, base);
    RejectionsOfPrefix(rows, i + 1, base);
    var fs, pre := Fetches(rows, base), Fetches(upto, base);
    var rs, rpre := Rejections(rows, base), Rejections(upto, base);
    if |pre| > 0 {
      assert pre[|pre| - 1] == fs[|pre| - 1];
    }
    if |rpre| > 0 {
      assert rpre[|rpre| - 1] == rs[|rpre| - 1];
    }
  }
}
