/**
 The decisions of `downloadLayout.py`. The file defines `extract_id`,
 `download_pdf` and the Drive helpers twice, and `main` once; Python keeps the
 later definitions, so the `download_pdf` modelled here is the second one,
 which names the saved file after the second-to-last `/`-separated piece of the
 link, with nothing appended.
 */
module DownloadLayout {
  import opened Wrappers
  import opened PyStr
  import opened PyPath
  import opened DriveLink

  /**
   `pdf_url.split("/")[-2]`, or `None` where that indexing raises `IndexError`
   (caught, nothing saved): the text between the last two slashes of the link.
   */
  function LayoutFileName(url: string): (r: Option<string>)
    ensures r.Some? <==> '/' in url
    ensures r.Some? ==> '/' !in r.value
    ensures r.Some? ==> EndsWith(url, r.value + "/" + LastPiece(url, '/'))
    ensures r.Some? ==>
      var before := |url| - |r.value| - 1 - |LastPiece(url, '/')|;
      before == 0 || url[before - 1] == '/'
  {
    SplitHasTwoPieces(url, '/');
    SplitPiecesLackSeparator(url, '/');
    if HasSecondToLastPiece(url, '/') then
      SecondToLastPieceIsBetweenLastTwoSeparators(url, '/');
      Some(SecondToLastPiece(url, '/'))
    else None
  }

  /**
   The name the comment on the naming line describes: the second-to-last piece
   with `.pdf` appended, so that the layout step recognises the saved file.
   */
  function CorrectedLayoutFileName(url: string): (r: Option<string>)
    ensures r.Some? <==> '/' in url
    ensures r.Some? ==>
      (EndsWith(r.value, ".pdf") && '/' !in r.value
       && Some(r.value[..|r.value| - 4]) == LayoutFileName(url))
  {
    match LayoutFileName(url)
    case None => None
    case Some(name) =>
      var r := name + ".pdf";
      assert r[..|r| - 4] == name && r[|r| - 4..] == ".pdf";
      Some(r)
  }

  /** The name the first, shadowed `download_pdf` would have used: the last piece. */
  function ShadowedLayoutFileName(url: string): string {
    LastPiece(url, '/')
  }

  /** The sharing link of a Drive file: `https://drive.google.com/file/d/<id>/<tail>`. */
  function DriveFileLink(id: string, tail: string): string {
    FilePrefix + id + "/" + tail
  }

  lemma LastPieceAfterPrefix(id: string)
    requires '/' !in id
    ensures LastPiece(FilePrefix + id, '/') == id
  {
    var front := "https://drive.google.com/file/d";
    assert FilePrefix + id == front + ['/'] + id;
    SplitAppend(front, id, '/');
    SplitWithoutSeparator(id, '/');
  }

  lemma IdHasNoSlash(id: string)
    requires IsId(id)
    ensures '/' !in id
  {
    assert forall k :: 0 <= k < |id| ==> IsIdChar(id[k]);
  }

  /**
   For a Drive file link the saved name is the id `extract_id` reports, with no
   `.pdf` suffix, while the shadowed definition would have used the tail.
   */
  lemma LayoutFileNameOfDriveFileLink(id: string, tail: string)
    requires IsId(id) && '/' !in tail
    ensures LayoutFileName(DriveFileLink(id, tail)) == Some(id)
    ensures ExtractId(DriveFileLink(id, tail)) == (Some(id), Some(File))
    ensures ShadowedLayoutFileName(DriveFileLink(id, tail)) == tail
  {
    var url := DriveFileLink(id, tail);
    IdHasNoSlash(id);
    assert url == (FilePrefix + id) + ['/'] + tail;
    SecondToLastPieceOfAppend(FilePrefix + id, tail, '/');
    LastPieceAfterPrefix(id);
    SplitAppend(FilePrefix + id, tail, '/');
    SplitWithoutSeparator(tail, '/');
    assert url == PrefixOf(File) + id + ("/" + tail);
    ExtractIdOfLink(File, id, "/" + tail);
  }

  /** One spreadsheet row: `Layout Link` (absent when `None`) and `Name`. */
  datatype Row = Row(layoutLink: Option<string>, name: string)

  /** A `download_pdf(drawing_link, person_folder)` call and the name it saves under. */
  datatype Download = Download(folder: string, url: string, fileName: Option<string>)

  /** The downloads `main` attempts, in sheet order, saving under `base`. */
  function Downloads(rows: seq<Row>, base: string): (ds: seq<Download>)
    ensures |ds| == CountPresent(rows) <= |rows|
  {
    if |rows| == 0 then []
    else
      var row := rows[|rows| - 1];
      Downloads(rows[..|rows| - 1], base)
        + (if row.layoutLink.None? then []
           else [Download(PathJoin(base, row.name), row.layoutLink.value, LayoutFileName(row.layoutLink.value))])
  }

  function CountPresent(rows: seq<Row>): nat {
    if |rows| == 0 then 0
    else CountPresent(rows[..|rows| - 1]) + (if rows[|rows| - 1].layoutLink.None? then 0 else 1)
  }

  /** The downloads of a leading part of the sheet come first, in the same order. */
  lemma {:induction false} DownloadsOfPrefix(rows: seq<Row>, j: nat, base: string)
    requires j <= |rows|
    ensures Downloads(rows[..j], base) <= Downloads(rows, base)
    decreases |rows|
  {
    if j < |rows| {
      var init := rows[..|rows| - 1];
      assert init[..j] == rows[..j];
      DownloadsOfPrefix(init, j, base);
    } else {
      assert rows[..j] == rows;
    }
  }

  /** The download made for the row at index `i`. */
  lemma DownloadAtIndex(rows: seq<Row>, i: nat, base: string)
    requires i < |rows| && rows[i].layoutLink.Some?
    ensures CountPresent(rows[..i]) < |Downloads(rows, base)|
    ensures Downloads(rows, base)[CountPresent(rows[..i])]
      == Download(PathJoin(base, rows[i].name), rows[i].layoutLink.value,
                  LayoutFileName(rows[i].layoutLink.value))
  {
    var upto := rows[..i + 1];
    assert upto[..i] == rows[..i];
    assert upto[i] == rows[i];
    DownloadsOfPrefix(rows, i + 1, base);
    var ds := Downloads(rows, base);
    var pre := Downloads(upto, base);
    assert pre[|pre| - 1] == ds[|pre| - 1];
  }

  /**
   A row whose link is `None` is skipped before any folder path or download;
   every other row yields exactly one download, from its own link into its own
   folder, in sheet order: the row at index `i` is the download numbered by the
   count of present links before it.
   */
  lemma {:induction false} DownloadsSkipAbsentLinks(rows: seq<Row>, base: string)
    ensures |Downloads(rows, base)| == CountPresent(rows)
    ensures forall i :: 0 <= i < |rows| && rows[i].layoutLink.Some? ==>
      CountPresent(rows[..i]) < |Downloads(rows, base)|
      && Downloads(rows, base)[CountPresent(rows[..i])]
         == Download(PathJoin(base, rows[i].name), rows[i].layoutLink.value,
                     LayoutFileName(rows[i].layoutLink.value))
    ensures forall d :: d in Downloads(rows, base) ==>
      exists r :: r in rows && r.layoutLink == Some(d.url) && d.folder == PathJoin(base, r.name)
        && d.fileName == LayoutFileName(d.url)
  {
    forall i | 0 <= i < |rows| && rows[i].layoutLink.Some?
      ensures CountPresent(rows[..i]) < |Downloads(rows, base)|
      ensures Downloads(rows, base)[CountPresent(rows[..i])]
         == Download(PathJoin(base, rows[i].name), rows[i].layoutLink.value,
                     LayoutFileName(rows[i].layoutLink.value))
    {
      DownloadAtIndex(rows, i, base);
    }
    if |rows| > 0 {
      DownloadsSkipAbsentLinks(rows[..|rows| - 1], base);
      assert forall r :: r in rows[..|rows| - 1] ==> r in rows;
      assert rows[|rows| - 1] in rows;
    }
  }

  lemma {:induction false} AllAbsentMeansNoDownloads(rows: seq<Row>, base: string)
    requires forall k :: 0 <= k < |rows| ==> rows[k].layoutLink.None?
    ensures Downloads(rows, base) == []
  {
    if |rows| > 0 {
      AllAbsentMeansNoDownloads(rows[..|rows| - 1], base);
    }
  }
}
