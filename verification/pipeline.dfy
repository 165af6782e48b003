/**
 How the scripts meet on disk: the folders `createEndorsementDirectory.py`
 names, the PDFs the two download scripts save, and the listing `run.py`
 classifies.
 */
module Pipeline {
  import opened Wrappers
  import opened PyStr
  import opened PyPath
  import opened DriveLink
  import opened DownloadAllFiles
  import opened DownloadLayout
  import opened EndorsementDirectory
  import opened Subfolders

  /** A direct PDF link that `downloadAllFiles.py` saves is picked up as the layout by `run.py`. */
  lemma DownloadedPdfIsLayout(url: string)
    requires EndsWith(url, ".pdf")
    ensures IsLayoutName(PdfFileName(url))
  {
    PdfFileNameKeepsExtension(url);
    LowerCaseSuffixIsLayoutName(PdfFileName(url));
  }

  /** An id holds no dot, so no capitalisation of `.pdf` ends it. */
  lemma IdIsNotLayoutName(id: string)
    requires IsId(id)
    ensures !IsLayoutName(id)
  {
    if |id| >= 4 {
      var k := |id| - 4;
      assert Lower(id)[k] == LowerChar(id[k]);
      LowerCharKeepsPunctuation(id[k]);
      assert IsIdChar(id[k]);
    }
  }

  /**
   As written, `downloadLayout.py` saves the layout behind a Drive file link
   under the bare id, which `run.py` does not recognise as a layout: a subfolder
   holding only that file and photos produces no output.
   */
  lemma AsWrittenDriveLayoutIgnored(id: string, tail: string, images: seq<string>)
    requires IsId(id) && '/' !in tail
    requires forall k :: 0 <= k < |images| ==> IsImageName(images[k])
    ensures LayoutFileName(DriveFileLink(id, tail)) == Some(id)
    ensures LastLayout([id] + images).None?
  {
    LayoutFileNameOfDriveFileLink(id, tail);
    IdIsNotLayoutName(id);
    var names := [id] + images;
    forall k | 0 <= k < |names| ensures !IsLayoutName(names[k]) {
      if k > 0 {
        assert names[k] == images[k - 1];
      }
    }
  }

  /** With `.pdf` appended, the same file is the subfolder's layout and names the output after the id. */
  lemma CorrectedDriveLayoutUsed(id: string, tail: string, dir: string, outputFolder: string)
    requires IsId(id) && '/' !in tail
    ensures CorrectedLayoutFileName(DriveFileLink(id, tail)) == Some(id + ".pdf")
    ensures IsLayoutName(id + ".pdf")
    ensures OutputPath(outputFolder, PathJoin(dir, id + ".pdf")) == PathJoin(outputFolder, id + " - Endorsed.pdf")
  {
    LayoutFileNameOfDriveFileLink(id, tail);
    assert (id + ".pdf")[..|id + ".pdf"| - 4] == id;
    LowerCaseSuffixIsLayoutName(id + ".pdf");
    assert forall k :: 0 <= k < |id| ==> IsIdChar(id[k]);
    assert id[0] != '.';
    OutputPathOfLayout(outputFolder, dir, id, ".pdf");
  }

  /** The numbered folder made for a row is one level below the output directory, under its own name. */
  lemma FolderJoinsCleanly(dir: string, index: nat, name: string)
    ensures Basename(PathJoin(dir, FolderName(index, name))) == FolderName(index, name)
  {
    BasenameOfJoin(dir, FolderName(index, name));
  }
}
