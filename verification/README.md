# endorsementAutomation in Dafny

A model of the four scripts that move one batch of endorsement requests from a
spreadsheet to stamped PDFs:

- `createEndorsementDirectory.py` makes one numbered folder per spreadsheet row,
  named after the person's sanitised name.
- `downloadAllFiles.py` reads each row's Google Drive link, classifies it as a
  file or folder link, decides which Drive items are images, and downloads
  direct PDF links.
- `downloadLayout.py` downloads each row's layout link into the person's folder.
  The file defines `extract_id`, `download_pdf` and the Drive helpers twice,
  and Python keeps the second definitions, so that block is the one modelled.
  `main` is defined once.
- `run.py` walks the batch folder. In every subfolder it picks a layout PDF and
  the photos, stamps every layout page at a fixed resolution and offset,
  puts the pages on landscape A4, and appends one fitted, centred page per
  photo.

The Python built-ins these scripts rely on are modelled from their documented
behaviour in `PyStr` and `PyPath`, and sorting in `StrOrder`:

- `str.split`, `str.replace`, `str.strip`, `str.lower` and `str(int)`
- `os.path.join`, `basename` and `splitext`, with Windows path rules
- `list.sort` on strings

Geometry is over exact reals.

Modules, one per file:

| file | module | models |
|---|---|---|
| wrappers.dfy | Wrappers | `Option`, `Result` |
| pystr.dfy | PyStr | string built-ins |
| pypath.dfy | PyPath | Windows `os.path` |
| strorder.dfy | StrOrder | string order and `sorted` |
| drivelink.dfy | DriveLink | `extract_id` |
| downloadallfiles.dfy | DownloadAllFiles | `is_image_file`, `download_pdf` naming, the row loop of `main` |
| downloadlayout.dfy | DownloadLayout | the second `download_pdf`, the row loop of `main` |
| endorsementdirectory.dfy | EndorsementDirectory | `sanitize_folder_name`, folder numbering |
| geometry.dfy | Geometry | stamp size and position, photo fit and centring |
| assembly.dfy | Assembly | page sequence of `process_pdf_with_stamp_and_images` |
| subfolders.dfy | Subfolders | `process_all_subfolders`, derived file names |
| pipeline.dfy | Pipeline | how the scripts' files meet on disk |

## Model

| member | source | states |
|---|---|---|
| DriveLink.ExtractId | downloadAllFiles.py:36-48 | The kind is `file` exactly when the link starts with the file prefix followed by an identifier character, and likewise for `folder`. The id and the kind are absent together. A reported id is a non-empty run of `[a-zA-Z0-9_-]`: it directly follows its prefix and is maximal. |
| DriveLink.PrefixesExclusive | downloadAllFiles.py:43-46 | No link starts with both prefixes, so the `elif` order never matters. |
| DriveLink.ExtractIdOfLink | downloadLayout.py:134-146 | Round trip: prefix + id + anything not starting with an id character yields exactly that id and kind. |
| DriveLink.IdRunOfId | downloadAllFiles.py:37-38 | The greedy `+` group stops exactly at the first non-identifier character. |
| DownloadAllFiles.IsImageFile | downloadAllFiles.py:51-67 | True when the lower-cased name has one of the 18 listed extensions. Otherwise the MIME type decides, by prefix `image/`. With neither, false. |
| DownloadAllFiles.IsImageFileIgnoresCase | downloadAllFiles.py:59 | Lower-casing the name never changes the verdict. |
| DownloadAllFiles.ImageExtensionMatch | downloadAllFiles.py:53-60 | The extension test holds exactly when the lower-cased name ends with a listed extension preceded by a non-dot character of its last component. |
| DownloadAllFiles.LeadingDotNameFallsBackToMime | downloadAllFiles.py:58-65 | A dot-file such as `.PNG` has no extension, so only the MIME type can make it an image. |
| DownloadAllFiles.PdfFileName | downloadAllFiles.py:75 | The saved name is the text after the link's last `/`. It contains no `/`. |
| DownloadAllFiles.PdfFileNameKeepsExtension | downloadAllFiles.py:248-249 | A link passing the `.pdf` guard is saved under a name ending in `.pdf`. |
| DownloadAllFiles.Outcome | downloadAllFiles.py:208-249 | A row is rejected exactly when its Drive link does not parse, and its record is the person, `Invalid Google Drive link` and the link. A processed row carries the person, the parsed id and kind, and the folder `base` joined with the person's name. It downloads a PDF exactly when its layout link ends in `.pdf`, from that link into the folder under the text after the link's last `/`. |
| DownloadAllFiles.Fetches | downloadAllFiles.py:208-249 | Each fetch is the outcome of one of the rows. Their number plus the invalid links is the row count. |
| DownloadAllFiles.Rejections | downloadAllFiles.py:214-218 | There are as many failure records as rows whose Drive link does not parse. |
| DownloadAllFiles.RowAtIndex | downloadAllFiles.py:208-221 | Each row gives exactly its own result, in sheet order. A row with an unparseable link gives the failure numbered by the count of such rows before it, with its person and link. Any other row gives its own fetch, numbered by the count of parseable rows before it. |
| DownloadAllFiles.PlanDownloads | downloadAllFiles.py:204-221 | Each row is either rejected or processed, in sheet order. `processed_entries` counts the processed rows. Processed rows plus invalid-link failures equal the row count. |
| DownloadAllFiles.RejectionsRecordInvalidLinks | downloadAllFiles.py:216-218 | Every failure record names its row's person and link, under the text `Invalid Google Drive link`. |
| DownloadLayout.LayoutFileName | downloadLayout.py:156 | As written: the second-to-last `/` piece. It exists exactly when the link has a `/`, which makes `[-2]` legal; otherwise nothing is saved. The name contains no `/`. The link ends with the name, a `/` and the last piece, and the name starts the link or follows a `/`. |
| DownloadLayout.CorrectedLayoutFileName | downloadLayout.py:155-156 | The intended name: the same piece with `.pdf` appended. It exists exactly when the link has a `/`. |
| DownloadLayout.LayoutFileNameOfDriveFileLink | downloadLayout.py:149-165 | For `…/file/d/<id>/<tail>` the saved name is the id that `extract_id` reports. The shadowed first definition would have used the tail. |
| DownloadLayout.Downloads | downloadLayout.py:208-220 | One download per row with a present link. |
| DownloadLayout.DownloadsSkipAbsentLinks | downloadLayout.py:208-220 | Rows whose link is `None` are skipped. The row at index `i` with a link gives the download numbered by the count of links before it: its own link, into `base` joined with its name, saved under the second-to-last piece as written. |
| DownloadLayout.AllAbsentMeansNoDownloads | downloadLayout.py:210-212 | A sheet without links downloads nothing. |
| EndorsementDirectory.Substitute | createEndorsementDirectory.py:19 | Length is kept. Each forbidden character becomes `_` and every other character is kept. |
| EndorsementDirectory.Sanitize | createEndorsementDirectory.py:17-20 | No forbidden character survives. The result is the substituted name with its edge whitespace removed, and it has none left. |
| EndorsementDirectory.SanitizeIdempotent | createEndorsementDirectory.py:17-20 | Sanitising twice equals sanitising once. |
| EndorsementDirectory.SanitizeKeepsEdgeControlCharacters | createEndorsementDirectory.py:19-20 | Edge tabs and newlines become `_` before `strip` sees them. |
| EndorsementDirectory.FolderName | createEndorsementDirectory.py:23-26 | The folder name is a run of digits without leading zero that reads back as the row index plus one, then directly `_` and the sanitised name. It has no path separator, so it adds exactly one path level. |
| EndorsementDirectory.FolderNameInjective | createEndorsementDirectory.py:23-26 | Distinct rows never share a folder. |
| Geometry.StampBox | run.py:25-41 | The stamp measures its pixel size at 295 by 301 dpi in 72-point inches. Its top-right corner is 12 points left of and 47 points below the page's top-right corner. |
| Geometry.StampIsReproducible | run.py:36-41 | Every page gets the same stamp size at the same offset from its top-right corner. |
| Geometry.StampOnPageIff | run.py:40-41 | The stamp's corner is on the page exactly when the stamp fits inside the insets. |
| Geometry.LandscapeA4IsLandscape | run.py:71-72 | `landscape(A4)` is wider than tall. |
| Geometry.FitBox | run.py:107-122 | The photo keeps its aspect ratio. It fills the page's width when relatively wider, and its height otherwise. It is centred on the other axis and lies within the page. |
| Geometry.FitIsLargest | run.py:111-118 | No larger copy of the photo fits on the page. |
| Assembly.StampPage | run.py:12-64 | A stamped page keeps its base page and size. The stamp measures its pixel size at the stamp's resolution, and its top-right corner sits at the fixed insets from the page's top-right corner. |
| Assembly.ToLandscapeA4 | run.py:69-74 | Every converted page has landscape A4 size. |
| Assembly.PhotoPage | run.py:97-130 | A photo of zero height fails, through the division by zero. Any other photo becomes one landscape A4 page showing it at the fitted, centred box `FitBox` gives. |
| Assembly.Compose | run.py:78-135 | The output is the stamped, converted layout pages in order, then one page per photo in the given order. It succeeds exactly when no photo has zero height, and otherwise reports the first such photo. |
| Assembly.ComposedPagesAreLandscapeA4 | run.py:92-130 | Every page of the output is landscape A4. |
| Assembly.ComposedPagesRecoverInputs | run.py:83-130 | The output gives back the layout pages and then the photo paths, each in order. |
| Assembly.StampVisibleOnLandscapeA4 | run.py:40-41 | Merging at the origin keeps the stamp's coordinates, so the stamp is on the landscape page exactly when it fits there relative to the original page's corner. |
| Assembly.StampLostOnPortraitPage | run.py:40-41 | On a portrait A4 layout page, a stamp up to 199 points tall ends up above the landscape page. |
| Subfolders.LastLayout | run.py:152-155 | The layout is the last listed name ending in any case of `.pdf`. There is none exactly when no name ends that way. |
| Subfolders.ImageNames | run.py:156-157 | Exactly the non-layout names ending in `.png`, `.jpg` or `.jpeg`. |
| Subfolders.ImageNamesKeepsOrder | run.py:152-157 | Filtering keeps listing order: filtering a concatenation concatenates the filtered parts. |
| Subfolders.Classify | run.py:149-157 | The forward scan, which overwrites the layout and appends photos, yields the last layout and the photos in listing order. |
| Subfolders.SubfolderJob | run.py:159-168 | A job exists exactly when there is a layout and at least one photo. Its photos are sorted and are a permutation of the listed ones. Its layout is the folder joined with the last listed layout name. It names its subfolder, and its output is `OutputPath` of the layout: the output folder joined with `<stem> - Endorsed.pdf`. Its temporary path is the as-written one, which equals the layout exactly when the layout has no lower-case `.pdf`. |
| Subfolders.Plan | run.py:146-173 | Plain files add nothing. The jobs and the `no_output_folders` entries together number exactly the subfolders. |
| Subfolders.PlanPartitionsSubfolders | run.py:146-173 | Plain files are ignored. Every subfolder becomes either a job or a `no_output_folders` entry, never both and never neither. |
| Subfolders.OutputPath | run.py:163-165 | The output path is the output folder joined with its own base name, one level down. That base name is the layout's base name without extension, followed by ` - Endorsed.pdf`. |
| Subfolders.OutputPathOfLayout | run.py:163-165 | The layout `stem.PDF`, in any case, gives `<output>\stem - Endorsed.pdf`. |
| Subfolders.SortPathsSortsNames | run.py:160-161 | Sorting full paths in one folder is sorting the file names. |
| Subfolders.SortTwoPhotos | run.py:161 | `b.jpg, a.jpg` sorts to `a.jpg, b.jpg`. |
| Subfolders.AsWrittenTempPath | run.py:88 | As written, the temporary path equals the layout exactly when the layout has no lower-case `.pdf`. Where `.pdf` occurs only as the final extension, it is replaced by `_stamped.pdf`. |
| Subfolders.UpperCaseLayoutOverwritten | run.py:88-138 | `1_Ann\Layout.PDF` is accepted as a layout, and its temporary path is itself. |
| Subfolders.TempPath | run.py:88 | The intended temporary path differs from the layout. It keeps the layout's stem and ends in `_stamped.pdf`. |
| Subfolders.TempPathAgreesOnLowerCase | run.py:88 | Where `.pdf` occurs only as the final extension, the code as written and the intended path coincide. |
| StrOrder.Sort | run.py:161 | The result is sorted and is a permutation of the input. |
| StrOrder.SortedUnique | run.py:161 | Two sorted permutations of each other are equal, so the photo order is fully determined. |
| PyPath.ExtOfLower | downloadAllFiles.py:59 | Lower-casing commutes with taking the extension. |
| Pipeline.DownloadedPdfIsLayout | downloadAllFiles.py:248-249 | A PDF saved from a direct `.pdf` link is picked up as the layout by `run.py`. |
| Pipeline.AsWrittenDriveLayoutIgnored | downloadLayout.py:156 | As written, a Drive file link saves the layout under the bare id, so a folder holding it and photos has no layout. |
| Pipeline.CorrectedDriveLayoutUsed | downloadLayout.py:156 | With `.pdf` appended, that file is the layout, and the output is named `<id> - Endorsed.pdf`. |
| Pipeline.FolderJoinsCleanly | createEndorsementDirectory.py:25-26 | The base name of the joined folder path is the folder name. |

## Left out

- Google Drive access is not modelled. This covers OAuth, the `token.pickle` cache, file metadata, folder listing and media download (`authenticate_gdrive`, `download_file_from_gdrive`, `download_images_in_folder`, `download_images_recursively` and its depth limit, `download_files_in_folder`). It is all network I/O. Only the pure decisions that steer it are modelled.
- HTTP fetches, writes to disk, `os.makedirs`, `os.path.exists` and all printing are not modelled. Their effects are outside the program's logic.
- Reading the spreadsheet with pandas is not modelled. Rows arrive as values. An empty cell is modelled as `None`, although pandas yields `NaN`, which is truthy and is not `None`. In the layout script, `NaN` would reach `re.match` and raise. In `downloadAllFiles.py`, an empty `G.Drive Link` reaches `re.match` through `extract_id` at line 214 and raises. An empty `Layout Link` is a truthy `NaN`, so `drawing_link.endswith` at line 248 raises. Either one ends the whole run.
- Directory listings arrive as sequences in whatever order `os.listdir` returns. That order is unspecified.
- PDF parsing and writing (PyPDF2), image decoding (PIL) and drawing (reportlab) are modelled only as the page sequence and boxes they produce. Pages are abstract values.
- The stamp's temporary PNG named from the clock and the shared `image.pdf` scratch file are not modelled. Both are file I/O with names from the clock or a constant.
- Geometry.FitBox: computed over exact reals, not IEEE doubles, so rounding in `/` and `*` is not modelled.
- Assembly.Compose: a zero-height photo is the only failure modelled. Unreadable files and other library errors are not.
- PyStr.Lower: ASCII letters only. The only non-ASCII characters Python lowers into ASCII are KELVIN SIGN (to `k`) and `İ` (to `i` plus a combining dot). Neither can complete a `.pdf` suffix, an image suffix or a listed extension, so the tests modelled are unaffected.
- PyPath.PathJoin: drive letters and UNC prefixes of Windows paths are not modelled. A rooted second part (starting with `/` or `\`) replaces the first, as `ntpath.join` does, but a drive such as `C:` is treated as an ordinary name.
- DownloadAllFiles.PlanDownloads: only the invalid-link failure records are modelled. The records `main` appends when a Drive request fails (`Error checking file`, a failed file download, or failures from `download_images_in_folder`) come from network I/O and are not.
- Subfolders.PlanPartitionsSubfolders: describes a run in which every job returns. A zero-height photo, or any other library error, raises out of `process_pdf_with_stamp_and_images`. Nothing catches it, so the batch ends there: later subfolders are not processed, `no_output_folders` is not printed, and the temporary file is left behind.
- Subfolders.SortPathsSortsNames: requires the listed names not to start with a path separator, which `os.listdir` guarantees.
- DriveLink.ExtractId: its result is computed but unused in the layout script's `main`, which downloads every present link regardless.

## Findings

| source | as written | input that shows it | evidently intended | confidence | as-written member | corrected member |
|---|---|---|---|---|---|---|
| run.py:88 | The temporary path is `layout_pdf.replace(".pdf", "_stamped.pdf")`, which is case-sensitive, while line 154 accepts any case of `.pdf`. | The layout `1_Ann\Layout.PDF`: the temporary path equals the layout. The stamped pages overwrite the original, and line 138 then deletes it. | Replace the layout's own extension, whatever its case, by `_stamped.pdf`. | not executed | Subfolders.AsWrittenTempPath, Subfolders.UpperCaseLayoutOverwritten | Subfolders.TempPath |
| downloadLayout.py:156 | The saved name is `pdf_url.split("/")[-2]`, with no suffix, although the comment says `.pdf` is appended. | `https://drive.google.com/file/d/abc/view`: the file is saved as `abc`, and `run.py` finds no layout in that folder. | The piece with `.pdf` appended. | not executed | Pipeline.AsWrittenDriveLayoutIgnored, DownloadLayout.LayoutFileName | DownloadLayout.CorrectedLayoutFileName, Pipeline.CorrectedDriveLayoutUsed |
