/**
 `process_all_subfolders` of `run.py`: how each subfolder's listing is split
 into a layout PDF and photos, when an endorsed PDF is produced, and the file
 names that are derived for it. Directory listings are given as sequences.
 */
module Subfolders {
  import opened Wrappers
  import opened PyStr
  import opened PyPath
  import opened StrOrder

  // ---------------------------------------------------------------------------
  // Classification of one listing
  // ---------------------------------------------------------------------------

  /** `file_name.lower().endswith(".pdf")`. */
  predicate IsLayoutName(name: string) {
    EndsWith(Lower(name), ".pdf")
  }

  /** The `elif` test: `file_name.lower().endswith((".png", ".jpg", ".jpeg"))` on a name that is not a layout. */
  predicate IsImageName(name: string) {
    !IsLayoutName(name)
    && (EndsWith(Lower(name), ".png") || EndsWith(Lower(name), ".jpg") || EndsWith(Lower(name), ".jpeg"))
  }

  /** The index of the last layout name, searching from the end. */
  function LastLayout(names: seq<string>): (r: Option<nat>)
    ensures r.None? <==> forall k :: 0 <= k < |names| ==> !IsLayoutName(names[k])
    ensures r.Some? ==>
      (r.value < |names| && IsLayoutName(names[r.value])
       && forall k :: r.value < k < |names| ==> !IsLayoutName(names[k]))
  {
    if |names| == 0 then None
    else if IsLayoutName(names[|names| - 1]) then Some(|names| - 1)
    else
      var init := names[..|names| - 1];
      assert forall k :: 0 <= k < |init| ==> init[k] == names[k];
      LastLayout(init)
  }

  /** The image names of a listing, in listing order. */
  function ImageNames(names: seq<string>): (r: seq<string>)
    ensures |r| <= |names|
    ensures forall x :: x in r <==> x in names && IsImageName(x)
  {
    if |names| == 0 then []
    else
      var last := names[|names| - 1];
      assert names == names[..|names| - 1] + [last];
      ImageNames(names[..|names| - 1]) + (if IsImageName(last) then [last] else [])
  }

  /**
   The photo filter keeps listing order: filtering a concatenation is
   concatenating the filtered parts.
   */
  lemma {:induction false} ImageNamesKeepsOrder(a: seq<string>, b: seq<string>)
    ensures ImageNames(a + b) == ImageNames(a) + ImageNames(b)
    decreases |b|
  {
    if |b| == 0 {
      assert a + b == a;
    } else {
      var init, x := b[..|b| - 1], b[|b| - 1];
      var kept := if IsImageName(x) then [x] else [];
      var ab := a + b;
      assert ImageNames(ab) == ImageNames(a + init) + kept by {
        assert ab[..|ab| - 1] == a + init;
        assert ab[|ab| - 1] == x;
        ImageNamesStep(ab);
      }
      assert ImageNames(b) == ImageNames(init) + kept by {
        ImageNamesStep(b);
      }
      ImageNamesKeepsOrder(a, init);
    }
  }

  /** One step of the filter from the back. */
  lemma ImageNamesStep(names: seq<string>)
    requires |names| > 0
    ensures var last := names[|names| - 1];
      ImageNames(names) == ImageNames(names[..|names| - 1]) + (if IsImageName(last) then [last] else [])
  {
  }

  /** `os.path.join(dir, n)` for every name of a listing. */
  function JoinAll(dir: string, names: seq<string>): (r: seq<string>)
    ensures |r| == |names|
  {
    seq(|names|, i requires 0 <= i < |names| => PathJoin(dir, names[i]))
  }

  /** The layout path the scan leaves behind: the last layout name listed wins. */
  function LayoutPath(dir: string, names: seq<string>): Option<string> {
    match LastLayout(names)
    case None => None
    case Some(k) => Some(PathJoin(dir, names[k]))
  }

  /**
   The loop over `os.listdir(subfolder_path)`: a layout name overwrites
   `layout_pdf`, an image name is appended to `image_files`, anything else is
   ignored. Its result is the last layout listed and the images in listing order.
   */
  method Classify(dir: string, names: seq<string>) returns (layout: Option<string>, images: seq<string>)
    ensures layout == LayoutPath(dir, names)
    ensures images == JoinAll(dir, ImageNames(names))
  {
    layout, images := None, [];
    var i := 0;
    while i < |names|
      invariant 0 <= i <= |names|
      invariant layout == LayoutPath(dir, names[..i])
      invariant images == JoinAll(dir, ImageNames(names[..i]))
    {
      var name := names[i];
      var path := PathJoin(dir, name);
      ClassifyStep(dir, names, i);
      if IsLayoutName(name) {
        layout := Some(path);
      } else if EndsWith(Lower(name), ".png") || EndsWith(Lower(name), ".jpg") || EndsWith(Lower(name), ".jpeg") {
        images := images + [path];
      }
      i := i + 1;
    }
    assert names[..|names|] == names;
  }

  /** What one more listed name does to the layout and to the photos. */
  lemma ClassifyStep(dir: string, names: seq<string>, i: nat)
    requires i < |names|
    ensures LayoutPath(dir, names[..i + 1])
      == if IsLayoutName(names[i]) then Some(PathJoin(dir, names[i])) else LayoutPath(dir, names[..i])
    ensures JoinAll(dir, ImageNames(names[..i + 1]))
      == JoinAll(dir, ImageNames(names[..i])) + (if IsImageName(names[i]) then [PathJoin(dir, names[i])] else [])
  {
    var pre := names[..i + 1];
    assert pre[..|pre| - 1] == names[..i];
    assert pre[|pre| - 1] == names[i];
    JoinAllAppend(dir, ImageNames(names[..i]), if IsImageName(names[i]) then [names[i]] else []);
  }

  lemma JoinAllAppend(dir: string, a: seq<string>, b: seq<string>)
    ensures JoinAll(dir, a + b) == JoinAll(dir, a) + JoinAll(dir, b)
  {
  }

  // ---------------------------------------------------------------------------
  // Derived names
  // ---------------------------------------------------------------------------

  /** `os.path.join(output_folder, f"{base_name} - Endorsed.pdf")` with `base_name` the layout's base name less its extension. */
  function OutputPath(outputFolder: string, layout: string): (o: string)
    ensures StartsWith(o, outputFolder)
    ensures o == PathJoin(outputFolder, Basename(o))
    ensures Basename(o) == Root(Basename(layout)) + " - Endorsed.pdf"
  {
    var base := Basename(layout);
    var name := Root(base) + " - Endorsed.pdf";
    SplitExtShape(base);
    assert forall k :: 0 <= k < |Root(base)| ==> Root(base)[k] == base[k];
    assert forall k :: 0 <= k < |name| ==> name[k] !in Seps by {
      forall k | 0 <= k < |name| ensures name[k] !in Seps {
        if k < |Root(base)| {
          assert name[k] == base[k] == layout[RFind(layout, Seps) + 1 + k];
        } else {
          assert name[k] == " - Endorsed.pdf"[k - |Root(base)|];
        }
      }
    }
    BasenameOfJoin(outputFolder, name);
    PathJoin(outputFolder, name)
  }

  lemma LowerPdfExtIsDotted(ext: string)
    requires Lower(ext) == ".pdf"
    ensures IsDottedSuffix(ext)
  {
    assert |ext| == 4;
    forall k | 0 <= k < 4 ensures LowerChar(ext[k]) == ".pdf"[k] {
      assert Lower(ext)[k] == LowerChar(ext[k]);
    }
    forall k | 0 <= k < 4 ensures (ext[k] == '.' <==> k == 0) && ext[k] !in Seps {
      LowerCharKeepsPunctuation(ext[k]);
    }
  }

  lemma LowerCharKeepsPunctuation(c: char)
    ensures c == '.' || c in Seps <==> LowerChar(c) == '.' || LowerChar(c) in Seps
    ensures c == '.' <==> LowerChar(c) == '.'
  {
  }

  /**
   For a layout `stem + ext` listed in `dir`, with `ext` any capitalisation of
   `.pdf` and `stem` not all dots, the output is `stem - Endorsed.pdf` in the
   output folder.
   */
  lemma OutputPathOfLayout(outputFolder: string, dir: string, stem: string, ext: string)
    requires Lower(ext) == ".pdf"
    requires forall k :: 0 <= k < |stem| ==> stem[k] !in Seps
    requires exists k :: 0 <= k < |stem| && stem[k] != '.'
    ensures OutputPath(outputFolder, PathJoin(dir, stem + ext)) == PathJoin(outputFolder, stem + " - Endorsed.pdf")
  {
    var name := stem + ext;
    LowerPdfExtIsDotted(ext);
    assert forall k :: 0 <= k < |name| ==> name[k] !in Seps by {
      forall k | 0 <= k < |name| ensures name[k] !in Seps {
        if k >= |stem| {
          assert name[k] == ext[k - |stem|];
        }
      }
    }
    BasenameOfJoin(dir, name);
    RFindOfExtension(stem, ext);
    assert RFind(stem, Seps) == -1;
    assert name[..|name| - |ext|] == stem;
    assert HasNonDotInLastComponent(stem);
    ExtIsDottedSuffix(name, ext);
    SplitExtShape(name);
  }

  /**
   The temporary path as written: `layout_pdf.replace(".pdf", "_stamped.pdf")`.
   It equals the layout exactly when the layout contains no lower-case `.pdf`,
   so the stamped file is then written over the layout and later removed. When
   `.pdf` occurs only as the final extension it is the intended name.
   */
  function AsWrittenTempPath(layout: string): (t: string)
    ensures t == layout <==> !Occurs(layout, ".pdf")
    ensures EndsWith(layout, ".pdf") && !Occurs(layout[..|layout| - 1], ".pdf") ==>
      t == layout[..|layout| - 4] + "_stamped.pdf"
  {
    ReplaceAllLength(layout, ".pdf", "_stamped.pdf");
    if !Occurs(layout, ".pdf") then
      assert !OccursAt(layout, ".pdf", |layout| - 4);
      assert !EndsWith(layout, ".pdf");
      ReplaceAllAbsent(layout, ".pdf", "_stamped.pdf");
      ReplaceAll(layout, ".pdf", "_stamped.pdf")
    else if EndsWith(layout, ".pdf") && !Occurs(layout[..|layout| - 1], ".pdf") then
      ReplaceFinalExtension(layout);
      ReplaceAll(layout, ".pdf", "_stamped.pdf")
    else
      ReplaceAll(layout, ".pdf", "_stamped.pdf")
  }

  /** The concrete case: `Layout.PDF` in subfolder `1_Ann`. */
  lemma UpperCaseLayoutOverwritten()
    ensures IsLayoutName("1_Ann\\Layout.PDF")
    ensures AsWrittenTempPath("1_Ann\\Layout.PDF") == "1_Ann\\Layout.PDF"
  {
    var layout := "1_Ann\\Layout.PDF";
    assert Lower(layout)[|layout| - 4..] == ".pdf";
    assert 'p' !in layout;
    forall i | 0 <= i <= |layout| ensures !OccursAt(layout, ".pdf", i) {
      if i + 4 <= |layout| {
        assert layout[i + 1] in layout;
        assert layout[i..i + 4][1] == layout[i + 1] != ".pdf"[1];
      }
    }
  }

  /** The temporary path intended: the layout's own four-character extension replaced by `_stamped.pdf`. */
  function TempPath(layout: string): (t: string)
    requires IsLayoutName(layout)
    ensures t != layout
    ensures EndsWith(t, "_stamped.pdf")
    ensures StartsWith(t, layout[..|layout| - 4])
  {
    var t := layout[..|layout| - 4] + "_stamped.pdf";
    assert |t| == |layout| + 8;
    assert t[..|layout| - 4] == layout[..|layout| - 4];
    t
  }

  /** Where `.pdf` occurs only as the final extension, the code as written and the intended path agree. */
  lemma TempPathAgreesOnLowerCase(layout: string)
    requires EndsWith(layout, ".pdf")
    requires !Occurs(layout[..|layout| - 1], ".pdf")
    ensures IsLayoutName(layout)
    ensures AsWrittenTempPath(layout) == TempPath(layout)
  {
    LowerCaseSuffixIsLayoutName(layout);
  }

  lemma LowerCaseSuffixIsLayoutName(layout: string)
    requires EndsWith(layout, ".pdf")
    ensures IsLayoutName(layout)
  {
    forall k | |layout| - 4 <= k < |layout| ensures Lower(layout)[k] == layout[k] {
      assert layout[k] == ".pdf"[k - (|layout| - 4)];
    }
  }

  lemma {:induction false} ReplaceFinalExtension(layout: string)
    requires EndsWith(layout, ".pdf")
    requires !Occurs(layout[..|layout| - 1], ".pdf")
    ensures ReplaceAll(layout, ".pdf", "_stamped.pdf") == layout[..|layout| - 4] + "_stamped.pdf"
    decreases |layout|
  {
    if |layout| > 4 {
      var init := layout[..|layout| - 1];
      assert !OccursAt(init, ".pdf", 0);
      assert init[..4] == layout[..4];
      var rest := layout[1..];
      assert rest[..|rest| - 1] == init[1..];
      NoOccurrenceInTail(init, ".pdf");
      ReplaceFinalExtension(rest);
      assert layout[..|layout| - 4] == [layout[0]] + rest[..|rest| - 4];
    } else {
      assert layout == ".pdf";
      assert layout[4..] == "";
    }
  }

  // ---------------------------------------------------------------------------
  // Sorting the photos
  // ---------------------------------------------------------------------------

  /** What `os.path.join(dir, ...)` puts in front of a file name. */
  function DirPrefix(dir: string): string {
    if |dir| == 0 || dir[|dir| - 1] in Seps then dir else dir + [Sep]
  }

  lemma JoinAllIsPrefixing(dir: string, names: seq<string>)
    requires forall n :: n in names ==> IsRelative(n)
    ensures forall i :: 0 <= i < |names| ==> JoinAll(dir, names)[i] == DirPrefix(dir) + names[i]
  {
    forall i | 0 <= i < |names| ensures JoinAll(dir, names)[i] == DirPrefix(dir) + names[i] {
      assert names[i] in names;
    }
  }

  lemma {:induction false} MultisetOfJoinAll(dir: string, a: seq<string>, b: seq<string>)
    requires multiset(a) == multiset(b)
    ensures multiset(JoinAll(dir, a)) == multiset(JoinAll(dir, b))
    decreases |a|
  {
    if |a| > 0 {
      var x := a[0];
      assert x in multiset(b);
      var i :| 0 <= i < |b| && b[i] == x;
      var b' := b[..i] + b[i + 1..];
      MultisetRemoveAt(a, b, i);
      MultisetOfJoinAll(dir, a[1..], b');
      var p := [PathJoin(dir, x)];
      assert a == [x] + a[1..];
      JoinAllAppend(dir, [x], a[1..]);
      assert b == b[..i] + ([x] + b[i + 1..]);
      JoinAllAppend(dir, b[..i], [x] + b[i + 1..]);
      JoinAllAppend(dir, [x], b[i + 1..]);
      JoinAllAppend(dir, b[..i], b[i + 1..]);
      assert JoinAll(dir, [x]) == p;
    } else {
      assert |multiset(b)| == 0;
    }
  }

  /** Taking the first element of `a` out of `b` at an index where it occurs keeps the two permutations of each other. */
  lemma MultisetRemoveAt<T>(a: seq<T>, b: seq<T>, i: nat)
    requires multiset(a) == multiset(b) && |a| > 0 && i < |b| && b[i] == a[0]
    ensures multiset(a[1..]) == multiset(b[..i] + b[i + 1..])
  {
    var b' := b[..i] + b[i + 1..];
    assert a == [a[0]] + a[1..];
    assert b == b[..i] + [b[i]] + b[i + 1..];
    assert multiset(a) == multiset{a[0]} + multiset(a[1..]);
    assert multiset(b) == multiset(b[..i]) + multiset{a[0]} + multiset(b[i + 1..]);
    assert multiset(b') == multiset(b[..i]) + multiset(b[i + 1..]);
    forall y ensures multiset(a[1..])[y] == multiset(b')[y] {
      assert multiset(a)[y] == multiset{a[0]}[y] + multiset(a[1..])[y];
      assert multiset(b)[y] == multiset(b[..i])[y] + multiset{a[0]}[y] + multiset(b[i + 1..])[y];
    }
  }

  /**
   `image_files.sort()` sorts full paths; since every photo is in the same
   folder, that is the order of the file names. Listed names never start with
   a separator.
   */
  lemma SortPathsSortsNames(dir: string, names: seq<string>)
    requires forall n :: n in names ==> IsRelative(n)
    ensures Sort(JoinAll(dir, names)) == JoinAll(dir, Sort(names))
  {
    var sorted := Sort(names);
    assert forall n :: n in sorted ==> n in multiset(names);
    var paths := JoinAll(dir, sorted);
    JoinAllIsPrefixing(dir, sorted);
    forall i, j | 0 <= i < j < |paths| ensures LexLe(paths[i], paths[j]) {
      LexLeCommonPrefix(DirPrefix(dir), sorted[i], sorted[j]);
    }
    MultisetOfJoinAll(dir, sorted, names);
    SortedUnique(Sort(JoinAll(dir, names)), paths);
  }

  /** `["b.jpg", "a.jpg"]` sorts to `["a.jpg", "b.jpg"]`. */
  lemma SortTwoPhotos()
    ensures Sort(["b.jpg", "a.jpg"]) == ["a.jpg", "b.jpg"]
  {
    var expected := ["a.jpg", "b.jpg"];
    assert LexLe("a.jpg", "b.jpg");
    assert Sorted(expected);
    assert multiset(expected) == multiset(["b.jpg", "a.jpg"]);
    SortedUnique(Sort(["b.jpg", "a.jpg"]), expected);
  }

  // ---------------------------------------------------------------------------
  // The batch
  // ---------------------------------------------------------------------------

  /** An entry of `os.listdir(batch_folder)`: its name, whether it is a directory, and its listing. */
  datatype Entry = Entry(name: string, isDir: bool, files: seq<string>)

  /** One call of `process_pdf_with_stamp_and_images` and the names it uses. */
  datatype Job = Job(subfolder: string, layout: string, images: seq<string>, output: string, temp: string)

  /** The jobs run, and `no_output_folders`. */
  datatype Report = Report(jobs: seq<Job>, noOutput: seq<string>)

  /** The job for one subfolder, or `None` when it lacks a layout or any photo. */
  function SubfolderJob(batch: string, outputFolder: string, e: Entry): (r: Option<Job>)
    ensures r.Some? <==> LastLayout(e.files).Some? && |ImageNames(e.files)| > 0
    ensures r.Some? ==>
      (Sorted(r.value.images) && |r.value.images| > 0
       && multiset(r.value.images) == multiset(JoinAll(PathJoin(batch, e.name), ImageNames(e.files)))
       && Some(r.value.layout) == LayoutPath(PathJoin(batch, e.name), e.files)
       && IsLayoutName(r.value.layout)
       && (r.value.temp == r.value.layout <==> !Occurs(r.value.layout, ".pdf")))
    ensures r.Some? ==>
      r.value.subfolder == e.name
      && r.value.output == OutputPath(outputFolder, r.value.layout)
      && r.value.temp == AsWrittenTempPath(r.value.layout)
  {
    var dir := PathJoin(batch, e.name);
    var images := JoinAll(dir, ImageNames(e.files));
    match LayoutPath(dir, e.files)
    case None => None
    case Some(layout) =>
      if |images| == 0 then None
      else
        LayoutPathIsLayoutName(dir, e.files[LastLayout(e.files).value]);
        var sorted := Sort(images);
        assert |sorted| == |images| by {
          assert |multiset(sorted)| == |multiset(images)|;
        }
        Some(Job(e.name, layout, sorted, OutputPath(outputFolder, layout), AsWrittenTempPath(layout)))
  }

  /** A layout name stays a layout name once joined onto its folder. */
  lemma LayoutPathIsLayoutName(dir: string, name: string)
    requires IsLayoutName(name)
    ensures IsLayoutName(PathJoin(dir, name))
  {
    var p := PathJoin(dir, name);
    assert p[|p| - |name|..] == name;
    assert Lower(p)[|p| - 4..] == Lower(name)[|name| - 4..];
  }

  /** The loop over the batch folder: non-directories are skipped, and each subfolder yields one job or one no-output entry. */
  function Plan(batch: string, outputFolder: string, entries: seq<Entry>): (r: Report)
    ensures |r.jobs| + |r.noOutput| == CountDirs(entries)
  {
    if |entries| == 0 then Report([], [])
    else
      var r := Plan(batch, outputFolder, entries[..|entries| - 1]);
      var e := entries[|entries| - 1];
      if !e.isDir then r
      else match SubfolderJob(batch, outputFolder, e)
        case Some(job) => Report(r.jobs + [job], r.noOutput)
        case None => Report(r.jobs, r.noOutput + [e.name])
  }

  function CountDirs(entries: seq<Entry>): nat {
    if |entries| == 0 then 0
    else CountDirs(entries[..|entries| - 1]) + (if entries[|entries| - 1].isDir then 1 else 0)
  }

  /**
   Every subfolder ends up in exactly one place: a job when it has a layout and
   at least one photo, the no-output list otherwise; plain files are ignored.
   */
  lemma {:induction false} PlanPartitionsSubfolders(batch: string, outputFolder: string, entries: seq<Entry>)
    ensures var r := Plan(batch, outputFolder, entries);
      (forall j :: j in r.jobs ==>
            exists e :: e in entries && e.isDir && SubfolderJob(batch, outputFolder, e) == Some(j))
      && (forall n :: n in r.noOutput ==>
            exists e :: e in entries && e.isDir && e.name == n && SubfolderJob(batch, outputFolder, e).None?)
      && (forall e :: e in entries && e.isDir ==>
            match SubfolderJob(batch, outputFolder, e)
            case Some(j) => j in r.jobs
            case None => e.name in r.noOutput)
  {
    if |entries| > 0 {
      var init := entries[..|entries| - 1];
      var last := entries[|entries| - 1];
      PlanPartitionsSubfolders(batch, outputFolder, init);
      assert entries == init + [last];
      assert forall e :: e in init ==> e in entries;
      assert last in entries;
      var r0 := Plan(batch, outputFolder, init);
      var r := Plan(batch, outputFolder, entries);
      if last.isDir {
        match SubfolderJob(batch, outputFolder, last)
        case Some(j) =>
          assert r == Report(r0.jobs + [j], r0.noOutput);
        case None =>
          assert r == Report(r0.jobs, r0.noOutput + [last.name]);
      } else {
        assert r == r0;
      }
    }
  }
}
