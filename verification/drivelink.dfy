/**
 `extract_id` of both download scripts: the regular expressions
 `https://drive.google.com/file/d/([a-zA-Z0-9_-]+)` and
 `https://drive.google.com/drive/folders/([a-zA-Z0-9_-]+)` applied with `re.match`
 (anchored at the start of the link, free at its end), written out as a prefix
 test followed by a greedy scan of identifier characters.
 */
module DriveLink {
  import opened Wrappers
  import opened PyStr

  /** The second component of the returned pair: `"file"` or `"folder"`. */
  datatype Kind = File | Folder

  const FilePrefix: string := "https://drive.google.com/file/d/"
  const FolderPrefix: string := "https://drive.google.com/drive/folders/"

  function PrefixOf(k: Kind): string {
    match k
    case File => FilePrefix
    case Folder => FolderPrefix
  }

  /** The character class `[a-zA-Z0-9_-]`. */
  predicate IsIdChar(c: char) {
    'a' <= c <= 'z' || 'A' <= c <= 'Z' || '0' <= c <= '9' || c == '_' || c == '-'
  }

  /** A non-empty run of identifier characters: what group 1 can capture. */
  predicate IsId(s: string) {
    |s| > 0 && forall k :: 0 <= k < |s| ==> IsIdChar(s[k])
  }

  /** The greedy `[a-zA-Z0-9_-]*`: the longest prefix of `s` made of identifier characters. */
  function IdRun(s: string): (r: string)
    ensures StartsWith(s, r)
    ensures forall k :: 0 <= k < |r| ==> IsIdChar(r[k])
    ensures |r| == |s| || !IsIdChar(s[|r|])
  {
    if |s| > 0 && IsIdChar(s[0]) then [s[0]] + IdRun(s[1..]) else ""
  }

  /** `re.match(prefix + "([a-zA-Z0-9_-]+)", link)`: group 1, or `None` when there is no match. */
  function MatchPrefixed(link: string, prefix: string): Option<string> {
    if StartsWith(link, prefix) then
      var run := IdRun(link[|prefix|..]);
      if |run| > 0 then Some(run) else None
    else None
  }

  /** `link` begins with `prefix` immediately followed by at least one identifier character. */
  predicate Matches(link: string, prefix: string) {
    StartsWith(link, prefix) && |link| > |prefix| && IsIdChar(link[|prefix|])
  }

  /**
   `extract_id(link)`: `(id, "file")`, `(id, "folder")` or `(None, None)`.
   The kind is reported exactly when the link matches that pattern, the id is
   then the whole identifier run after the prefix, and the two components are
   absent together.
   */
  function ExtractId(link: string): (r: (Option<string>, Option<Kind>))
    ensures r.1 == Some(File) <==> Matches(link, FilePrefix)
    ensures r.1 == Some(Folder) <==> Matches(link, FolderPrefix)
    ensures r.0.None? <==> r.1.None?
    ensures r.0.Some? ==>
      (IsId(r.0.value)
       && StartsWith(link, PrefixOf(r.1.value) + r.0.value)
       && var end := |PrefixOf(r.1.value)| + |r.0.value|;
          (end == |link| || !IsIdChar(link[end])))
  {
    PrefixesExclusive(link);
    var asFile := MatchPrefixed(link, FilePrefix);
    var asFolder := MatchPrefixed(link, FolderPrefix);
    if asFile.Some? then (asFile, Some(File))
    else if asFolder.Some? then (asFolder, Some(Folder))
    else (None, None)
  }

  /** No link starts with both prefixes: they part at `file/` versus `drive/`. */
  lemma PrefixesExclusive(link: string)
    ensures !(StartsWith(link, FilePrefix) && StartsWith(link, FolderPrefix))
  {
    assert FilePrefix[25] == 'f' && FolderPrefix[25] == 'd';
    assert StartsWith(link, FilePrefix) ==> link[25] == 'f';
  }

  /** The scan takes a whole identifier and stops at the first character outside the class. */
  lemma {:induction false} IdRunOfId(id: string, rest: string)
    requires forall k :: 0 <= k < |id| ==> IsIdChar(id[k])
    requires |rest| == 0 || !IsIdChar(rest[0])
    ensures IdRun(id + rest) == id
  {
    if |id| > 0 {
      assert (id + rest)[1..] == id[1..] + rest;
      IdRunOfId(id[1..], rest);
    } else {
      assert id + rest == rest;
    }
  }

  /**
   A link built from a kind's prefix, an identifier and any tail that does not
   continue the identifier (such as `/view?usp=sharing`) parses back to that
   identifier and kind.
   */
  lemma ExtractIdOfLink(k: Kind, id: string, rest: string)
    requires IsId(id)
    requires |rest| == 0 || !IsIdChar(rest[0])
    ensures ExtractId(PrefixOf(k) + id + rest) == (Some(id), Some(k))
  {
    var link := PrefixOf(k) + id + rest;
    assert link[|PrefixOf(k)|..] == id + rest;
    assert StartsWith(link, PrefixOf(k));
    IdRunOfId(id, rest);
    PrefixesExclusive(link);
  }
}
