/**
 The `os.path` operations the scripts use, as Python's Windows flavour (`ntpath`)
 defines them for paths without a drive letter: `join`, `basename` and
 `splitext`.
 */
module PyPath {
  import opened PyStr

  /** The path separators of `ntpath`; `os.sep` is the backslash. */
  const Seps: set<char> := {'\\', '/'}
  const Sep: char := '\\'

  /** Python `s.rfind(c)` generalised to a set of characters: the last index holding one of them, or -1. */
  function RFind(s: string, cs: set<char>): (i: int)
    ensures -1 <= i < |s|
    ensures i >= 0 ==> s[i] in cs
    ensures forall k :: i < k < |s| ==> s[k] !in cs
  {
    if |s| == 0 then -1
    else if s[|s| - 1] in cs then |s| - 1
    else RFind(s[..|s| - 1], cs)
  }

  /**
   `os.path.join(dir, name)` for paths without a drive: a rooted `name` (one
   starting with a separator) replaces `dir`; otherwise `name` is appended,
   after a backslash unless `dir` is empty or already ends with a separator.
   */
  function PathJoin(dir: string, name: string): string {
    if |name| > 0 && name[0] in Seps then name
    else if |dir| == 0 || dir[|dir| - 1] in Seps then dir + name
    else dir + [Sep] + name
  }

  /** A name that does not start with a separator: joining it appends it. */
  predicate IsRelative(name: string) {
    |name| == 0 || name[0] !in Seps
  }

  /** `os.path.basename(p)`: the text after the last separator. */
  function Basename(p: string): string {
    p[RFind(p, Seps) + 1..]
  }

  /**
   `os.path.splitext(p)`: the extension starts at the last dot of the last path
   component, provided that component has a character other than a dot before it
   (so a leading-dot name such as `.png` has no extension).
   */
  function SplitExt(p: string): (string, string) {
    var sep := RFind(p, Seps);
    var dot := RFind(p, {'.'});
    if sep < dot && exists k :: sep < k < dot && p[k] != '.' then (p[..dot], p[dot..])
    else (p, "")
  }

  function Ext(p: string): string {
    SplitExt(p).1
  }

  function Root(p: string): string {
    SplitExt(p).0
  }

  /** The two halves of `splitext` put back together give the path; the extension is empty or one dot and then neither a dot nor a separator. */
  lemma SplitExtShape(p: string)
    ensures Root(p) + Ext(p) == p
    ensures var e := Ext(p);
      e == "" || (e[0] == '.' && forall k :: 0 < k < |e| ==> e[k] != '.' && e[k] !in Seps)
  {
    var sep := RFind(p, Seps);
    var dot := RFind(p, {'.'});
    if sep < dot && exists k :: sep < k < dot && p[k] != '.' {
      var e := p[dot..];
      assert forall k :: 0 < k < |e| ==> e[k] == p[dot + k];
    }
  }

  /** A word that is one dot followed by neither dots nor separators, as every extension in the scripts is. */
  predicate IsDottedSuffix(e: string) {
    |e| >= 1 && e[0] == '.' && forall k :: 0 < k < |e| ==> e[k] != '.' && e[k] !in Seps
  }

  /** The last path component of `stem` holds a character other than a dot. */
  predicate HasNonDotInLastComponent(stem: string) {
    exists k :: RFind(stem, Seps) < k < |stem| && stem[k] != '.'
  }

  /**
   The extension of `p` is the dotted suffix `e` exactly when `p` ends with `e`
   and what precedes `e` in its last component is not all dots.
   */
  lemma {:induction false} ExtIsDottedSuffix(p: string, e: string)
    requires IsDottedSuffix(e)
    ensures Ext(p) == e <==> EndsWith(p, e) && HasNonDotInLastComponent(p[..|p| - |e|])
  {
    var sep := RFind(p, Seps);
    var dot := RFind(p, {'.'});
    if EndsWith(p, e) {
      var stem := p[..|p| - |e|];
      var start := |p| - |e|;
      assert p[start] == '.';
      assert forall k :: start < k < |p| ==> p[k] == e[k - start];
      assert dot == start;
      assert RFind(stem, Seps) == sep by {
        RFindOfExtension(stem, e);
        assert p == stem + e;
      }
      assert HasNonDotInLastComponent(stem) <==> exists k :: sep < k < dot && p[k] != '.' by {
        if HasNonDotInLastComponent(stem) {
          var k :| RFind(stem, Seps) < k < |stem| && stem[k] != '.';
          assert p[k] == stem[k];
        }
        if exists k :: sep < k < dot && p[k] != '.' {
          var k :| sep < k < dot && p[k] != '.';
          assert stem[k] == p[k];
        }
      }
    } else {
      if Ext(p) == e {
        SplitExtShape(p);
        assert false;
      }
    }
  }

  /** Appending an extension moves no separator: the last separator of `stem + e` is the last separator of `stem`. */
  lemma {:induction false} RFindOfExtension(stem: string, e: string)
    requires IsDottedSuffix(e)
    ensures RFind(stem + e, Seps) == RFind(stem, Seps)
    decreases |e|
  {
    if |e| > 0 {
      var p := stem + e;
      assert p[..|p| - 1] == stem + e[..|e| - 1];
      if |e| == 1 {
        assert p[..|p| - 1] == stem;
      } else {
        assert IsDottedSuffix(e[..|e| - 1]);
        RFindOfExtension(stem, e[..|e| - 1]);
      }
    }
  }

  /** The base name of a joined path is the file name that was joined on. */
  lemma BasenameOfJoin(dir: string, name: string)
    requires forall k :: 0 <= k < |name| ==> name[k] !in Seps
    ensures Basename(PathJoin(dir, name)) == name
  {
    var p := PathJoin(dir, name);
    var i := RFind(p, Seps);
    assert i == |p| - |name| - 1 || (|dir| == 0 && i == -1) by {
      assert forall k :: |p| - |name| <= k < |p| ==> p[k] == name[k - (|p| - |name|)];
      if |dir| > 0 {
        assert p[|p| - |name| - 1] in Seps;
      }
    }
  }

  /** Lower-casing moves no dot and no separator, so `splitext` and `lower` commute. */
  lemma {:induction false} RFindOfLower(s: string, cs: set<char>)
    requires forall c :: c in cs <==> LowerChar(c) in cs
    ensures RFind(Lower(s), cs) == RFind(s, cs)
  {
    if |s| > 0 {
      assert Lower(s)[..|s| - 1] == Lower(s[..|s| - 1]);
      RFindOfLower(s[..|s| - 1], cs);
    }
  }

  lemma ExtOfLower(p: string)
    ensures Ext(Lower(p)) == Lower(Ext(p))
  {
    var lp := Lower(p);
    forall c ensures c in Seps <==> LowerChar(c) in Seps {}
    forall c ensures c in {'.'} <==> LowerChar(c) in {'.'} {}
    RFindOfLower(p, Seps);
    RFindOfLower(p, {'.'});
    var sep := RFind(p, Seps);
    var dot := RFind(p, {'.'});
    assert (exists k :: sep < k < dot && lp[k] != '.') <==> (exists k :: sep < k < dot && p[k] != '.') by {
      assert forall k :: 0 <= k < |p| ==> (lp[k] != '.' <==> p[k] != '.');
    }
    if sep < dot && exists k :: sep < k < dot && p[k] != '.' {
      assert lp[dot..] == Lower(p[dot..]);
    }
  }
}
