/**
 `createEndorsementDirectory.py`: each spreadsheet name is made safe for a
 folder name (`sanitize_folder_name`) and numbered from one by its row index.
 */
module EndorsementDirectory {
  import opened PyStr
  import opened PyPath

  /** The character class `[<>:"/\\|?*\t\n\r]`. */
  const Forbidden: set<char> := {'<', '>', ':', '"', '/', '\\', '|', '?', '*', '\t', '\n', '\r'}

  /** `re.sub(r'[<>:"/\\|?*\t\n\r]', '_', name)`: one `_` in place of each forbidden character. */
  function Substitute(name: string): (r: string)
    ensures |r| == |name|
    ensures forall k :: 0 <= k < |name| ==> r[k] == (if name[k] in Forbidden then '_' else name[k])
  {
    if |name| == 0 then ""
    else Substitute(name[..|name| - 1]) + [if name[|name| - 1] in Forbidden then '_' else name[|name| - 1]]
  }

  /**
   `sanitize_folder_name(name)`: substitution, then `strip()`. The result has no
   forbidden character and no whitespace at either end, and is what remains of
   the substituted name once its edge whitespace is removed. Since tab, newline
   and carriage return are substituted first, at an edge they become `_`.
   */
  function Sanitize(name: string): (r: string)
    ensures forall k :: 0 <= k < |r| ==> r[k] !in Forbidden
    ensures IsStripOf(r, Substitute(name))
    ensures |r| > 0 ==> !IsSpace(r[0]) && !IsSpace(r[|r| - 1])
  {
    var s := Substitute(name);
    StripShape(s);
    Strip(s)
  }

  /** Substitution leaves a name without forbidden characters unchanged. */
  lemma SubstituteIdle(name: string)
    requires forall k :: 0 <= k < |name| ==> name[k] !in Forbidden
    ensures Substitute(name) == name
  {
  }

  /** Sanitising a sanitised name changes nothing. */
  lemma SanitizeIdempotent(name: string)
    ensures Sanitize(Sanitize(name)) == Sanitize(name)
  {
    var r := Sanitize(name);
    SubstituteIdle(r);
    StripIdempotent(Substitute(name));
  }

  /**
   `f"{index + 1}_{sanitized_name}"`: the 1-based row number without leading
   zero, which reads back to the row index, then directly `_` and the sanitised
   name. It has no path separator, so joining it onto the output directory adds
   exactly one level.
   */
  function FolderName(index: nat, name: string): (f: string)
    ensures FolderIndex(f) == index
    ensures EndsWith(f, "_" + Sanitize(name))
    ensures |f| == DigitRun(f) + 1 + |Sanitize(name)| && f[0] != '0'
    ensures forall k :: 0 <= k < |f| ==> f[k] !in Seps
  {
    var d := Decimal(index + 1);
    DecimalRoundTrip(index + 1);
    DigitRunOfNumbered(d, Sanitize(name));
    DecimalLeads(index + 1);
    NumberedNameHasNoSeparator(d, Sanitize(name));
    var f := d + "_" + Sanitize(name);
    assert f[..|d|] == d;
    assert f[|f| - |"_" + Sanitize(name)|..] == "_" + Sanitize(name);
    f
  }

  /** Digits, `_` and a sanitised name make a name without path separators. */
  lemma NumberedNameHasNoSeparator(digits: string, rest: string)
    requires AllDigits(digits)
    requires forall k :: 0 <= k < |rest| ==> rest[k] !in Forbidden
    ensures forall k :: 0 <= k < |digits + "_" + rest| ==> (digits + "_" + rest)[k] !in Seps
  {
    var f := digits + "_" + rest;
    forall k | 0 <= k < |f| ensures f[k] !in Seps {
      if k < |digits| {
        assert f[k] == digits[k];
      } else if k > |digits| {
        assert f[k] == rest[k - |digits| - 1];
      }
    }
  }

  /** The length of the run of digits at the start of `s`. */
  function DigitRun(s: string): (n: nat)
    ensures n <= |s| && AllDigits(s[..n])
    ensures n == |s| || !IsDigit(s[n])
  {
    if |s| > 0 && IsDigit(s[0]) then
      var n := 1 + DigitRun(s[1..]);
      assert forall k :: 1 <= k < n ==> s[..n][k] == s[1..][..n - 1][k - 1];
      n
    else 0
  }

  /** Reads the row index back from a folder name: the leading number, less one. */
  function FolderIndex(folder: string): int {
    var n := DigitRun(folder);
    DecimalValue(folder[..n]) - 1
  }

  /** The digit run of `digits + "_" + rest` is exactly `digits`. */
  lemma {:induction false} DigitRunOfNumbered(digits: string, rest: string)
    requires AllDigits(digits)
    ensures DigitRun(digits + "_" + rest) == |digits|
  {
    if |digits| > 0 {
      assert (digits + "_" + rest)[1..] == digits[1..] + "_" + rest;
      DigitRunOfNumbered(digits[1..], rest);
    }
  }

  /** Distinct rows get distinct folders, whatever their names. */
  lemma FolderNameInjective(i: nat, a: string, j: nat, b: string)
    requires FolderName(i, a) == FolderName(j, b)
    ensures i == j && Sanitize(a) == Sanitize(b)
  {
    var prefix := Decimal(i + 1) + "_";
    assert FolderName(i, a)[|prefix|..] == Sanitize(a);
    assert FolderName(j, b)[|prefix|..] == Sanitize(b);
  }

  /** Tab, newline and carriage return at the edges turn into `_` instead of being stripped. */
  lemma SanitizeKeepsEdgeControlCharacters()
    ensures Sanitize("\tAnn Lee\n") == "_Ann Lee_"
  {
    var s := Substitute("\tAnn Lee\n");
    assert s == "_Ann Lee_";
    StripShape(s);
    assert !IsSpace(s[0]) && !IsSpace(s[|s| - 1]);
    LStripIdle(s);
    RStripIdle(s);
  }
}
