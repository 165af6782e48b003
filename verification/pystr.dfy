/**
 The Python `str` operations the scripts rely on, over `string` (= `seq<char>`):
 `startswith`/`endswith`, `lower`, `split` on one character, `replace`,
 `strip` and `str(n)` for a natural number.
 */
module PyStr {

  predicate StartsWith(s: string, prefix: string) {
    |prefix| <= |s| && s[..|prefix|] == prefix
  }

  predicate EndsWith(s: string, suffix: string) {
    |suffix| <= |s| && s[|s| - |suffix|..] == suffix
  }

  /** `needle` occurs somewhere in `s` (Python `needle in s`). */
  predicate Occurs(s: string, needle: string) {
    exists i :: 0 <= i <= |s| && OccursAt(s, needle, i)
  }

  /** `needle` occurs in `s` starting at index `i`. */
  predicate OccursAt(s: string, needle: string, i: int) {
    0 <= i && i + |needle| <= |s| && s[i..i + |needle|] == needle
  }

  // ---------------------------------------------------------------------------
  // lower
  // ---------------------------------------------------------------------------

  /** `str.lower()` on one character, restricted to the ASCII letters. */
  function LowerChar(c: char): char {
    if 'A' <= c <= 'Z' then (c as int - 'A' as int + 'a' as int) as char else c
  }

  function Lower(s: string): string {
    seq(|s|, i requires 0 <= i < |s| => LowerChar(s[i]))
  }

  // ---------------------------------------------------------------------------
  // split on one character
  // ---------------------------------------------------------------------------

  /** `s.split(d)`: the pieces between the occurrences of `d`, always at least one. */
  function Split(s: string, d: char): (parts: seq<string>)
    ensures |parts| >= 1
  {
    if |s| == 0 then [""]
    else
      var rest := Split(s[1..], d);
      if s[0] == d then [""] + rest
      else [[s[0]] + rest[0]] + rest[1..]
  }

  /** No piece of a split contains the separator. */
  lemma {:induction false} SplitPiecesLackSeparator(s: string, d: char)
    ensures forall k :: 0 <= k < |Split(s, d)| ==> d !in Split(s, d)[k]
  {
    if |s| > 0 {
      SplitPiecesLackSeparator(s[1..], d);
    }
  }

  /** A string without the separator splits into itself alone. */
  lemma {:induction false} SplitWithoutSeparator(s: string, d: char)
    requires d !in s
    ensures Split(s, d) == [s]
  {
    if |s| > 0 {
      SplitWithoutSeparator(s[1..], d);
      assert s == [s[0]] + s[1..];
    }
  }

  /** Splitting distributes over an occurrence of the separator. */
  lemma {:induction false} SplitAppend(a: string, b: string, d: char)
    ensures Split(a + [d] + b, d) == Split(a, d) + Split(b, d)
  {
    var s := a + [d] + b;
    SplitStep(s, d);
    if |a| == 0 {
      assert s[1..] == b;
    } else {
      assert s[0] == a[0];
      assert s[1..] == a[1..] + [d] + b;
      SplitStep(a, d);
      SplitAppend(a[1..], b, d);
      var x, y := Split(a[1..], d), Split(b, d);
      if a[0] == d {
        assert Split(s, d) == [""] + (x + y);
        assert Split(a, d) == [""] + x;
      } else {
        assert (x + y)[0] == x[0];
        assert (x + y)[1..] == x[1..] + y;
        assert Split(s, d) == [[a[0]] + x[0]] + (x[1..] + y);
        assert Split(a, d) == [[a[0]] + x[0]] + x[1..];
      }
    }
  }

  /** One step of the split from the front. */
  lemma SplitStep(s: string, d: char)
    requires |s| > 0
    ensures var rest := Split(s[1..], d);
      Split(s, d) == if s[0] == d then [""] + rest else [[s[0]] + rest[0]] + rest[1..]
  {
  }

  /** A string splits into at least two pieces exactly when it contains the separator. */
  lemma {:induction false} SplitHasTwoPieces(s: string, d: char)
    ensures |Split(s, d)| >= 2 <==> d in s
  {
    if |s| > 0 {
      SplitHasTwoPieces(s[1..], d);
      assert s == [s[0]] + s[1..];
    }
  }

  /** Python `s.split(d)[-1]`: always defined. */
  function LastPiece(s: string, d: char): string {
    var parts := Split(s, d);
    parts[|parts| - 1]
  }

  /** Python `s.split(d)[-2]` exists: otherwise indexing raises `IndexError`. */
  predicate HasSecondToLastPiece(s: string, d: char) {
    |Split(s, d)| >= 2
  }

  function SecondToLastPiece(s: string, d: char): string
    requires HasSecondToLastPiece(s, d)
  {
    var parts := Split(s, d);
    parts[|parts| - 2]
  }

  /**
   `s.split(d)[-1]` is the text after the last `d`: a suffix of `s` without `d`,
   preceded either by nothing or by a `d`.
   */
  lemma {:induction false} LastPieceIsTextAfterLastSeparator(s: string, d: char)
    ensures var r := LastPiece(s, d);
      EndsWith(s, r) && d !in r && (|r| == |s| || s[|s| - |r| - 1] == d)
  {
    if |s| > 0 {
      var t := s[1..];
      LastPieceIsTextAfterLastSeparator(t, d);
      LastPieceStep(s, d);
      if s[0] == d || d in t {
        var r := LastPiece(t, d);
        assert s[|s| - |r|..] == t[|t| - |r|..];
        if |r| == |t| {
          assert r == t;
        } else {
          assert s[|s| - |r| - 1] == t[|t| - |r| - 1];
        }
      }
    }
  }

  /** One step of the split from the front: the first character either joins the last piece or not. */
  lemma LastPieceStep(s: string, d: char)
    requires |s| > 0
    ensures LastPiece(s, d) == if s[0] != d && d !in s[1..] then s else LastPiece(s[1..], d)
  {
    var rest := Split(s[1..], d);
    SplitHasTwoPieces(s[1..], d);
    if s[0] != d && d !in s[1..] {
      SplitWithoutSeparator(s[1..], d);
      assert s == [s[0]] + s[1..];
    }
  }

  /** `(a + d + b).split(d)[-2]` is `a.split(d)[-1]` when `b` holds no `d`. */
  lemma SecondToLastPieceOfAppend(a: string, b: string, d: char)
    requires d !in b
    ensures HasSecondToLastPiece(a + [d] + b, d)
    ensures SecondToLastPiece(a + [d] + b, d) == LastPiece(a, d)
  {
    SplitAppend(a, b, d);
    SplitWithoutSeparator(b, d);
  }

  /**
   When `s` contains `d`, `s.split(d)[-2]` is the text between the last two
   separators: `s` ends with it, a `d` and the last piece, and it is preceded
   either by nothing or by a `d`.
   */
  lemma SecondToLastPieceIsBetweenLastTwoSeparators(s: string, d: char)
    requires d in s
    ensures HasSecondToLastPiece(s, d)
    ensures var r := SecondToLastPiece(s, d); var l := LastPiece(s, d);
      EndsWith(s, r + [d] + l)
      && (|r| + 1 + |l| == |s| || s[|s| - |r| - 1 - |l| - 1] == d)
  {
    var l := LastPiece(s, d);
    LastPieceIsTextAfterLastSeparator(s, d);
    assert |l| != |s| by {
      assert s[|s| - |l|..] == l;
      assert d !in s[|s| - |l|..];
    }
    var p := s[..|s| - |l| - 1];
    assert s == p + [d] + l;
    SecondToLastPieceOfAppend(p, l, d);
    LastPieceIsTextAfterLastSeparator(p, d);
    var r := LastPiece(p, d);
    assert s[|s| - |r| - 1 - |l|..] == p[|p| - |r|..] + [d] + l;
    if |r| != |p| {
      assert s[|s| - |r| - 1 - |l| - 1] == p[|p| - |r| - 1];
    }
  }

  // ---------------------------------------------------------------------------
  // replace
  // ---------------------------------------------------------------------------

  /** `s.replace(pat, rep)`: every non-overlapping occurrence, scanning left to right. */
  function ReplaceAll(s: string, pat: string, rep: string): string
    requires |pat| > 0
    decreases |s|
  {
    if StartsWith(s, pat) then rep + ReplaceAll(s[|pat|..], pat, rep)
    else if |s| == 0 then ""
    else [s[0]] + ReplaceAll(s[1..], pat, rep)
  }

  /** Replacing a substring that does not occur leaves the string unchanged. */
  lemma {:induction false} ReplaceAllAbsent(s: string, pat: string, rep: string)
    requires |pat| > 0
    requires !Occurs(s, pat)
    ensures ReplaceAll(s, pat, rep) == s
  {
    if |s| > 0 {
      assert !OccursAt(s, pat, 0);
      NoOccurrenceInTail(s, pat);
      ReplaceAllAbsent(s[1..], pat, rep);
    }
  }

  /**
   Replacing with a text at least as long never shortens the string, and with a
   strictly longer one it lengthens the string exactly when `pat` occurs.
   */
  lemma {:induction false} ReplaceAllLength(s: string, pat: string, rep: string)
    requires 0 < |pat| <= |rep|
    ensures |ReplaceAll(s, pat, rep)| >= |s|
    ensures |pat| < |rep| && Occurs(s, pat) ==> |ReplaceAll(s, pat, rep)| > |s|
    decreases |s|
  {
    if StartsWith(s, pat) {
      ReplaceAllLength(s[|pat|..], pat, rep);
    } else if |s| > 0 {
      ReplaceAllLength(s[1..], pat, rep);
      if Occurs(s, pat) {
        var i :| 0 <= i <= |s| && OccursAt(s, pat, i);
        assert i != 0;
        assert s[1..][i - 1..i - 1 + |pat|] == s[i..i + |pat|];
        assert OccursAt(s[1..], pat, i - 1);
      }
    }
  }

  /** A string without an occurrence has none in its tail either. */
  lemma NoOccurrenceInTail(s: string, pat: string)
    requires |s| > 0 && !Occurs(s, pat)
    ensures !Occurs(s[1..], pat)
  {
    forall i | 0 <= i <= |s| - 1 ensures !OccursAt(s[1..], pat, i) {
      assert !OccursAt(s, pat, i + 1);
      if i + |pat| <= |s| - 1 {
        assert s[1..][i..i + |pat|] == s[i + 1..i + 1 + |pat|];
      }
    }
  }

  // ---------------------------------------------------------------------------
  // strip
  // ---------------------------------------------------------------------------

  /** Python `str.isspace()` on one character. */
  predicate IsSpace(c: char) {
    ('\U{9}' <= c <= '\U{D}') || ('\U{1C}' <= c <= '\U{1F}') || c == ' '
    || c == '\U{85}' || c == '\U{A0}' || c == '\U{1680}'
    || ('\U{2000}' <= c <= '\U{200A}') || c == '\U{2028}' || c == '\U{2029}'
    || c == '\U{202F}' || c == '\U{205F}' || c == '\U{3000}'
  }

  function LStrip(s: string): string {
    if |s| > 0 && IsSpace(s[0]) then LStrip(s[1..]) else s
  }

  function RStrip(s: string): string {
    if |s| > 0 && IsSpace(s[|s| - 1]) then RStrip(s[..|s| - 1]) else s
  }

  /** `s.strip()` with no argument. */
  function Strip(s: string): string {
    RStrip(LStrip(s))
  }

  /** `s.strip()` is the middle slice of `s` left after removing all edge whitespace. */
  predicate IsStripOf(r: string, s: string) {
    exists i, j :: 0 <= i <= j <= |s| && r == s[i..j]
      && (forall k :: 0 <= k < i ==> IsSpace(s[k]))
      && (forall k :: j <= k < |s| ==> IsSpace(s[k]))
      && (|r| > 0 ==> !IsSpace(r[0]) && !IsSpace(r[|r| - 1]))
  }

  lemma {:induction false} LStripShape(s: string)
    ensures var r := LStrip(s);
      EndsWith(s, r) && (forall k :: 0 <= k < |s| - |r| ==> IsSpace(s[k]))
      && (|r| > 0 ==> !IsSpace(r[0]))
  {
    if |s| > 0 && IsSpace(s[0]) {
      LStripShape(s[1..]);
    }
  }

  lemma {:induction false} RStripShape(s: string)
    ensures var r := RStrip(s);
      StartsWith(s, r) && (forall k :: |r| <= k < |s| ==> IsSpace(s[k]))
      && (|r| > 0 ==> !IsSpace(r[|r| - 1]))
  {
    if |s| > 0 && IsSpace(s[|s| - 1]) {
      RStripShape(s[..|s| - 1]);
    }
  }

  lemma RStripKeepsFirst(s: string)
    requires |s| > 0 && !IsSpace(s[0])
    ensures |RStrip(s)| > 0 && RStrip(s)[0] == s[0]
  {
    if IsSpace(s[|s| - 1]) {
      RStripKeepsFirst(s[..|s| - 1]);
    }
  }

  /** The result of `strip` is the slice of `s` between its leading and trailing whitespace. */
  lemma StripShape(s: string)
    ensures IsStripOf(Strip(s), s)
  {
    var l := LStrip(s);
    LStripShape(s);
    RStripShape(l);
    var r := Strip(s);
    var i := |s| - |l|;
    var j := i + |r|;
    assert l == s[i..];
    assert r == l[..|r|];
    assert r == s[i..j];
    forall k | j <= k < |s| ensures IsSpace(s[k]) {
      assert s[k] == l[k - i];
    }
    if |r| > 0 {
      RStripKeepsFirst(l);
    }
  }

  lemma {:induction false} LStripIdle(s: string)
    requires |s| == 0 || !IsSpace(s[0])
    ensures LStrip(s) == s
  {
  }

  lemma {:induction false} RStripIdle(s: string)
    requires |s| == 0 || !IsSpace(s[|s| - 1])
    ensures RStrip(s) == s
  {
  }

  /** Stripping twice is stripping once. */
  lemma StripIdempotent(s: string)
    ensures Strip(Strip(s)) == Strip(s)
  {
    StripShape(s);
    var r := Strip(s);
    LStripIdle(r);
    RStripIdle(r);
  }

  // ---------------------------------------------------------------------------
  // str(n) for a natural number
  // ---------------------------------------------------------------------------

  predicate IsDigit(c: char) {
    '0' <= c <= '9'
  }

  function DigitChar(d: nat): (c: char)
    requires d < 10
  {
    ('0' as int + d) as char
  }

  /** `str(n)`: decimal digits, most significant first, without leading zeros. */
  function Decimal(n: nat): string {
    if n < 10 then [DigitChar(n)] else Decimal(n / 10) + [DigitChar(n % 10)]
  }

  /** `str(n)` of a positive number has no leading zero. */
  lemma {:induction false} DecimalLeads(n: nat)
    requires n >= 1
    ensures Decimal(n)[0] != '0'
  {
    if n >= 10 {
      DecimalLeads(n / 10);
    }
  }

  predicate AllDigits(s: string) {
    forall k :: 0 <= k < |s| ==> IsDigit(s[k])
  }

  /** `int(s)` for a string of decimal digits. */
  function DecimalValue(s: string): nat
    requires AllDigits(s)
  {
    if |s| == 0 then 0
    else DecimalValue(s[..|s| - 1]) * 10 + (s[|s| - 1] as int - '0' as int)
  }

  /** `int(str(n)) == n`, and `str(n)` is a non-empty run of digits. */
  lemma {:induction false} DecimalRoundTrip(n: nat)
    ensures |Decimal(n)| > 0 && AllDigits(Decimal(n))
    ensures DecimalValue(Decimal(n)) == n
  {
    if n >= 10 {
      DecimalRoundTrip(n / 10);
      var s := Decimal(n);
      assert s[..|s| - 1] == Decimal(n / 10);
    }
  }
}
