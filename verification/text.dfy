/**
 * The pieces of Python's `str` behaviour the benchmark scripts rely on:
 * the substring test `in`, `split` on a separator and its last piece,
 * whitespace `strip`, and `str()` of a non-negative integer.
 * `FindFirst` is the scan inside `split`; `Join` is not used by the scripts
 * and exists only to state the round trip `JoinSplit`.
 */
module Text {
  import opened Common

  /** `sep` occurs in `s` starting at index `i`. */
  predicate OccursAt(s: string, sep: string, i: int) {
    0 <= i && i + |sep| <= |s| && s[i..i + |sep|] == sep
  }

  /** Python's `sep in s`, stated as the existence of an occurrence. */
  ghost predicate Occurs(s: string, sep: string) {
    exists i :: OccursAt(s, sep, i)
  }

  /** `i` is the last position at which `sep` occurs in `s`. */
  ghost predicate IsLastOccurrence(s: string, sep: string, i: int) {
    OccursAt(s, sep, i) && forall j :: i < j ==> !OccursAt(s, sep, j)
  }

  /** No proper suffix of `sep` is also a prefix of it, so two occurrences never overlap. */
  ghost predicate OverlapFree(sep: string) {
    forall t :: 0 < t < |sep| ==> sep[t..] != sep[..|sep| - t]
  }

  /** An occurrence inside a slice of `s` is an occurrence in `s`, shifted by the slice start. */
  lemma OccursInSlice(s: string, a: int, b: int, sep: string, j: int)
    requires 0 <= a <= b <= |s|
    requires OccursAt(s[a..b], sep, j)
    ensures OccursAt(s, sep, a + j)
  {
    var n := |sep|;
    forall k | j <= k < j + n
      ensures s[a..b][k] == s[a + k]
    {
    }
    assert s[a..b][j..j + n] == s[a + j..a + j + n];
  }

  /** A slice of a string in which `sep` does not occur does not contain `sep` either. */
  lemma SliceAvoids(s: string, a: int, b: int, sep: string)
    requires 0 <= a <= b <= |s|
    requires !Occurs(s, sep)
    ensures !Occurs(s[a..b], sep)
  {
    if Occurs(s[a..b], sep) {
      var j :| OccursAt(s[a..b], sep, j);
      OccursInSlice(s, a, b, sep, j);
    }
  }

  /** Two occurrences of an overlap-free separator are at least `|sep|` apart. */
  lemma {:induction false} OccurrencesDoNotOverlap(s: string, sep: string, i: int, j: int)
    requires OverlapFree(sep)
    requires OccursAt(s, sep, i) && i < j < i + |sep|
    ensures !OccursAt(s, sep, j)
  {
    var n := |sep|;
    var t := j - i;
    if j + n <= |s| {
      var w := s[j..i + n];
      assert w == s[i..i + n][t..];
      assert w == s[j..j + n][..n - t];
      assert sep[t..] != sep[..n - t];
    }
  }

  /** Python's `s.find(sep)`: the first occurrence, if any. */
  function FindFirst(s: string, sep: string): (r: Option<nat>)
    ensures r.Some? ==> OccursAt(s, sep, r.value)
    ensures r.Some? ==> forall j :: 0 <= j < r.value ==> !OccursAt(s, sep, j)
    ensures r.None? ==> !Occurs(s, sep)
    decreases |s|
  {
    if |s| < |sep| then None
    else if s[..|sep|] == sep then
      assert s[0..|sep|] == s[..|sep|];
      Some(0)
    else
      assert s[0..|sep|] == s[..|sep|];
      ShiftOccurrences(s, sep);
      match FindFirst(s[1..], sep)
      case None => None
      case Some(i) => Some(i + 1)
  }

  /** Occurrences in `s[1..]` are exactly the occurrences in `s` after position 0. */
  lemma ShiftOccurrences(s: string, sep: string)
    requires |s| > 0
    ensures forall j :: 1 <= j ==> (OccursAt(s, sep, j) <==> OccursAt(s[1..], sep, j - 1))
  {
    forall j | 1 <= j
      ensures OccursAt(s, sep, j) <==> OccursAt(s[1..], sep, j - 1)
    {
      if j + |sep| <= |s| {
        assert s[1..][j - 1..j - 1 + |sep|] == s[j..j + |sep|];
      }
    }
  }

  /** Python's `sep in s`. */
  function Contains(s: string, sep: string): (r: bool)
    ensures r <==> Occurs(s, sep)
  {
    FindFirst(s, sep).Some?
  }

  /** Python's `s.split(sep)` for a non-empty separator: scan left to right, cut at each occurrence. */
  function Split(s: string, sep: string): (pieces: seq<string>)
    requires |sep| > 0
    ensures |pieces| >= 1
    ensures forall k :: 0 <= k < |pieces| ==> !Occurs(pieces[k], sep)
    decreases |s|
  {
    match FindFirst(s, sep)
    case None => [s]
    case Some(i) =>
      BeforeFirstAvoids(s, sep, i);
      [s[..i]] + Split(s[i + |sep|..], sep)
  }

  /** The text before the first occurrence of `sep` does not contain `sep`. */
  lemma BeforeFirstAvoids(s: string, sep: string, i: nat)
    requires |sep| > 0 && i <= |s|
    requires forall j :: 0 <= j < i ==> !OccursAt(s, sep, j)
    ensures !Occurs(s[..i], sep)
  {
    if Occurs(s[..i], sep) {
      var j :| OccursAt(s[..i], sep, j);
      assert s[..i] == s[0..i];
      OccursInSlice(s, 0, i, sep, j);
    }
  }

  /** Python's `sep.join(pieces)`. */
  function Join(pieces: seq<string>, sep: string): string
  {
    if |pieces| == 0 then ""
    else if |pieces| == 1 then pieces[0]
    else pieces[0] + sep + Join(pieces[1..], sep)
  }

  /** Splitting and re-joining with the same separator gives back the original text. */
  lemma {:induction false} JoinSplit(s: string, sep: string)
    requires |sep| > 0
    ensures Join(Split(s, sep), sep) == s
    decreases |s|
  {
    match FindFirst(s, sep)
    case None =>
    case Some(i) =>
      var rest := s[i + |sep|..];
      var tail := Split(rest, sep);
      JoinSplit(rest, sep);
      assert Split(s, sep) == [s[..i]] + tail;
      assert ([s[..i]] + tail)[1..] == tail;
      assert Join([s[..i]] + tail, sep) == s[..i] + sep + Join(tail, sep);
      assert s == s[..i] + sep + rest by {
        assert s[i..i + |sep|] == sep;
        assert s == s[..i] + s[i..i + |sep|] + s[i + |sep|..];
      }
  }

  /** The last piece of a split. */
  function LastPiece(s: string, sep: string): (r: string)
    requires |sep| > 0
    ensures !Occurs(r, sep)
    ensures !Occurs(s, sep) ==> r == s
  {
    var pieces := Split(s, sep);
    pieces[|pieces| - 1]
  }

  /** After the first occurrence, the split continues on the rest of the text. */
  lemma LastPieceAfterFirst(s: string, sep: string, i: nat)
    requires |sep| > 0 && FindFirst(s, sep) == Some(i)
    ensures LastPiece(s, sep) == LastPiece(s[i + |sep|..], sep)
  {
    var tail := Split(s[i + |sep|..], sep);
    var pieces := Split(s, sep);
    assert pieces == [s[..i]] + tail;
    assert pieces[|pieces| - 1] == tail[|tail| - 1];
  }

  /** The occurrence that ends where the rest's last piece starts is an occurrence in the whole text. */
  lemma LiftLastOccurrence(s: string, sep: string, i: nat, k': nat)
    requires |sep| > 0 && OccursAt(s, sep, i)
    requires k' <= |s| - (i + |sep|)
    requires Occurs(s[i + |sep|..], sep) ==> |sep| <= k' && OccursAt(s[i + |sep|..], sep, k' - |sep|)
    requires !Occurs(s[i + |sep|..], sep) ==> k' == 0
    ensures OccursAt(s, sep, i + k')
  {
    var n := |sep|;
    if Occurs(s[i + n..], sep) {
      assert s[i + n..] == s[i + n..|s|];
      OccursInSlice(s, i + n, |s|, sep, k' - n);
    }
  }

  /** One step of `LastPieceStart`: the rest's last-piece start, shifted past the first occurrence. */
  lemma LastPieceStartStep(s: string, sep: string, i: nat, k': nat)
    requires |sep| > 0 && FindFirst(s, sep) == Some(i)
    requires k' <= |s[i + |sep|..]|
    requires LastPiece(s[i + |sep|..], sep) == s[i + |sep|..][k'..]
    requires Occurs(s[i + |sep|..], sep) ==> |sep| <= k' && OccursAt(s[i + |sep|..], sep, k' - |sep|)
    ensures LastPiece(s, sep) == s[i + |sep| + k'..]
    ensures OccursAt(s, sep, i + k')
  {
    var rest := s[i + |sep|..];
    LastPieceAfterFirst(s, sep, i);
    assert rest[k'..] == s[i + |sep| + k'..];
    if !Occurs(rest, sep) {
      assert |rest[k'..]| == |rest|;
    }
    LiftLastOccurrence(s, sep, i, k');
  }

  /**
   * The last piece of `s.split(sep)` is the suffix of `s` that starts right
   * after the last occurrence found by the left-to-right scan.
   */
  lemma {:induction false} LastPieceStart(s: string, sep: string) returns (k: nat)
    requires |sep| > 0
    ensures k <= |s|
    ensures LastPiece(s, sep) == s[k..]
    ensures Occurs(s, sep) ==> |sep| <= k && OccursAt(s, sep, k - |sep|)
    decreases |s|
  {
    match FindFirst(s, sep)
    case None =>
      k := 0;
      assert s[k..] == s;
    case Some(i) =>
      var k' := LastPieceStart(s[i + |sep|..], sep);
      LastPieceStartStep(s, sep, i, k');
      k := i + |sep| + k';
  }

  /** Python's `str.isspace` for a single character (the Unicode whitespace set). */
  predicate IsSpace(c: char) {
    || ('\t' <= c <= '\r')
    || ('\U{1C}' <= c <= '\U{1F}')
    || c == ' '
    || c == '\U{85}'
    || c == '\U{A0}'
    || c == '\U{1680}'
    || ('\U{2000}' <= c <= '\U{200A}')
    || c == '\U{2028}'
    || c == '\U{2029}'
    || c == '\U{202F}'
    || c == '\U{205F}'
    || c == '\U{3000}'
  }

  /**
   * `s[a..b]` is what remains of `s` once surrounding whitespace is removed:
   * everything outside is whitespace and the kept slice starts and ends with
   * a non-whitespace character (or is empty).
   */
  ghost predicate StrippedAt(s: string, a: int, b: int) {
    && 0 <= a <= b <= |s|
    && (forall k :: 0 <= k < a ==> IsSpace(s[k]))
    && (forall k :: b <= k < |s| ==> IsSpace(s[k]))
    && (a < b ==> !IsSpace(s[a]) && !IsSpace(s[b - 1]))
  }

  /**
   * The left scan of `strip()`: from `i`, skip whitespace and stop at the
   * first other character (or the end).
   */
  function SkipSpaceFrom(s: string, i: nat): (a: nat)
    requires i <= |s|
    requires forall k :: 0 <= k < i ==> IsSpace(s[k])
    ensures i <= a <= |s|
    ensures forall k :: 0 <= k < a ==> IsSpace(s[k])
    ensures a < |s| ==> !IsSpace(s[a])
    decreases |s| - i
  {
    if i < |s| && IsSpace(s[i]) then SkipSpaceFrom(s, i + 1) else i
  }

  /**
   * The right scan of `strip()`: from `j`, move left over whitespace but
   * not past `a`.
   */
  function SkipSpaceBack(s: string, a: nat, j: nat): (b: nat)
    requires a <= j <= |s|
    requires forall k :: j <= k < |s| ==> IsSpace(s[k])
    ensures a <= b <= j
    ensures forall k :: b <= k < |s| ==> IsSpace(s[k])
    ensures a < b ==> !IsSpace(s[b - 1])
    decreases j - a
  {
    if a < j && IsSpace(s[j - 1]) then SkipSpaceBack(s, a, j - 1) else j
  }

  /** Where the stripped text of `s` starts and ends. */
  function StripBounds(s: string): (bounds: (int, int))
    ensures StrippedAt(s, bounds.0, bounds.1)
  {
    var a := SkipSpaceFrom(s, 0);
    (a, SkipSpaceBack(s, a, |s|))
  }

  /** At most one slice of `s` is what remains after removing surrounding whitespace. */
  lemma StrippedAtUnique(s: string, a: int, b: int, a': int, b': int)
    requires StrippedAt(s, a, b) && StrippedAt(s, a', b')
    ensures s[a..b] == s[a'..b']
  {
  }

  /** Python's `s.strip()`: the text between the first and the last non-whitespace character. */
  function Strip(s: string): (r: string)
    ensures forall a, b :: StrippedAt(s, a, b) ==> r == s[a..b]
  {
    var bounds := StripBounds(s);
    forall a, b | StrippedAt(s, a, b)
      ensures s[bounds.0..bounds.1] == s[a..b]
    {
      StrippedAtUnique(s, bounds.0, bounds.1, a, b);
    }
    s[bounds.0..bounds.1]
  }

  /** Stripping twice is the same as stripping once. */
  lemma StripIdempotent(s: string)
    ensures Strip(Strip(s)) == Strip(s)
  {
    var r := Strip(s);
    var bounds := StripBounds(s);
    assert r == s[bounds.0..bounds.1];
    assert StrippedAt(r, 0, |r|);
    assert r[0..|r|] == r;
  }

  /** Prepending a whitespace character shifts the stripped slice by one. */
  lemma StrippedAtShift(c: char, s: string, a: int, b: int)
    requires IsSpace(c)
    requires StrippedAt(s, a, b)
    ensures StrippedAt([c] + s, a + 1, b + 1)
  {
    var t := [c] + s;
    assert t[1..] == s;
  }

  /** A leading whitespace character does not change the stripped result. */
  lemma StripSkipsLeadingSpace(c: char, s: string)
    requires IsSpace(c)
    ensures Strip([c] + s) == Strip(s)
  {
    var bounds := StripBounds(s);
    StrippedAtShift(c, s, bounds.0, bounds.1);
    var t := [c] + s;
    assert t[bounds.0 + 1..bounds.1 + 1] == s[bounds.0..bounds.1];
  }

  /** The stripped text is a slice of the input, so it avoids whatever the input avoids. */
  lemma StripAvoids(s: string, sep: string)
    requires !Occurs(s, sep)
    ensures !Occurs(Strip(s), sep)
  {
    var (a, b) := StripBounds(s);
    SliceAvoids(s, a, b, sep);
  }

  /** An ASCII decimal digit. */
  predicate IsDigit(c: char) {
    '0' <= c <= '9'
  }

  /** Every character of `s` is a decimal digit. */
  predicate AllDigits(s: string) {
    forall k :: 0 <= k < |s| ==> IsDigit(s[k])
  }

  function DigitChar(d: nat): (c: char)
    requires d < 10
    ensures IsDigit(c) && c as int - '0' as int == d
  {
    (48 + d) as char
  }

  /** The value of a string of decimal digits (most significant first). */
  function ParseDecimal(s: string): nat
    requires AllDigits(s)
    decreases |s|
  {
    if |s| == 0 then 0
    else ParseDecimal(s[..|s| - 1]) * 10 + (s[|s| - 1] as int - '0' as int)
  }

  /** Python's `str(n)` for `n >= 0`: decimal digits with no leading zero. */
  function Decimal(n: nat): (s: string)
    ensures |s| >= 1 && AllDigits(s)
    ensures s[0] == '0' ==> n == 0
    decreases n
  {
    if n < 10 then [DigitChar(n)] else Decimal(n / 10) + [DigitChar(n % 10)]
  }

  /** Reading back the decimal rendering of `n` gives `n`. */
  lemma {:induction false} DecimalRoundTrip(n: nat)
    ensures ParseDecimal(Decimal(n)) == n
    decreases n
  {
    if n >= 10 {
      var s := Decimal(n);
      DecimalRoundTrip(n / 10);
      assert s[..|s| - 1] == Decimal(n / 10);
    }
  }

  /** The longest prefix of `s` made of decimal digits. */
  function DigitRun(s: string): (d: string)
    ensures |d| <= |s| && d == s[..|d|] && AllDigits(d)
    ensures |d| < |s| ==> !IsDigit(s[|d|])
    decreases |s|
  {
    if |s| > 0 && IsDigit(s[0]) then [s[0]] + DigitRun(s[1..]) else []
  }

  /** The digit run of digits followed by a non-digit is exactly those digits. */
  lemma DigitRunStopsAt(d: string, t: string)
    requires AllDigits(d)
    requires |t| > 0 ==> !IsDigit(t[0])
    ensures DigitRun(d + t) == d
  {
    var r := DigitRun(d + t);
    assert r == (d + t)[..|d|] == d;
  }
}
