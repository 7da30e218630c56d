/** The JavaScript string built-ins the scraper relies on, over `seq<char>`:
    `trim`, `includes`, `split` on one separator character, and `Number`
    restricted to plain decimal digits. */
module Text {
  import opened Types

  /** The characters `String.prototype.trim` and `Number` strip: the
      ECMAScript white space and line terminators of the Latin-1 range,
      plus the byte order mark and the two Unicode line separators. */
  predicate IsWhitespace(c: char) {
    || c == ' ' || c == '\t' || c == '\n' || c == '\r'
    || c == '\U{000B}' || c == '\U{000C}' || c == '\U{00A0}'
    || c == '\U{FEFF}' || c == '\U{2028}' || c == '\U{2029}'
  }

  /** Every character of `s` from `lo` up to, not including, `hi` is
      white space. */
  predicate WhitespaceBetween(s: string, lo: int, hi: int)
    requires 0 <= lo && hi <= |s|
  {
    forall k :: lo <= k < hi ==> IsWhitespace(s[k])
  }

  /** Drops the longest all-whitespace prefix. */
  function TrimStart(s: string): (r: string)
    ensures |r| <= |s| && r == s[|s| - |r|..]
    ensures WhitespaceBetween(s, 0, |s| - |r|)
    ensures r == [] || !IsWhitespace(r[0])
    decreases |s|
  {
    if |s| > 0 && IsWhitespace(s[0]) then
      var r := TrimStart(s[1..]);
      WhitespaceInSuffix(s, 1, 0, |s| - 1 - |r|);
      r
    else s
  }

  /** Drops the longest all-whitespace suffix. */
  function TrimEnd(s: string): (r: string)
    ensures |r| <= |s| && r == s[..|r|]
    ensures WhitespaceBetween(s, |r|, |s|)
    ensures r == [] || !IsWhitespace(r[|r| - 1])
    decreases |s|
  {
    if |s| > 0 && IsWhitespace(s[|s| - 1]) then
      var r := TrimEnd(s[..|s| - 1]);
      WhitespaceInPrefix(s, |s| - 1, |r|);
      r
    else s
  }

  /** White space at the end of a prefix of `s` is white space of `s`. */
  lemma WhitespaceInPrefix(s: string, n: nat, lo: nat)
    requires lo <= n <= |s|
    requires WhitespaceBetween(s[..n], lo, n)
    ensures WhitespaceBetween(s, lo, n)
  {
    forall k | lo <= k < n
      ensures IsWhitespace(s[k])
    {
      assert s[k] == s[..n][k];
    }
  }

  /** `String.prototype.trim`: both white-space runs cut off. */
  function Trim(s: string): (r: string)
    ensures |r| <= |s|
    ensures r == [] || (!IsWhitespace(r[0]) && !IsWhitespace(r[|r| - 1]))
  {
    TrimEnd(TrimStart(s))
  }

  /** The trimmed string is a slice of the original, and only white space
      was cut off on either side. */
  lemma TrimIsSlice(s: string)
    ensures exists i :: 0 <= i && i + |Trim(s)| <= |s| && Trim(s) == s[i..i + |Trim(s)|]
                        && WhitespaceBetween(s, 0, i) && WhitespaceBetween(s, i + |Trim(s)|, |s|)
  {
    var t := TrimStart(s);
    var r := TrimEnd(t);
    var i := |s| - |t|;
    assert t == s[i..];
    assert s[i..i + |r|] == r;
    WhitespaceInSuffix(s, i, |r|, |t|);
  }

  /** White space in a suffix of `s` is white space of `s`, shifted by
      where the suffix starts. */
  lemma WhitespaceInSuffix(s: string, i: nat, lo: nat, hi: nat)
    requires i <= |s| && lo <= hi <= |s| - i
    requires WhitespaceBetween(s[i..], lo, hi)
    ensures WhitespaceBetween(s, i + lo, i + hi)
  {
    forall k | i + lo <= k < i + hi
      ensures IsWhitespace(s[k])
    {
      assert s[k] == s[i..][k - i];
    }
  }

  /** A string that already has no white space at either end is its own trim. */
  lemma TrimUnchanged(s: string)
    requires s == [] || (!IsWhitespace(s[0]) && !IsWhitespace(s[|s| - 1]))
    ensures Trim(s) == s
  {
  }

  /** Trimming twice is trimming once. */
  lemma TrimIdempotent(s: string)
    ensures Trim(Trim(s)) == Trim(s)
  {
    TrimUnchanged(Trim(s));
  }

  predicate StartsWith(s: string, p: string) {
    |p| <= |s| && s[..|p|] == p
  }

  /** `s.includes(p)`, scanning start positions from the left. */
  predicate Includes(s: string, p: string)
    decreases |s|
  {
    StartsWith(s, p) || (|s| > 0 && Includes(s[1..], p))
  }

  /** `p` occurs in `s` starting at position `k`. */
  predicate OccursAt(s: string, p: string, k: int) {
    0 <= k && k + |p| <= |s| && s[k..k + |p|] == p
  }

  /** The scan finds `p` exactly when `p` occurs somewhere in `s`. */
  lemma {:induction false} IncludesIffOccurs(s: string, p: string)
    ensures Includes(s, p) <==> exists k :: OccursAt(s, p, k)
    decreases |s|
  {
    forall k | OccursAt(s, p, k)
      ensures (k == 0 && StartsWith(s, p)) || (|s| > 0 && OccursAt(s[1..], p, k - 1))
    {
      if k > 0 {
        assert s[1..][k - 1..k - 1 + |p|] == s[k..k + |p|];
      }
    }
    if |s| > 0 {
      IncludesIffOccurs(s[1..], p);
      forall k | OccursAt(s[1..], p, k)
        ensures OccursAt(s, p, k + 1)
      {
        assert s[k + 1..k + 1 + |p|] == s[1..][k..k + |p|];
      }
    }
    if StartsWith(s, p) {
      assert OccursAt(s, p, 0);
    }
  }

  /** `s.split(sep)`: the pieces between separators, always at least one. */
  function Split(s: string, sep: char): (parts: seq<string>)
    ensures |parts| >= 1
    ensures forall i :: 0 <= i < |parts| ==> sep !in parts[i]
    decreases |s|
  {
    if |s| == 0 then [""]
    else
      var rest := Split(s[1..], sep);
      if s[0] == sep then [""] + rest else [[s[0]] + rest[0]] + rest[1..]
  }

  /** `parts.join(sep)`, the inverse of `Split`. */
  function Join(parts: seq<string>, sep: char): string
    requires |parts| >= 1
    decreases |parts|
  {
    if |parts| == 1 then parts[0] else parts[0] + [sep] + Join(parts[1..], sep)
  }

  /** Joining the pieces back gives the original string. */
  lemma {:induction false} JoinSplit(s: string, sep: char)
    ensures Join(Split(s, sep), sep) == s
    decreases |s|
  {
    if |s| > 0 {
      var rest := Split(s[1..], sep);
      JoinSplit(s[1..], sep);
      if s[0] == sep {
        assert ([""] + rest)[1..] == rest;
      } else {
        var parts := [[s[0]] + rest[0]] + rest[1..];
        assert parts[1..] == rest[1..];
        if |rest| > 1 {
          assert Join(rest, sep) == rest[0] + [sep] + Join(rest[1..], sep);
        }
      }
    }
  }

  lemma {:induction false} SplitWithoutSeparator(x: string, sep: char)
    requires sep !in x
    ensures Split(x, sep) == [x]
    decreases |x|
  {
    if |x| > 0 {
      SplitWithoutSeparator(x[1..], sep);
      assert [x[0]] + x[1..] == x;
    }
  }

  lemma {:induction false} SplitAtFirstSeparator(x: string, y: string, sep: char)
    requires sep !in x
    ensures Split(x + [sep] + y, sep) == [x] + Split(y, sep)
    decreases |x|
  {
    var s := x + [sep] + y;
    if |x| == 0 {
      assert s[1..] == y;
    } else {
      SplitAtFirstSeparator(x[1..], y, sep);
      assert s[1..] == x[1..] + [sep] + y;
      assert [x[0]] + x[1..] == x;
    }
  }

  /** Splitting pieces that contain no separator after joining them gives the
      pieces back. */
  lemma {:induction false} SplitJoin(parts: seq<string>, sep: char)
    requires |parts| >= 1
    requires forall i :: 0 <= i < |parts| ==> sep !in parts[i]
    ensures Split(Join(parts, sep), sep) == parts
    decreases |parts|
  {
    if |parts| == 1 {
      SplitWithoutSeparator(parts[0], sep);
    } else {
      SplitJoin(parts[1..], sep);
      SplitAtFirstSeparator(parts[0], Join(parts[1..], sep), sep);
      assert [parts[0]] + parts[1..] == parts;
    }
  }

  predicate IsDigit(c: char) {
    '0' <= c <= '9'
  }

  predicate AllDigits(s: string) {
    forall i :: 0 <= i < |s| ==> IsDigit(s[i])
  }

  function DigitValue(c: char): nat
    requires IsDigit(c)
  {
    (c as int) - ('0' as int)
  }

  function Digit(n: nat): (c: char)
    requires n < 10
    ensures IsDigit(c) && DigitValue(c) == n
  {
    ('0' as int + n) as char
  }

  /** The value of a string of decimal digits, most significant first. */
  function DecimalValue(s: string): nat
    requires AllDigits(s)
    decreases |s|
  {
    if |s| == 0 then 0 else DecimalValue(s[..|s| - 1]) * 10 + DigitValue(s[|s| - 1])
  }

  /** `Number(s)` for the forms a timetable cell can hold: after trimming,
      a run of decimal digits, where the empty string is zero. Every other
      form is `None`, JavaScript's NaN. */
  function ToNumber(s: string): Option<nat> {
    var t := Trim(s);
    if AllDigits(t) then Some(DecimalValue(t)) else None
  }

  /** `Number` of a run of digits is its decimal value. */
  lemma ToNumberOfDigits(s: string)
    requires AllDigits(s)
    ensures ToNumber(s) == Some(DecimalValue(s))
  {
    if |s| > 0 {
      assert IsDigit(s[0]) && IsDigit(s[|s| - 1]);
    }
    TrimUnchanged(s);
  }

  /** The decimal numeral of `n`, without leading zeros. */
  function DecimalString(n: nat): (s: string)
    ensures |s| > 0 && AllDigits(s)
    decreases n
  {
    if n < 10 then [Digit(n)] else DecimalString(n / 10) + [Digit(n % 10)]
  }

  /** `Number` reads a printed natural number back. */
  lemma {:induction false} ToNumberOfDecimal(n: nat)
    ensures ToNumber(DecimalString(n)) == Some(n)
    decreases n
  {
    ToNumberOfDigits(DecimalString(n));
    DecimalValueOf(n);
  }

  lemma {:induction false} DecimalValueOf(n: nat)
    ensures DecimalValue(DecimalString(n)) == n
    decreases n
  {
    var s := DecimalString(n);
    if n < 10 {
      assert s[..0] == [];
    } else {
      DecimalValueOf(n / 10);
      assert s[..|s| - 1] == DecimalString(n / 10);
    }
  }
}
