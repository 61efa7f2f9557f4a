/**
 * String helpers that the bot relies on from Python: `"".join`, `str.strip()`
 * and the decimal rendering of a rank by an f-string.
 */
module Text {

  /** `"".join(ss)`: the strings one after another. */
  function Concat(ss: seq<string>): string
  {
    if ss == [] then "" else Concat(ss[..|ss| - 1]) + ss[|ss| - 1]
  }

  /** Joining distributes over sequence concatenation. */
  lemma {:induction false} ConcatAppend(a: seq<string>, b: seq<string>)
    ensures Concat(a + b) == Concat(a) + Concat(b)
    decreases |b|
  {
    if b == [] {
      assert a + b == a;
    } else {
      var ab, front, last := a + b, b[..|b| - 1], b[|b| - 1];
      assert ab[..|ab| - 1] == a + front && ab[|ab| - 1] == last;
      assert Concat(ab) == Concat(a + front) + last;
      assert Concat(b) == Concat(front) + last;
      ConcatAppend(a, front);
    }
  }

  /** A prefix one longer is the prefix plus the next element. */
  lemma PrefixSnoc<T>(s: seq<T>, i: nat)
    requires i < |s|
    ensures s[..i + 1] == s[..i] + [s[i]]
  {
  }

  /** Moving the first element of `b` to the end of `a` keeps `a + b`. */
  lemma ShiftFirst<T>(a: seq<T>, b: seq<T>)
    requires b != []
    ensures a + b == (a + [b[0]]) + b[1..]
  {
    assert b == [b[0]] + b[1..];
  }

  /** Joining one more string appends it. */
  lemma ConcatSnoc(ss: seq<string>, s: string)
    ensures Concat(ss + [s]) == Concat(ss) + s
  {
    assert (ss + [s])[..|ss|] == ss;
  }

  /** A join starts with the first string's first character and ends with the last string's last one. */
  lemma ConcatEnds(ss: seq<string>)
    requires ss != [] && ss[0] != "" && ss[|ss| - 1] != ""
    ensures Concat(ss) != ""
    ensures Concat(ss)[0] == ss[0][0]
    ensures Concat(ss)[|Concat(ss)| - 1] == ss[|ss| - 1][|ss[|ss| - 1]| - 1]
  {
    assert ss == [ss[0]] + ss[1..];
    ConcatAppend([ss[0]], ss[1..]);
    assert [ss[0]][..0] == [];
  }

  /** A joined prefix never gets shorter when the prefix grows. */
  lemma ConcatPrefixMonotone(ss: seq<string>, i: nat, j: nat)
    requires i <= j <= |ss|
    ensures |Concat(ss[..i])| <= |Concat(ss[..j])|
  {
    assert ss[..j] == ss[..i] + ss[i..j];
    ConcatAppend(ss[..i], ss[i..j]);
  }

  // ---------------------------------------------------------------------------
  // Whitespace and str.strip()
  // ---------------------------------------------------------------------------

  /**
   * Python's `str.isspace` on one code point: the ASCII controls TAB..CR,
   * the file/group/record/unit separators, SPACE, NEL, NO-BREAK SPACE and the
   * Unicode space separators and line/paragraph separators.
   */
  predicate IsSpace(c: char)
  {
    || c == ' '
    || ('\t' <= c <= '\r')
    || ('\U{1C}' <= c <= '\U{1F}')
    || c == '\U{85}'
    || c == '\U{A0}'
    || c == '\U{1680}'
    || ('\U{2000}' <= c <= '\U{200A}')
    || c == '\U{2028}'
    || c == '\U{2029}'
    || c == '\U{202F}'
    || c == '\U{205F}'
    || c == '\U{3000}'
  }

  predicate AllSpace(s: string)
  {
    forall i :: 0 <= i < |s| ==> IsSpace(s[i])
  }

  /** `s` is whitespace followed by `r`. */
  predicate SpaceThen(s: string, r: string)
  {
    |r| <= |s| && r == s[|s| - |r|..] && AllSpace(s[..|s| - |r|])
  }

  /** `s` is `r` followed by whitespace. */
  predicate ThenSpace(r: string, s: string)
  {
    |r| <= |s| && r == s[..|r|] && AllSpace(s[|r|..])
  }

  /** `s.lstrip()`. */
  function TrimStart(s: string): string
  {
    if s != "" && IsSpace(s[0]) then TrimStart(s[1..]) else s
  }

  /** `s.rstrip()`. */
  function TrimEnd(s: string): string
  {
    if s != "" && IsSpace(s[|s| - 1]) then TrimEnd(s[..|s| - 1]) else s
  }

  /** `lstrip()` drops the leading whitespace and nothing else. */
  lemma {:induction false} TrimStartSpec(s: string)
    ensures SpaceThen(s, TrimStart(s))
    ensures TrimStart(s) != "" ==> !IsSpace(TrimStart(s)[0])
  {
    if s != "" && IsSpace(s[0]) {
      var r := TrimStart(s[1..]);
      TrimStartSpec(s[1..]);
      assert s[..|s| - |r|] == [s[0]] + s[1..][..|s| - 1 - |r|];
    }
  }

  /** `rstrip()` drops the trailing whitespace and nothing else. */
  lemma {:induction false} TrimEndSpec(s: string)
    ensures ThenSpace(TrimEnd(s), s)
    ensures TrimEnd(s) != "" ==> !IsSpace(TrimEnd(s)[|TrimEnd(s)| - 1])
  {
    if s != "" && IsSpace(s[|s| - 1]) {
      var r := TrimEnd(s[..|s| - 1]);
      TrimEndSpec(s[..|s| - 1]);
      assert s[|r|..] == s[..|s| - 1][|r|..] + [s[|s| - 1]];
    }
  }

  /** `s.strip()`: whitespace removed at both ends. */
  function Strip(s: string): string
  {
    TrimEnd(TrimStart(s))
  }

  /**
   * What `strip()` promises: `s` is leading whitespace, then the result, then
   * trailing whitespace; the result neither starts nor ends with whitespace;
   * and it is empty exactly when `s` is all whitespace.
   */
  lemma StripSpec(s: string)
    ensures var r := Strip(s);
      && SpaceThen(s, TrimStart(s)) && ThenSpace(r, TrimStart(s))
      && (r != "" ==> !IsSpace(r[0]) && !IsSpace(r[|r| - 1]))
      && (r == "" <==> AllSpace(s))
  {
    var t := TrimStart(s);
    var r := TrimEnd(t);
    TrimStartSpec(s);
    TrimEndSpec(t);
    assert r != "" ==> r[0] == t[0];
    assert r == "" ==> t == "" && s[..|s| - |t|] == s;
    assert AllSpace(s) ==> t == "";
  }

  /** When `s` does not start with whitespace, stripping only removes trailing whitespace. */
  lemma StripFromNonSpace(s: string)
    requires s != "" && !IsSpace(s[0])
    ensures ThenSpace(Strip(s), s)
  {
    assert TrimStart(s) == s;
    TrimEndSpec(s);
  }

  /** Text that starts with a non-space and ends with whitespace loses only its trailing whitespace. */
  lemma StripDropsTrailingSpace(s: string)
    requires s != "" && !IsSpace(s[0]) && IsSpace(s[|s| - 1])
    ensures ThenSpace(Strip(s), s)
    ensures |Strip(s)| < |s|
  {
    StripFromNonSpace(s);
    StripSpec(s);
  }

  // ---------------------------------------------------------------------------
  // Decimal numerals (the rank in an f-string)
  // ---------------------------------------------------------------------------

  predicate IsDigit(c: char)
  {
    '0' <= c <= '9'
  }

  predicate AllDigits(s: string)
  {
    forall i :: 0 <= i < |s| ==> IsDigit(s[i])
  }

  function DigitChar(d: nat): (c: char)
    requires d < 10
    ensures IsDigit(c) && c as int - '0' as int == d
  {
    ('0' as int + d) as char
  }

  /** `str(n)` for a non-negative integer: decimal digits, no leading zero. */
  function NatToString(n: nat): (s: string)
    ensures s != "" && AllDigits(s)
    ensures |s| > 1 ==> s[0] != '0'
    decreases n
  {
    if n < 10 then [DigitChar(n)] else NatToString(n / 10) + [DigitChar(n % 10)]
  }

  /** The value of a string of decimal digits (`int(s)` on such a string). */
  function ParseDecimal(s: string): nat
    requires AllDigits(s)
  {
    if s == "" then 0 else 10 * ParseDecimal(s[..|s| - 1]) + (s[|s| - 1] as int - '0' as int)
  }

  /** Rendering a number and reading it back gives the number. */
  lemma {:induction false} NatToStringRoundTrip(n: nat)
    ensures ParseDecimal(NatToString(n)) == n
    decreases n
  {
    if n >= 10 {
      var s := NatToString(n);
      assert s[..|s| - 1] == NatToString(n / 10);
      NatToStringRoundTrip(n / 10);
    }
  }

  /** The longest prefix of `s` made of decimal digits. */
  function LeadingDigits(s: string): (d: string)
    ensures AllDigits(d)
    ensures |d| <= |s| && d == s[..|d|]
    ensures |d| < |s| ==> !IsDigit(s[|d|])
  {
    if s != "" && IsDigit(s[0]) then [s[0]] + LeadingDigits(s[1..]) else ""
  }

  /** A digit string followed by a non-digit is exactly the leading digits. */
  lemma {:induction false} LeadingDigitsOf(d: string, rest: string)
    requires AllDigits(d)
    requires rest == "" || !IsDigit(rest[0])
    ensures LeadingDigits(d + rest) == d
    decreases |d|
  {
    if d == "" {
      assert d + rest == rest;
    } else {
      assert (d + rest)[1..] == d[1..] + rest;
      LeadingDigitsOf(d[1..], rest);
    }
  }
}
