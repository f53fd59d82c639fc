/**
 * The string operations app.py relies on, modelled over `string` (sequences
 * of Unicode scalar values): `str.strip()`, `str.lower()` as far as the
 * allow-set needs it, decimal formatting of an integer (`f"{n}"`), and the
 * order SQLite's BINARY collation puts on TEXT values.
 */
module Text {

  /** Python's `str.isspace()` for one character: the characters `str.strip()` removes. */
  predicate IsSpace(c: char)
    ensures IsSpace(c) ==> c != '.' && c != '_' && !IsDigit(c) && !('a' <= c <= 'z') && !('A' <= c <= 'Z')
    ensures c == ' ' || c == '\t' || c == '\n' || c == '\r' ==> IsSpace(c)
  {
    var n := c as int;
    (0x09 <= n <= 0x0D) || (0x1C <= n <= 0x20) || n == 0x85 || n == 0xA0 || n == 0x1680 ||
    (0x2000 <= n <= 0x200A) || n == 0x2028 || n == 0x2029 || n == 0x202F || n == 0x205F || n == 0x3000
  }

  predicate AllSpace(s: string) {
    forall k :: 0 <= k < |s| ==> IsSpace(s[k])
  }

  /** No whitespace at either end. */
  predicate Trimmed(s: string) {
    s == [] || (!IsSpace(s[0]) && !IsSpace(s[|s| - 1]))
  }

  /**
   * `s.strip()`: removes whitespace from both ends, one character at a time,
   * until both ends are something else or nothing is left.
   */
  function Strip(s: string): (r: string)
    ensures Trimmed(r)
    ensures r == [] <==> AllSpace(s)
    ensures |r| <= |s|
  {
    if s == [] then []
    else if IsSpace(s[0]) then
      assert AllSpace(s) <==> AllSpace(s[1..]);
      Strip(s[1..])
    else if IsSpace(s[|s| - 1]) then
      Strip(s[..|s| - 1])
    else
      s
  }

  /**
   * Strip removes exactly the surrounding whitespace: for any split of `s`
   * into whitespace, a trimmed middle, and whitespace, the middle is the result.
   */
  lemma {:induction false} StripExactly(a: string, m: string, b: string)
    requires AllSpace(a) && AllSpace(b) && Trimmed(m)
    ensures Strip(a + m + b) == m
  {
    var s := a + m + b;
    if a != [] {
      assert s[0] == a[0];
      assert s[1..] == a[1..] + m + b;
      StripExactly(a[1..], m, b);
    } else if m == [] {
      assert s == b;
    } else if b != [] {
      assert s[0] == m[0] && s[|s| - 1] == b[|b| - 1];
      assert s[..|s| - 1] == a + m + b[..|b| - 1];
      StripExactly(a, m, b[..|b| - 1]);
    } else {
      assert s == m;
    }
  }

  /** `s` is `r` with `i` whitespace characters before it and only whitespace after it. */
  predicate PaddedAt(s: string, r: string, i: nat) {
    i + |r| <= |s| && s[i..i + |r|] == r && AllSpace(s[..i]) && AllSpace(s[i + |r|..])
  }

  /** The result of Strip is `s` with some whitespace cut from each end. */
  lemma {:induction false} StripIsInfix(s: string)
    ensures exists i: nat :: PaddedAt(s, Strip(s), i)
  {
    var r := Strip(s);
    if s == [] {
      assert PaddedAt(s, r, 0);
    } else if IsSpace(s[0]) {
      StripIsInfix(s[1..]);
      var i: nat :| PaddedAt(s[1..], r, i);
      PadFront(s, r, i);
    } else if IsSpace(s[|s| - 1]) {
      StripIsInfix(s[..|s| - 1]);
      var i: nat :| PaddedAt(s[..|s| - 1], r, i);
      PadBack(s, r, i);
    } else {
      assert s[..0] == [] && s[|s|..] == [] && s[0..|s|] == s;
      assert PaddedAt(s, r, 0);
    }
  }

  lemma PadFront(s: string, r: string, i: nat)
    requires s != [] && IsSpace(s[0]) && PaddedAt(s[1..], r, i)
    ensures PaddedAt(s, r, i + 1)
  {
    assert s[i + 1..i + 1 + |r|] == s[1..][i..i + |r|];
    assert s[i + 1 + |r|..] == s[1..][i + |r|..];
    var pre := s[..i + 1];
    forall k | 0 <= k < |pre| ensures IsSpace(pre[k]) {
      if k > 0 { assert pre[k] == s[1..][..i][k - 1]; }
    }
  }

  lemma PadBack(s: string, r: string, i: nat)
    requires s != [] && IsSpace(s[|s| - 1]) && PaddedAt(s[..|s| - 1], r, i)
    ensures PaddedAt(s, r, i)
  {
    var t := s[..|s| - 1];
    assert s[i..i + |r|] == t[i..i + |r|];
    assert s[..i] == t[..i];
    var post := s[i + |r|..];
    forall k | 0 <= k < |post| ensures IsSpace(post[k]) {
      if k < |t| - (i + |r|) { assert post[k] == t[i + |r|..][k]; }
    }
  }

  /** Stripping twice is stripping once. */
  lemma StripIdempotent(s: string)
    ensures Strip(Strip(s)) == Strip(s)
  {
    StripExactly([], Strip(s), []);
    assert [] + Strip(s) + [] == Strip(s);
  }

  /** `str.lower()` on one character, for the ASCII letters. */
  function LowerChar(c: char): char {
    if 'A' <= c <= 'Z' then (c as int + 32) as char else c
  }

  /** `str.lower()`, character by character. */
  function Lower(s: string): (r: string)
    ensures |r| == |s|
    ensures forall k :: 0 <= k < |s| ==> r[k] == LowerChar(s[k])
  {
    if s == [] then [] else [LowerChar(s[0])] + Lower(s[1..])
  }

  lemma LowerConcat(a: string, b: string)
    ensures Lower(a + b) == Lower(a) + Lower(b)
  {
    assert forall k :: 0 <= k < |a + b| ==> Lower(a + b)[k] == (Lower(a) + Lower(b))[k];
  }

  lemma LowerIdempotent(s: string)
    ensures Lower(Lower(s)) == Lower(s)
  {
  }

  /** A dot is left alone by lowering and nothing else lowers to a dot. */
  lemma LowerKeepsDots(s: string)
    ensures '.' in Lower(s) <==> '.' in s
  {
    if '.' in s {
      var k :| 0 <= k < |s| && s[k] == '.';
      assert Lower(s)[k] == '.';
    }
    if '.' in Lower(s) {
      var k :| 0 <= k < |s| && Lower(s)[k] == '.';
      assert s[k] == '.';
    }
  }

  function DigitChar(d: nat): char
    requires d < 10
  {
    "0123456789"[d]
  }

  predicate IsDigit(c: char) {
    '0' <= c <= '9'
  }

  /** `f"{n}"` for a non-negative integer: its decimal digits, no leading zero. */
  function Decimal(n: nat): (r: string)
    ensures |r| >= 1
    ensures forall k :: 0 <= k < |r| ==> IsDigit(r[k])
    ensures r[0] == '0' ==> n == 0
  {
    if n < 10 then [DigitChar(n)] else Decimal(n / 10) + [DigitChar(n % 10)]
  }

  /** The integer a string of decimal digits denotes (Python's `int(s)` on digits). */
  function DigitsValue(s: string): nat
    requires forall k :: 0 <= k < |s| ==> IsDigit(s[k])
  {
    assert s != [] ==> IsDigit(s[|s| - 1]);
    if s == [] then 0 else DigitsValue(s[..|s| - 1]) * 10 + (s[|s| - 1] as int - '0' as int)
  }

  /** Reading back the decimal text of `n` gives `n`. */
  lemma {:induction false} DecimalRoundTrip(n: nat)
    ensures DigitsValue(Decimal(n)) == n
  {
    if n >= 10 {
      var s := Decimal(n);
      assert s[..|s| - 1] == Decimal(n / 10);
      DecimalRoundTrip(n / 10);
    }
  }

  /** Different numbers are written differently. */
  lemma DecimalInjective(m: nat, n: nat)
    requires Decimal(m) == Decimal(n)
    ensures m == n
  {
    DecimalRoundTrip(m);
    DecimalRoundTrip(n);
  }

  /**
   * `a <= b` on TEXT under SQLite's BINARY collation: byte-wise comparison of
   * the UTF-8 encodings, a proper prefix first. UTF-8 preserves code point
   * order, so this is code point order on the characters.
   */
  predicate TextLe(a: string, b: string)
    ensures |a| <= |b| && a == b[..|a|] ==> TextLe(a, b)
    ensures TextLe(a, b) && a != [] ==> b != [] && a[0] <= b[0]
  {
    assert |a| <= |b| && a == b[..|a|] && a != [] ==> a[1..] == b[1..][..|a| - 1];
    a == [] || (b != [] && (a[0] < b[0] || (a[0] == b[0] && TextLe(a[1..], b[1..]))))
  }

  lemma {:induction false} TextLeTotal(a: string, b: string)
    ensures TextLe(a, b) || TextLe(b, a)
  {
    if a != [] && b != [] && a[0] == b[0] {
      TextLeTotal(a[1..], b[1..]);
    }
  }

  lemma {:induction false} TextLeTransitive(a: string, b: string, c: string)
    requires TextLe(a, b) && TextLe(b, c)
    ensures TextLe(a, c)
  {
    if a != [] && a[0] == b[0] && b[0] == c[0] {
      TextLeTransitive(a[1..], b[1..], c[1..]);
    }
  }

  lemma {:induction false} TextLeAntisymmetric(a: string, b: string)
    requires TextLe(a, b) && TextLe(b, a)
    ensures a == b
  {
    if a != [] {
      TextLeAntisymmetric(a[1..], b[1..]);
    }
  }
}
