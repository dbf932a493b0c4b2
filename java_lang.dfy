/**
 * The pieces of java.lang that the decoder and the emulator lean on:
 * 32-bit `int` arithmetic and the handful of String operations the table
 * compiler and the address renderer call, each written out exactly as far
 * as this program uses it.
 */
module JavaLang {

  /** Java's `int`: 32 bits, two's complement. */
  type Int32 = x: int | -0x8000_0000 <= x < 0x8000_0000

  const TwoTo32: int := 0x1_0000_0000

  /** The `int` that Java's `+` yields for a mathematical result `x`. */
  function WrapInt32(x: int): (r: Int32)
    ensures (r - x) % TwoTo32 == 0
    ensures -0x8000_0000 <= x < 0x8000_0000 ==> r == x
  {
    var m := x % TwoTo32;
    if m < 0x8000_0000 then m else m - TwoTo32
  }

  /**
   * `(x & bit) != 0` for a single-bit mask `bit`: in two's complement the
   * bits of `x` below and at `bit` are those of the (Euclidean, never
   * negative) remainder of `x` by `2 * bit`.
   */
  predicate HasBit(x: int, bit: int)
    requires bit > 0
  {
    x % (2 * bit) >= bit
  }

  /** `Math.abs`: the absolute value, except that the most negative `int` is its own absolute value. */
  function Abs(x: Int32): (r: Int32)
    ensures x != -0x8000_0000 ==> r >= 0 && (r == x || r == -x)
    ensures x == -0x8000_0000 ==> r == x
  {
    if x >= 0 then x else if x == -0x8000_0000 then x else -x
  }

  // ---------------------------------------------------------------------
  // Characters

  /** `Character.isWhitespace` on the ASCII range (what `String.strip` removes). */
  predicate IsWhitespace(c: char) {
    c == ' ' || c == '\t' || c == '\n' || c == '\U{B}' || c == '\U{C}' || c == '\r' ||
    ('\U{1C}' <= c <= '\U{1F}')
  }

  /** The regular-expression class `\s`: space, tab, newline, vertical tab, form feed, return. */
  predicate IsRegexSpace(c: char) {
    c == ' ' || c == '\t' || c == '\n' || c == '\U{B}' || c == '\U{C}' || c == '\r'
  }

  /** `Character.toUpperCase` on ASCII letters. */
  function UpperChar(c: char): char {
    if 'a' <= c <= 'z' then (c as int - 'a' as int + 'A' as int) as char else c
  }

  // ---------------------------------------------------------------------
  // Strings

  /** Drops leading `Character.isWhitespace` characters. */
  function StripLeading(s: string): (r: string)
    ensures |r| <= |s| && r == s[|s| - |r|..]
    ensures r == [] || !IsWhitespace(r[0])
    ensures forall i :: 0 <= i < |s| - |r| ==> IsWhitespace(s[i])
  {
    if s != [] && IsWhitespace(s[0]) then StripLeading(s[1..]) else s
  }

  /** Drops trailing `Character.isWhitespace` characters. */
  function StripTrailing(s: string): (r: string)
    ensures |r| <= |s| && r == s[..|r|]
    ensures r == [] || !IsWhitespace(r[|r| - 1])
    ensures forall i :: |r| <= i < |s| ==> IsWhitespace(s[i])
  {
    if s != [] && IsWhitespace(s[|s| - 1]) then StripTrailing(s[..|s| - 1]) else s
  }

  /** `String.strip`. */
  function Strip(s: string): string {
    StripTrailing(StripLeading(s))
  }

  /** `s.replaceAll("\\s+", "")`: every `\s` character removed, the others kept in order. */
  function RemoveWhitespace(s: string): (r: string)
    ensures |r| <= |s|
    ensures forall i :: 0 <= i < |r| ==> !IsRegexSpace(r[i])
    ensures (forall i :: 0 <= i < |s| ==> !IsRegexSpace(s[i])) ==> r == s
  {
    if s == [] then []
    else if IsRegexSpace(s[0]) then RemoveWhitespace(s[1..])
    else [s[0]] + RemoveWhitespace(s[1..])
  }

  /** `String.toUpperCase`, ASCII letters only. */
  function ToUpper(s: string): (r: string)
    ensures |r| == |s| && forall i :: 0 <= i < |s| ==> r[i] == UpperChar(s[i])
  {
    seq(|s|, i requires 0 <= i < |s| => UpperChar(s[i]))
  }

  /** `String.startsWith`. */
  predicate StartsWith(s: string, p: string) {
    |p| <= |s| && s[..|p|] == p
  }

  /** `String.contains`, scanning from the left. */
  predicate Contains(s: string, p: string) {
    StartsWith(s, p) || (s != [] && Contains(s[1..], p))
  }

  /** `p` occurs in `s` starting at index `i`. */
  predicate OccursAt(s: string, p: string, i: int) {
    0 <= i && i + |p| <= |s| && s[i..i + |p|] == p
  }

  /** `String.contains` holds exactly when `p` occurs at some position of `s`. */
  lemma {:induction false} ContainsIff(s: string, p: string)
    ensures Contains(s, p) <==> exists i :: OccursAt(s, p, i)
  {
    if Contains(s, p) {
      if StartsWith(s, p) {
        assert s[0..|p|] == s[..|p|];
        assert OccursAt(s, p, 0);
      } else {
        ContainsIff(s[1..], p);
        var i :| OccursAt(s[1..], p, i);
        assert s[1..][i..i + |p|] == s[i + 1..i + 1 + |p|];
        assert OccursAt(s, p, i + 1);
      }
    }
    if exists i :: OccursAt(s, p, i) {
      var i :| OccursAt(s, p, i);
      if i == 0 {
        assert s[..|p|] == s[0..|p|];
        assert StartsWith(s, p);
      } else {
        assert s[1..][i - 1..i - 1 + |p|] == s[i..i + |p|];
        assert OccursAt(s[1..], p, i - 1);
        ContainsIff(s[1..], p);
      }
    }
  }

  /**
   * `s.replaceAll(p, "")` for a pattern without metacharacters: the
   * occurrences of `p` found scanning from the left, not overlapping,
   * are deleted; what is left is not scanned again.
   */
  function DeleteAll(s: string, p: string): (r: string)
    ensures |r| <= |s|
    ensures !Contains(s, p) ==> r == s
    decreases |s|
  {
    if |p| == 0 || |s| < |p| then s
    else if s[..|p|] == p then DeleteAll(s[|p|..], p)
    else [s[0]] + DeleteAll(s[1..], p)
  }

  /** `s.replace(p, q)`: non-overlapping occurrences of `p`, from the left, replaced by `q`. */
  function Replace(s: string, p: string, q: string): (r: string)
    requires |p| > 0
    ensures |p| == |q| ==> |r| == |s|
    ensures !Contains(s, p) ==> r == s
    decreases |s|
  {
    if |s| < |p| then s
    else if s[..|p|] == p then q + Replace(s[|p|..], p, q)
    else [s[0]] + Replace(s[1..], p, q)
  }

  /** Characters before any possible start of `p` are copied unchanged. */
  lemma {:induction false} ReplaceSkipsPrefix(a: string, b: string, p: string, q: string)
    requires |p| > 0 && forall i :: 0 <= i < |a| ==> a[i] != p[0]
    ensures Replace(a + b, p, q) == a + Replace(b, p, q)
  {
    if a == [] {
      assert a + b == b;
    } else {
      var s := a + b;
      assert s[0] == a[0];
      assert s[1..] == a[1..] + b;
      ReplaceSkipsPrefix(a[1..], b, p, q);
      if |s| >= |p| {
        assert s[..|p|][0] == s[0];
        assert Replace(s, p, q) == [a[0]] + (a[1..] + Replace(b, p, q));
        assert [a[0]] + (a[1..] + Replace(b, p, q)) == a + Replace(b, p, q);
      } else {
        assert Replace(b, p, q) == b;
      }
    }
  }

  /** An occurrence at the front is replaced and scanning resumes after it. */
  lemma ReplaceAtFront(p: string, b: string, q: string)
    requires |p| > 0
    ensures Replace(p + b, p, q) == q + Replace(b, p, q)
  {
    var s := p + b;
    assert s[..|p|] == p;
    assert s[|p|..] == b;
  }

  /**
   * An occurrence of `p` after text free of `p`'s first character, and
   * followed by text that does not contain `p`, is the only one replaced.
   */
  lemma {:induction false} ReplaceOnce(a: string, p: string, b: string, q: string)
    requires |p| > 0
    requires forall i :: 0 <= i < |a| ==> a[i] != p[0]
    requires !Contains(b, p)
    ensures Replace(a + p + b, p, q) == a + q + b
  {
    ReplaceSkipsPrefix(a, p + b, p, q);
    ReplaceAtFront(p, b, q);
    assert a + p + b == a + (p + b);
    assert a + (q + b) == a + q + b;
  }

  // ---------------------------------------------------------------------
  // Decimal text of an int (`"" + n`)

  function DigitChar(d: nat): (c: char)
    requires d < 10
    ensures '0' <= c <= '9' && c as int - '0' as int == d
  {
    ('0' as int + d) as char
  }

  predicate IsDigits(s: string) {
    forall i :: 0 <= i < |s| ==> '0' <= s[i] <= '9'
  }

  /** The decimal digits of `n`, most significant first, without leading zeros. */
  function NatToString(n: nat): (s: string)
    ensures |s| >= 1 && IsDigits(s)
    ensures s[0] == '0' ==> n == 0
    decreases n
  {
    if n < 10 then [DigitChar(n)] else NatToString(n / 10) + [DigitChar(n % 10)]
  }

  /** `Integer.toString`: a minus sign for negative numbers, then the digits. */
  function IntToString(n: int): string {
    if n < 0 then "-" + NatToString(-n) else NatToString(n)
  }

  /** The number a string of decimal digits denotes. */
  function DigitsValue(s: string): nat
    requires IsDigits(s)
  {
    if s == [] then 0 else DigitsValue(s[..|s| - 1]) * 10 + (s[|s| - 1] as int - '0' as int)
  }

  /** Reading the digits back gives the number: the rendering loses nothing. */
  lemma {:induction false} NatToStringRoundTrip(n: nat)
    ensures DigitsValue(NatToString(n)) == n
    decreases n
  {
    if n >= 10 {
      NatToStringRoundTrip(n / 10);
      var s := NatToString(n);
      assert s[..|s| - 1] == NatToString(n / 10);
    }
  }
}
