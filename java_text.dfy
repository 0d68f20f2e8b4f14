/**
 * The few `java.lang.String` operations the harness relies on, with the
 * semantics the Java platform gives them: `contains`, `trim`, `strip`,
 * `split` with a one-character pattern (limit 0, so trailing empty strings
 * are removed), `Integer.toString` and `Boolean.toString`.
 */
module JavaText {

  /** `s.contains(sub)`: `sub` is a prefix of some suffix of `s`. */
  predicate Contains(s: string, sub: string)
    decreases |s|
  {
    sub <= s || (s != [] && Contains(s[1..], sub))
  }

  /** `Contains` agrees with the positional definition of a substring occurrence. */
  lemma {:induction false} ContainsIff(s: string, sub: string)
    ensures Contains(s, sub) <==> exists i :: 0 <= i <= |s| && sub <= s[i..]
  {
    if sub <= s {
      assert s[0..] == s;
    } else if s != [] {
      ContainsIff(s[1..], sub);
      if exists i :: 0 <= i <= |s| && sub <= s[i..] {
        var i :| 0 <= i <= |s| && sub <= s[i..];
        assert i != 0;
        assert s[1..][i - 1..] == s[i..];
      }
      if Contains(s[1..], sub) {
        var i :| 0 <= i <= |s| - 1 && sub <= s[1..][i..];
        assert s[1..][i..] == s[i + 1..];
      }
    } else {
      assert forall i :: 0 <= i <= |s| ==> s[i..] == s;
    }
  }

  /** The characters `String.trim` removes: every code unit at or below U+0020. */
  predicate IsTrimmable(c: char) {
    c <= ' '
  }

  /** The characters `String.strip` removes: those `Character.isWhitespace` accepts. */
  predicate IsWhitespace(c: char) {
    var n := c as int;
    (0x09 <= n <= 0x0D) || (0x1C <= n <= 0x20) || n == 0x1680
    || (0x2000 <= n <= 0x2006) || (0x2008 <= n <= 0x200A)
    || n == 0x2028 || n == 0x2029 || n == 0x205F || n == 0x3000
  }

  /** The longest suffix of `s` that does not start with a character satisfying `p`. */
  function DropLeading(s: string, p: char -> bool): (r: string)
    ensures |r| <= |s| && r == s[|s| - |r|..]
    ensures forall i :: 0 <= i < |s| - |r| ==> p(s[i])
    ensures r != [] ==> !p(r[0])
    decreases |s|
  {
    if s != [] && p(s[0]) then DropLeading(s[1..], p) else s
  }

  /** The longest prefix of `s` that does not end with a character satisfying `p`. */
  function DropTrailing(s: string, p: char -> bool): (r: string)
    ensures |r| <= |s| && r == s[..|r|]
    ensures forall i :: |r| <= i < |s| ==> p(s[i])
    ensures r != [] ==> !p(r[|r| - 1])
    decreases |s|
  {
    if s != [] && p(s[|s| - 1]) then DropTrailing(s[..|s| - 1], p) else s
  }

  /**
   * `r` is the slice of `s` starting at `i`, and everything of `s` before
   * and after that slice satisfies `p`.
   */
  predicate StrippedSlice(s: string, r: string, i: int, p: char -> bool) {
    && 0 <= i <= |s| - |r| && r == s[i..i + |r|]
    && (forall k :: 0 <= k < i ==> p(s[k]))
    && (forall k :: i + |r| <= k < |s| ==> p(s[k]))
  }

  /**
   * Taking a suffix `t` of `s` after only `p` characters, then a prefix `r`
   * of `t` before only `p` characters, leaves an inner slice of `s` with only
   * `p` characters around it.
   */
  lemma DroppedSlice(s: string, t: string, r: string, p: char -> bool)
    requires |t| <= |s| && t == s[|s| - |t|..] && forall k :: 0 <= k < |s| - |t| ==> p(s[k])
    requires |r| <= |t| && r == t[..|r|] && forall k :: |r| <= k < |t| ==> p(t[k])
    ensures StrippedSlice(s, r, |s| - |t|, p)
  {
    var i := |s| - |t|;
    assert r == s[i..i + |r|];
    forall k | i + |r| <= k < |s|
      ensures p(s[k])
    {
      assert s[k] == t[k - i];
    }
  }

  /** `s.trim()`: the slice of `s` left after removing every leading and trailing character at or below U+0020. */
  function Trim(s: string): (r: string)
    ensures |r| <= |s|
    ensures exists i :: StrippedSlice(s, r, i, IsTrimmable)
    ensures r != [] ==> !IsTrimmable(r[0]) && !IsTrimmable(r[|r| - 1])
    ensures r == [] <==> forall i :: 0 <= i < |s| ==> IsTrimmable(s[i])
  {
    var t := DropLeading(s, IsTrimmable);
    var r := DropTrailing(t, IsTrimmable);
    assert r != [] ==> r[0] == t[0];
    DroppedSlice(s, t, r, IsTrimmable);
    r
  }

  /** `s.strip()`: the slice of `s` left after removing every leading and trailing whitespace character. */
  function Strip(s: string): (r: string)
    ensures |r| <= |s|
    ensures exists i :: StrippedSlice(s, r, i, IsWhitespace)
    ensures r != [] ==> !IsWhitespace(r[0]) && !IsWhitespace(r[|r| - 1])
    ensures r == [] <==> forall i :: 0 <= i < |s| ==> IsWhitespace(s[i])
  {
    var t := DropLeading(s, IsWhitespace);
    var r := DropTrailing(t, IsWhitespace);
    assert r != [] ==> r[0] == t[0];
    DroppedSlice(s, t, r, IsWhitespace);
    r
  }

  /** The position of the first occurrence of `c` in `s`. */
  function IndexOf(s: string, c: char): (i: nat)
    requires c in s
    ensures i < |s| && s[i] == c && c !in s[..i]
  {
    if s[0] == c then 0 else 1 + IndexOf(s[1..], c)
  }

  /** `s` up to (excluding) the first `c`, or all of `s` when it holds no `c`. */
  function UpTo(s: string, c: char): (r: string)
    ensures r <= s && c !in r
    ensures |r| < |s| ==> s[|r|] == c
    decreases |s|
  {
    if s == [] || s[0] == c then [] else [s[0]] + UpTo(s[1..], c)
  }

  /** Every piece of `s` between occurrences of `c`, empty pieces included. */
  function Pieces(s: string, c: char): (r: seq<string>)
    ensures |r| >= 1
    decreases |s|
  {
    if s == [] then [[]]
    else
      var rest := Pieces(s[1..], c);
      if s[0] == c then [[]] + rest else [[s[0]] + rest[0]] + rest[1..]
  }

  /** The first piece is everything before the first `c`. */
  lemma {:induction false} PiecesFirst(s: string, c: char)
    ensures Pieces(s, c)[0] == UpTo(s, c)
    decreases |s|
  {
    if s != [] && s[0] != c {
      PiecesFirst(s[1..], c);
    }
  }

  /** Splitting at the first `c`: the part before it, then the pieces of what follows it. */
  lemma {:induction false} PiecesAtFirst(s: string, c: char)
    requires c in s
    ensures Pieces(s, c) == [s[..IndexOf(s, c)]] + Pieces(s[IndexOf(s, c) + 1..], c)
    decreases |s|
  {
    if s[0] != c {
      var i := IndexOf(s, c);
      var t := s[1..];
      assert c in t by { assert s[i] == c && t[i - 1] == s[i]; }
      PiecesAtFirst(t, c);
      assert i == 1 + IndexOf(t, c);
      assert [s[0]] + t[..i - 1] == s[..i];
      assert t[i - 1 + 1..] == s[i + 1..];
    }
  }

  /** The pieces glued back together with `c` between consecutive ones. */
  function Join(ps: seq<string>, c: char): string
  {
    if ps == [] then []
    else if |ps| == 1 then ps[0]
    else ps[0] + [c] + Join(ps[1..], c)
  }

  /** Lengthening the first piece lengthens the joined text at its front. */
  lemma JoinExtendFirst(x: char, ps: seq<string>, c: char)
    requires ps != []
    ensures Join([[x] + ps[0]] + ps[1..], c) == [x] + Join(ps, c)
  {
    var qs := [[x] + ps[0]] + ps[1..];
    assert qs[1..] == ps[1..];
  }

  /** `Pieces` is undone by `Join`: splitting at every `c` loses nothing. */
  lemma {:induction false} JoinPieces(s: string, c: char)
    ensures Join(Pieces(s, c), c) == s
    decreases |s|
  {
    if s != [] {
      var rest := Pieces(s[1..], c);
      JoinPieces(s[1..], c);
      if s[0] == c {
        assert ([[]] + rest)[1..] == rest;
      } else {
        JoinExtendFirst(s[0], rest, c);
      }
      assert s == [s[0]] + s[1..];
    }
  }

  /** No piece holds the separator. */
  lemma {:induction false} PiecesWithoutSeparator(s: string, c: char)
    ensures forall k :: 0 <= k < |Pieces(s, c)| ==> c !in Pieces(s, c)[k]
    decreases |s|
  {
    if s != [] {
      var rest := Pieces(s[1..], c);
      PiecesWithoutSeparator(s[1..], c);
      var ps := Pieces(s, c);
      forall k | 0 <= k < |ps| ensures c !in ps[k] {
        if s[0] == c {
          assert k == 0 || ps[k] == rest[k - 1];
        } else if k == 0 {
          assert c !in rest[0];
        } else {
          assert ps[k] == rest[k];
        }
      }
    }
  }

  /** Some piece is non-empty exactly when `s` holds a character other than `c`. */
  lemma {:induction false} PiecesNonEmpty(s: string, c: char)
    ensures (exists k :: 0 <= k < |Pieces(s, c)| && Pieces(s, c)[k] != [])
        <==> (exists j :: 0 <= j < |s| && s[j] != c)
    decreases |s|
  {
    if s != [] {
      var t := s[1..];
      var rest := Pieces(t, c);
      var ps := Pieces(s, c);
      if s[0] == c {
        PiecesNonEmpty(t, c);
        if exists k :: 0 <= k < |ps| && ps[k] != [] {
          var k :| 0 <= k < |ps| && ps[k] != [];
          assert rest[k - 1] == ps[k];
          var j :| 0 <= j < |t| && t[j] != c;
          assert s[j + 1] == t[j];
        }
        if exists j :: 0 <= j < |s| && s[j] != c {
          var j :| 0 <= j < |s| && s[j] != c;
          assert t[j - 1] == s[j];
          var k :| 0 <= k < |rest| && rest[k] != [];
          assert ps[k + 1] == rest[k];
        }
      } else {
        assert ps[0] != [];
        assert s[0] != c;
      }
    }
  }

  /** `ps` without its trailing empty strings. */
  function DropTrailingEmpty(ps: seq<string>): (r: seq<string>)
    ensures r <= ps
    ensures r != [] ==> r[|r| - 1] != []
    ensures forall k :: |r| <= k < |ps| ==> ps[k] == []
  {
    if ps != [] && ps[|ps| - 1] == [] then DropTrailingEmpty(ps[..|ps| - 1]) else ps
  }

  /** `s.split(String.valueOf(c))` for a `c` with no special meaning in a regular expression. */
  function Split(s: string, c: char): seq<string>
  {
    if c in s then DropTrailingEmpty(Pieces(s, c)) else [s]
  }

  /** `Boolean.toString(b)`. */
  function BoolText(b: bool): string
  {
    if b then "true" else "false"
  }

  predicate IsDigit(c: char) {
    '0' <= c <= '9'
  }

  function DigitChar(d: nat): (c: char)
    requires d < 10
    ensures IsDigit(c) && c as int - '0' as int == d
  {
    ('0' as int + d) as char
  }

  /** The decimal digits of `n`, most significant first, without leading zeros. */
  function NatToDecimal(n: nat): (r: string)
    ensures r != [] && (forall k :: 0 <= k < |r| ==> IsDigit(r[k]))
    ensures r[0] == '0' ==> n == 0
  {
    if n < 10 then [DigitChar(n)] else NatToDecimal(n / 10) + [DigitChar(n % 10)]
  }

  /** `Integer.toString(n)`. */
  function IntToDecimal(n: int): string
  {
    if n < 0 then "-" + NatToDecimal(-n) else NatToDecimal(n)
  }

  /** The number a string of decimal digits denotes. */
  function DecimalValue(s: string): nat
    requires forall k :: 0 <= k < |s| ==> IsDigit(s[k])
  {
    if s == [] then 0
    else
      assert IsDigit(s[|s| - 1]);
      10 * DecimalValue(s[..|s| - 1]) + (s[|s| - 1] as int - '0' as int)
  }

  /** Reading back the digits `NatToDecimal` writes gives the original number. */
  lemma {:induction false} NatToDecimalRoundTrip(n: nat)
    ensures DecimalValue(NatToDecimal(n)) == n
  {
    if n >= 10 {
      NatToDecimalRoundTrip(n / 10);
      var r := NatToDecimal(n);
      assert r[..|r| - 1] == NatToDecimal(n / 10);
    }
  }

  /** Different natural numbers have different decimal digits. */
  lemma NatToDecimalInjective(a: nat, b: nat)
    requires NatToDecimal(a) == NatToDecimal(b)
    ensures a == b
  {
    NatToDecimalRoundTrip(a);
    NatToDecimalRoundTrip(b);
  }

  /** `Integer.toString(n)` starts with a minus sign exactly for negative `n`, followed by the digits of `-n`. */
  lemma IntToDecimalSign(n: int)
    ensures IntToDecimal(n) != []
    ensures IntToDecimal(n)[0] == '-' <==> n < 0
    ensures n < 0 ==> IntToDecimal(n)[1..] == NatToDecimal(-n)
  {
  }

  /** `Integer.toString` is injective: different numbers print differently. */
  lemma IntToDecimalInjective(a: int, b: int)
    requires IntToDecimal(a) == IntToDecimal(b)
    ensures a == b
  {
    IntToDecimalSign(a);
    IntToDecimalSign(b);
    if a < 0 {
      NatToDecimalInjective(-a, -b);
    } else {
      NatToDecimalInjective(a, b);
    }
  }
}
