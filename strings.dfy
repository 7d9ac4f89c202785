/** String primitives of JavaScript that the product back end relies on:
    the white-space class shared by `\s` and `String.prototype.trim`,
    `trim`, `split`, and `Number.prototype.toString(radix)` on non-negative
    integers. */
module Strings {

  /** ECMAScript WhiteSpace and LineTerminator code points: the set matched by
      the regular-expression class `\s` and removed by `trim()`. */
  predicate IsSpace(c: char) {
    || ('\U{9}' <= c <= '\U{D}')
    || c == '\U{20}' || c == '\U{A0}' || c == '\U{1680}'
    || ('\U{2000}' <= c <= '\U{200A}')
    || c == '\U{2028}' || c == '\U{2029}' || c == '\U{202F}' || c == '\U{205F}'
    || c == '\U{3000}' || c == '\U{FEFF}'
  }

  predicate NoSpace(s: string) {
    forall i :: 0 <= i < |s| ==> !IsSpace(s[i])
  }

  /** The index of the first code point at or after `from` that is not white
      space (`|s|` if there is none). */
  function SpaceRunEnd(s: string, from: nat): (i: nat)
    requires from <= |s|
    ensures from <= i <= |s|
    ensures forall k :: from <= k < i ==> IsSpace(s[k])
    ensures i < |s| ==> !IsSpace(s[i])
    decreases |s| - from
  {
    if from < |s| && IsSpace(s[from]) then SpaceRunEnd(s, from + 1) else from
  }

  /** The index just past the last code point before `to` that is not white
      space (0 if there is none). */
  function SpaceRunStart(s: string, to: nat): (j: nat)
    requires to <= |s|
    ensures j <= to
    ensures forall k :: j <= k < to ==> IsSpace(s[k])
    ensures j > 0 ==> !IsSpace(s[j - 1])
  {
    if to > 0 && IsSpace(s[to - 1]) then SpaceRunStart(s, to - 1) else to
  }

  /** `String.prototype.trim`: removes exactly a white-space prefix and a
      white-space suffix. The result is a slice of the input, everything cut off
      is white space, and the result neither starts nor ends with white space. */
  function Trim(s: string): (r: string)
    ensures Sliced(s, SpaceRunEnd(s, 0), r)
  {
    var i, j := SpaceRunEnd(s, 0), SpaceRunStart(s, |s|);
    if i == |s| then [] else
      assert i < j;
      s[i..j]
  }

  /** `r` stands at index `i` of `s`, what lies around it is white space, and
      `r` neither starts nor ends with white space. */
  predicate Sliced(s: string, i: nat, r: string) {
    && i + |r| <= |s| && s[i..i + |r|] == r
    && (forall k :: 0 <= k < i ==> IsSpace(s[k]))
    && (forall k :: i + |r| <= k < |s| ==> IsSpace(s[k]))
    && (r == [] || (!IsSpace(r[0]) && !IsSpace(r[|r| - 1])))
  }

  /** A string without white space is its own trim. */
  lemma TrimNoSpace(s: string)
    requires NoSpace(s)
    ensures Trim(s) == s
  {
  }

  /** `sub` occurs in `s` at index `i`. */
  predicate OccursAt(s: string, sub: string, i: int) {
    0 <= i && i + |sub| <= |s| && s[i..i + |sub|] == sub
  }

  /** `String.prototype.includes`, scanning from index `i` on. */
  function ContainsFrom(s: string, sub: string, i: nat): (b: bool)
    requires i <= |s|
    ensures b <==> exists k :: i <= k && OccursAt(s, sub, k)
    decreases |s| - i
  {
    if OccursAt(s, sub, i) then true
    else if i + |sub| >= |s| then false
    else ContainsFrom(s, sub, i + 1)
  }

  /** `s.includes(sub)`. */
  function Contains(s: string, sub: string): (b: bool)
    ensures b <==> exists k :: OccursAt(s, sub, k)
  {
    ContainsFrom(s, sub, 0)
  }

  /** `String.prototype.split` with a one-character separator on a string:
      the pieces between separators, empty pieces included. */
  function Split(s: string, sep: char): (r: seq<string>)
    ensures |r| >= 1
  {
    if s == [] then [[]]
    else if s[0] == sep then [[]] + Split(s[1..], sep)
    else var rest := Split(s[1..], sep); [[s[0]] + rest[0]] + rest[1..]
  }

  /** `Array.prototype.join` with a one-character separator. */
  function Join(pieces: seq<string>, sep: char): string
    requires |pieces| >= 1
  {
    if |pieces| == 1 then pieces[0] else pieces[0] + [sep] + Join(pieces[1..], sep)
  }

  /** Splitting loses nothing: joining the pieces back gives the input. */
  lemma {:induction false} JoinSplit(s: string, sep: char)
    ensures Join(Split(s, sep), sep) == s
  {
    if s != [] {
      JoinSplit(s[1..], sep);
      var rest := Split(s[1..], sep);
      if s[0] != sep {
        if |rest| == 1 {
          assert Split(s, sep) == [[s[0]] + rest[0]];
        } else {
          assert Split(s, sep)[1..] == rest[1..];
        }
      } else {
        assert Split(s, sep)[1..] == rest;
      }
    }
  }

  /** No piece contains the separator, and there is one piece more than there
      are separators. */
  lemma {:induction false} SplitPieces(s: string, sep: char)
    ensures forall k, j :: 0 <= k < |Split(s, sep)| && 0 <= j < |Split(s, sep)[k]| ==> Split(s, sep)[k][j] != sep
    ensures |Split(s, sep)| == Count(s, sep) + 1
  {
    if s != [] {
      SplitPieces(s[1..], sep);
      var rest := Split(s[1..], sep);
      if s[0] != sep {
        var r := Split(s, sep);
        forall k, j | 0 <= k < |r| && 0 <= j < |r[k]| ensures r[k][j] != sep {
          if k == 0 {
            if j > 0 { assert r[0][j] == rest[0][j - 1]; }
          } else {
            assert r[k] == rest[k];
          }
        }
      }
    }
  }

  predicate FreeOf(s: string, c: char) {
    forall j :: 0 <= j < |s| ==> s[j] != c
  }

  lemma {:induction false} SplitFree(a: string, sep: char)
    requires FreeOf(a, sep)
    ensures Split(a, sep) == [a]
  {
    if a != [] {
      SplitFree(a[1..], sep);
      assert Split(a, sep) == [[a[0]] + a[1..]];
      assert [a[0]] + a[1..] == a;
    }
  }

  lemma {:induction false} SplitFreeThenSep(a: string, t: string, sep: char)
    requires FreeOf(a, sep)
    ensures Split(a + [sep] + t, sep) == [a] + Split(t, sep)
  {
    if a == [] {
      assert a + [sep] + t == [sep] + t;
      assert ([sep] + t)[1..] == t;
    } else {
      assert (a + [sep] + t)[1..] == a[1..] + [sep] + t;
      SplitFreeThenSep(a[1..], t, sep);
      assert [a[0]] + a[1..] == a;
    }
  }

  /** Joining pieces free of the separator and splitting again gives the
      pieces back, empty ones included. */
  lemma {:induction false} SplitJoin(pieces: seq<string>, sep: char)
    requires |pieces| >= 1
    requires forall k :: 0 <= k < |pieces| ==> FreeOf(pieces[k], sep)
    ensures Split(Join(pieces, sep), sep) == pieces
  {
    if |pieces| == 1 {
      SplitFree(pieces[0], sep);
    } else {
      SplitJoin(pieces[1..], sep);
      SplitFreeThenSep(pieces[0], Join(pieces[1..], sep), sep);
      assert [pieces[0]] + pieces[1..] == pieces;
    }
  }

  /** Number of occurrences of `c` in `s`. */
  function Count(s: string, c: char): nat {
    if s == [] then 0 else (if s[0] == c then 1 else 0) + Count(s[1..], c)
  }

  // ---------------------------------------------------------------------------
  // Number.prototype.toString(radix) on non-negative integers
  // ---------------------------------------------------------------------------

  type Radix = r: nat | 2 <= r <= 36 witness 10

  predicate IsDigit(c: char, radix: Radix) {
    ('0' <= c <= '9' && (c as int) - ('0' as int) < radix)
    || ('a' <= c <= 'z' && (c as int) - ('a' as int) + 10 < radix)
  }

  function DigitValue(c: char): nat {
    if '0' <= c <= '9' then (c as int) - ('0' as int)
    else if 'a' <= c <= 'z' then (c as int) - ('a' as int) + 10
    else 0
  }

  /** The digit for `d`, written in lower case as JavaScript does. */
  function Digit(d: nat, radix: Radix): (c: char)
    requires d < radix
    ensures IsDigit(c, radix) && DigitValue(c) == d
  {
    if d < 10 then ('0' as int + d) as char else ('a' as int + d - 10) as char
  }

  /** `n.toString(radix)` for a non-negative integer `n`. */
  function NatToString(n: nat, radix: Radix): (s: string)
    ensures s != []
    ensures forall i :: 0 <= i < |s| ==> IsDigit(s[i], radix)
  {
    if n < radix then [Digit(n, radix)]
    else NatToString(n / radix, radix) + [Digit(n % radix, radix)]
  }

  /** The value of a string of digits; the inverse of `NatToString`. */
  function ParseNat(s: string, radix: Radix): nat {
    if s == [] then 0 else ParseNat(s[..|s| - 1], radix) * radix + DigitValue(s[|s| - 1])
  }

  lemma {:induction false} ParseNatToString(n: nat, radix: Radix)
    ensures ParseNat(NatToString(n, radix), radix) == n
    decreases n
  {
    if n >= radix {
      var q, d := n / radix, n % radix;
      var c := Digit(d, radix);
      var p := NatToString(q, radix);
      LastDigitOfString(n, radix);
      QuotientSmaller(n, radix);
      DivMod(n, radix);
      ParseNatToString(q, radix);
      LastDigit(p, c, radix);
    }
  }

  /** The last digit of `n` in base `radix` is `n % radix`, and the digits before
      it spell `n / radix`. */
  lemma LastDigitOfString(n: nat, radix: Radix)
    requires n >= radix
    ensures NatToString(n, radix) == NatToString(n / radix, radix) + [Digit(n % radix, radix)]
  {
  }

  lemma QuotientSmaller(n: nat, radix: Radix)
    requires n >= radix
    ensures 1 <= n / radix < n
  {
  }

  lemma DivMod(n: nat, radix: Radix)
    ensures n == (n / radix) * radix + n % radix
  {
  }

  lemma LastDigit(p: string, c: char, radix: Radix)
    ensures ParseNat(p + [c], radix) == ParseNat(p, radix) * radix + DigitValue(c)
  {
    assert (p + [c])[..|p|] == p;
  }

  /** Different numbers are written differently. */
  lemma NatToStringInjective(m: nat, n: nat, radix: Radix)
    requires NatToString(m, radix) == NatToString(n, radix)
    ensures m == n
  {
    ParseNatToString(m, radix);
    ParseNatToString(n, radix);
  }

  /** Written without leading zeros: zero is the single digit `0`, and no
      other number starts with `0`. */
  lemma {:induction false} NatToStringNoLeadingZero(n: nat, radix: Radix)
    ensures n == 0 ==> NatToString(n, radix) == "0"
    ensures n > 0 ==> NatToString(n, radix)[0] != '0'
    decreases n
  {
    if n < radix {
      assert NatToString(n, radix) == [Digit(n, radix)];
    } else {
      NatToStringHead(n, radix);
      QuotientSmaller(n, radix);
      NatToStringNoLeadingZero(n / radix, radix);
    }
  }

  /** A number of several digits starts with the first digit of its quotient. */
  lemma NatToStringHead(n: nat, radix: Radix)
    requires n >= radix
    ensures NatToString(n, radix)[0] == NatToString(n / radix, radix)[0]
  {
    LastDigitOfString(n, radix);
  }

  /** Decimal notation, as a template literal writes a number. */
  function Decimal(n: nat): string {
    NatToString(n, 10)
  }
}
