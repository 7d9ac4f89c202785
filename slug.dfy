/** `generateSlug` of lib/utils.ts: a chain of regular-expression replacements
    on the lower-cased text, followed by a base-36 timestamp. The clock
    reading `Date.now()` is a parameter (milliseconds since the epoch). */
module Slug {
  import opened Strings
  import opened SeqUtil

  predicate IsUpper(c: char) { 'A' <= c <= 'Z' }

  /** `\w` of a JavaScript regular expression without the `u` flag. */
  predicate IsWordChar(c: char) {
    'a' <= c <= 'z' || 'A' <= c <= 'Z' || '0' <= c <= '9' || c == '_'
  }

  /** The characters that `.replace(/[^\w\s-]/g, '')` keeps. */
  predicate Kept(c: char) { IsWordChar(c) || IsSpace(c) || c == '-' }

  /** Neither white space nor a hyphen: a character that the two collapsing
      passes never touch. */
  predicate Solid(c: char) { !IsSpace(c) && c != '-' }

  /** The alphabet of a normalised name. */
  predicate IsSlugChar(c: char) { 'a' <= c <= 'z' || '0' <= c <= '9' || c == '_' || c == '-' }

  predicate EndsWith(s: string, c: char) { |s| > 0 && s[|s| - 1] == c }

  /** `toLowerCase` on one code point, exact as far as the next pass can tell:
      ASCII capitals map to small letters; U+0130 lowers to "i" followed by
      U+0307 and the Kelvin sign U+212A to "k", the only non-ASCII code points
      whose lower case holds a character that `[^\w\s-]` keeps. Every other
      code point is left as is: if it is white space its lower case is itself,
      and otherwise both it and its lower case are removed by the next pass. */
  function LowerChar(c: char): string {
    if IsUpper(c) then [(c as int + 32) as char]
    else if c == '\U{130}' then "i\U{307}"
    else if c == '\U{212A}' then "k"
    else [c]
  }

  /** `.toLowerCase()`: no capital letter is left. */
  function LowerCase(s: string): (r: string)
    ensures forall i :: 0 <= i < |r| ==> !IsUpper(r[i])
  {
    if s == [] then [] else LowerChar(s[0]) + LowerCase(s[1..])
  }

  /** `.replace(/[^\w\s-]/g, '')`: exactly the kept characters remain, in
      order (StripSpecialIsFilter). */
  function StripSpecial(s: string): (r: string)
    ensures forall i :: 0 <= i < |r| ==> Kept(r[i]) && r[i] in s
  {
    if s == [] then []
    else (if Kept(s[0]) then [s[0]] else []) + StripSpecial(s[1..])
  }

  /** `.replace(/\s+/g, '-')`: every maximal run of white space becomes one
      hyphen. `inRun` says that the character before `s` was white space
      already replaced. */
  function CollapseSpaces(s: string, inRun: bool): (r: string)
    ensures NoSpace(r)
    ensures forall i :: 0 <= i < |r| ==> r[i] == '-' || r[i] in s
    ensures s != [] && !inRun ==> r != []
  {
    if s == [] then []
    else if IsSpace(s[0]) then
      (if inRun then [] else "-") + CollapseSpaces(s[1..], true)
    else [s[0]] + CollapseSpaces(s[1..], false)
  }

  /** `.replace(/-+/g, '-')`: every maximal run of hyphens becomes one hyphen. */
  function CollapseHyphens(s: string, inRun: bool): (r: string)
    ensures forall i :: 0 <= i < |r| ==> r[i] == '-' || r[i] in s
    ensures forall i :: 0 <= i < |r| - 1 ==> !(r[i] == '-' && r[i + 1] == '-')
    ensures inRun && r != [] ==> r[0] != '-'
    ensures s != [] && !inRun ==> r != []
  {
    if s == [] then []
    else if s[0] == '-' then
      (if inRun then [] else "-") + CollapseHyphens(s[1..], true)
    else [s[0]] + CollapseHyphens(s[1..], false)
  }

  predicate NoDoubleHyphen(s: string) {
    forall i :: 0 <= i < |s| - 1 ==> !(s[i] == '-' && s[i + 1] == '-')
  }

  /** The `romanized` text: all passes, ending with `.trim()`. A text that is
      already a normalised name is left as it is. */
  function Normalize(text: string): (r: string)
    ensures IsNormalName(text) ==> r == text
  {
    PassesFixNormalName(text);
    Trim(CollapseHyphens(CollapseSpaces(StripSpecial(LowerCase(text)), false), false))
  }

  /** Made of `a`-`z`, `0`-`9`, `_` and `-`, with no two hyphens in a row. */
  predicate IsNormalName(s: string) {
    (forall i :: 0 <= i < |s| ==> IsSlugChar(s[i])) && NoDoubleHyphen(s)
  }

  /** No pass changes a normalised name. */
  lemma PassesFixNormalName(text: string)
    ensures IsNormalName(text) ==>
      Trim(CollapseHyphens(CollapseSpaces(StripSpecial(LowerCase(text)), false), false)) == text
  {
    if IsNormalName(text) {
      assert forall i :: 0 <= i < |text| ==> IsSlugChar(text[i]);
      assert forall i :: 0 <= i < |text| ==> Kept(text[i]);
      assert NoSpace(text);
      LowerCaseFixesSlugChars(text);
      StripSpecialKeepsKept(text);
      CollapseSpacesFixesNoSpace(text, false);
      CollapseHyphensFixesSingleHyphens(text, false);
      TrimNoSpace(text);
    }
  }

  /** `Date.now().toString(36)`. */
  function Timestamp(now: nat): (ts: string)
    ensures ts != [] && forall i :: 0 <= i < |ts| ==> IsDigit(ts[i], 36) && ts[i] != '-'
  {
    NatToString(now, 36)
  }

  /** `generateSlug(text)` at clock reading `now`. Whatever the text, the slug
      ends with a hyphen and the timestamp, and what stands before that hyphen
      is never empty. */
  function GenerateSlug(text: string, now: nat): (r: string)
    ensures var ts := Timestamp(now);
      |r| > |ts| + 1 && r[|r| - |ts| - 1] == '-' && r[|r| - |ts|..] == ts
  {
    var romanized := Normalize(text);
    if romanized == [] then "product-" + Timestamp(now)
    else romanized + "-" + Timestamp(now)
  }

  /** The part of a slug before the timestamp. */
  function SlugStem(text: string): string {
    if Normalize(text) == [] then "product" else Normalize(text)
  }

  lemma SlugShape(text: string, now: nat)
    ensures GenerateSlug(text, now) == SlugStem(text) + "-" + Timestamp(now)
  {
  }

  // ---------------------------------------------------------------------------
  // Properties of the normalisation
  // ---------------------------------------------------------------------------

  /** `.trim()` has nothing left to remove: the white space is gone after the
      second pass, so in particular it does not strip hyphens. */
  lemma TrimIsNoOp(text: string)
    ensures Normalize(text) == CollapseHyphens(CollapseSpaces(StripSpecial(LowerCase(text)), false), false)
  {
    var h := CollapseHyphens(CollapseSpaces(StripSpecial(LowerCase(text)), false), false);
    assert NoSpace(h);
    TrimNoSpace(h);
  }

  /** The normalised text holds only `a`-`z`, `0`-`9`, `_` and `-`, and never two
      hyphens in a row, whatever the input. */
  lemma NormalizeAlphabet(text: string)
    ensures forall i :: 0 <= i < |Normalize(text)| ==> IsSlugChar(Normalize(text)[i])
    ensures forall i :: 0 <= i < |Normalize(text)| - 1 ==>
      !(Normalize(text)[i] == '-' && Normalize(text)[i + 1] == '-')
  {
    TrimIsNoOp(text);
    var l := LowerCase(text);
    var k := StripSpecial(l);
    var c := CollapseSpaces(k, false);
    var h := CollapseHyphens(c, false);
    forall i | 0 <= i < |k| ensures Kept(k[i]) && !IsUpper(k[i]) {
      var j :| 0 <= j < |l| && l[j] == k[i];
    }
    forall i | 0 <= i < |c| ensures IsSlugChar(c[i]) {
      if c[i] != '-' {
        var j :| 0 <= j < |k| && k[j] == c[i];
      }
    }
    forall i | 0 <= i < |h| ensures IsSlugChar(h[i]) {
      if h[i] != '-' {
        var j :| 0 <= j < |c| && c[j] == h[i];
      }
    }
  }

  /** A code point that leaves something behind after lower-casing and the
      removal of special characters. */
  predicate Survives(c: char) {
    Kept(c) || c == '\U{130}' || c == '\U{212A}'
  }

  lemma {:induction false} StripLowerEmpty(s: string)
    ensures StripSpecial(LowerCase(s)) == [] <==> forall i :: 0 <= i < |s| ==> !Survives(s[i])
  {
    if s != [] {
      StripLowerEmpty(s[1..]);
      StripAppend(LowerChar(s[0]), LowerCase(s[1..]));
      StripLowerChar(s[0]);
      assert (forall i :: 0 <= i < |s| ==> !Survives(s[i])) <==>
        !Survives(s[0]) && forall i :: 0 <= i < |s[1..]| ==> !Survives(s[1..][i]);
    }
  }

  lemma StripLowerChar(c: char)
    ensures StripSpecial(LowerChar(c)) == [] <==> !Survives(c)
  {
    if Survives(c) {
      assert StripSpecial(LowerChar(c)) != [];
    }
  }

  lemma {:induction false} StripAppend(a: string, b: string)
    ensures StripSpecial(a + b) == StripSpecial(a) + StripSpecial(b)
  {
    if a != [] {
      assert (a + b)[1..] == a[1..] + b;
      StripAppend(a[1..], b);
    } else {
      assert a + b == b;
    }
  }

  /** The normalised text is empty exactly when no code point of the input
      survives lower-casing and the removal of special characters (text made
      only of Hangul or symbols, say). A name of spaces or hyphens alone is not
      such a text: it normalises to "-". */
  lemma NormalizeEmptyIff(text: string)
    ensures Normalize(text) == [] <==> forall i :: 0 <= i < |text| ==> !Survives(text[i])
  {
    TrimIsNoOp(text);
    StripLowerEmpty(text);
  }

  /** Such a name gets the slug "product-" and the timestamp. */
  lemma NoSurvivorsGivesProductSlug(text: string, now: nat)
    requires forall i :: 0 <= i < |text| ==> !Survives(text[i])
    ensures GenerateSlug(text, now) == "product-" + Timestamp(now)
  {
    NormalizeEmptyIff(text);
  }

  /** A name that starts with white space gives a normalised text that starts
      with a hyphen. */
  lemma LeadingSpaceGivesLeadingHyphen(text: string)
    requires |text| > 0 && IsSpace(text[0])
    ensures |Normalize(text)| > 0 && Normalize(text)[0] == '-'
  {
    TrimIsNoOp(text);
    var l := LowerCase(text);
    LowerCaseStartsWithSpace(text);
    var k := StripSpecial(l);
    StripStartsWithSpace(l);
    var c := CollapseSpaces(k, false);
    CollapseSpacesStartsWithHyphen(k);
    CollapseHyphensStartsWithHyphen(c);
  }

  lemma LowerCaseStartsWithSpace(s: string)
    requires |s| > 0 && IsSpace(s[0])
    ensures |LowerCase(s)| > 0 && LowerCase(s)[0] == s[0]
  {
    assert LowerChar(s[0]) == [s[0]];
  }

  lemma StripStartsWithSpace(s: string)
    requires |s| > 0 && IsSpace(s[0])
    ensures |StripSpecial(s)| > 0 && StripSpecial(s)[0] == s[0]
  {
  }

  lemma CollapseSpacesStartsWithHyphen(s: string)
    requires |s| > 0 && IsSpace(s[0])
    ensures |CollapseSpaces(s, false)| > 0 && CollapseSpaces(s, false)[0] == '-'
  {
  }

  lemma CollapseHyphensStartsWithHyphen(s: string)
    requires |s| > 0 && s[0] == '-'
    ensures |CollapseHyphens(s, false)| > 0 && CollapseHyphens(s, false)[0] == '-'
  {
  }

  lemma {:induction false} LowerCaseEndsWithSpace(s: string)
    requires |s| > 0 && IsSpace(s[|s| - 1])
    ensures EndsWith(LowerCase(s), s[|s| - 1])
  {
    if |s| > 1 {
      LowerCaseEndsWithSpace(s[1..]);
    }
  }

  lemma {:induction false} StripEndsWithSpace(s: string)
    requires |s| > 0 && IsSpace(s[|s| - 1])
    ensures EndsWith(StripSpecial(s), s[|s| - 1])
  {
    if |s| > 1 {
      StripEndsWithSpace(s[1..]);
    }
  }

  lemma {:induction false} CollapseSpacesEndsWithHyphen(s: string, inRun: bool)
    requires |s| > 0 && IsSpace(s[|s| - 1])
    ensures var r := CollapseSpaces(s, inRun); r == [] || EndsWith(r, '-')
  {
    if |s| > 1 {
      CollapseSpacesEndsWithHyphen(s[1..], IsSpace(s[0]));
    }
  }

  lemma {:induction false} CollapseHyphensEndsWithHyphen(s: string, inRun: bool)
    requires EndsWith(s, '-')
    ensures var r := CollapseHyphens(s, inRun); r == [] || EndsWith(r, '-')
  {
    if |s| > 1 {
      CollapseHyphensEndsWithHyphen(s[1..], s[0] == '-');
    }
  }

  /** A name that ends with white space gives a normalised text that ends
      with a hyphen. */
  lemma TrailingSpaceGivesTrailingHyphen(text: string)
    requires |text| > 0 && IsSpace(text[|text| - 1])
    ensures EndsWith(Normalize(text), '-')
  {
    TrimIsNoOp(text);
    var l := LowerCase(text);
    LowerCaseEndsWithSpace(text);
    var k := StripSpecial(l);
    StripEndsWithSpace(l);
    var c := CollapseSpaces(k, false);
    CollapseSpacesEndsWithHyphen(k, false);
    CollapseHyphensEndsWithHyphen(c, false);
  }

  // ---------------------------------------------------------------------------
  // What each pass keeps
  // ---------------------------------------------------------------------------

  /** The removal of special characters keeps exactly the kept characters, in
      order. */
  lemma {:induction false} StripSpecialIsFilter(s: string)
    ensures StripSpecial(s) == Filter(s, Kept)
  {
    if s != [] {
      StripSpecialIsFilter(s[1..]);
    }
  }

  /** On text without U+0130 (the one code point whose lower case is two code
      points) lower-casing works position by position: `A`-`Z` become `a`-`z`,
      the Kelvin sign becomes `k`, and every other code point stays. */
  lemma {:induction false} LowerCaseOneForOne(s: string)
    requires forall i :: 0 <= i < |s| ==> s[i] != '\U{130}'
    ensures |LowerCase(s)| == |s|
    ensures forall i :: 0 <= i < |s| && IsUpper(s[i]) ==>
      'a' <= LowerCase(s)[i] <= 'z' && LowerCase(s)[i] as int == s[i] as int + 32
    ensures forall i :: 0 <= i < |s| && s[i] == '\U{212A}' ==> LowerCase(s)[i] == 'k'
    ensures forall i :: 0 <= i < |s| && !IsUpper(s[i]) && s[i] != '\U{212A}' ==> LowerCase(s)[i] == s[i]
  {
    if s != [] {
      LowerCaseOneForOne(s[1..]);
      assert |LowerChar(s[0])| == 1;
      assert LowerCase(s) == LowerChar(s[0]) + LowerCase(s[1..]);
      forall i | 1 <= i < |s| ensures LowerCase(s)[i] == LowerCase(s[1..])[i - 1] && s[i] == s[1..][i - 1] { }
    }
  }

  /** Text of `a`-`z`, `0`-`9`, `_` and `-` has no capital to lower. */
  lemma {:induction false} LowerCaseFixesSlugChars(s: string)
    requires forall i :: 0 <= i < |s| ==> IsSlugChar(s[i])
    ensures LowerCase(s) == s
  {
    if s != [] {
      LowerCaseFixesSlugChars(s[1..]);
      assert LowerChar(s[0]) == [s[0]];
    }
  }

  /** Text made only of kept characters is left as it is. */
  lemma {:induction false} StripSpecialKeepsKept(s: string)
    requires forall i :: 0 <= i < |s| ==> Kept(s[i])
    ensures StripSpecial(s) == s
  {
    if s != [] {
      StripSpecialKeepsKept(s[1..]);
    }
  }

  /** Text without white space is left as it is. */
  lemma {:induction false} CollapseSpacesFixesNoSpace(s: string, inRun: bool)
    requires NoSpace(s)
    ensures CollapseSpaces(s, inRun) == s
  {
    if s != [] {
      CollapseSpacesFixesNoSpace(s[1..], false);
    }
  }

  /** Text without two hyphens in a row is left as it is, unless it starts
      with a hyphen that continues an earlier run. */
  lemma {:induction false} CollapseHyphensFixesSingleHyphens(s: string, inRun: bool)
    requires NoDoubleHyphen(s) && !(inRun && s != [] && s[0] == '-')
    ensures CollapseHyphens(s, inRun) == s
  {
    if s != [] {
      CollapseHyphensFixesSingleHyphens(s[1..], s[0] == '-');
    }
  }

  /** Lower-casing distributes over concatenation. */
  lemma {:induction false} LowerCaseAppend(a: string, b: string)
    ensures LowerCase(a + b) == LowerCase(a) + LowerCase(b)
  {
    if a == [] {
      assert a + b == b;
    } else {
      assert (a + b)[1..] == a[1..] + b;
      LowerCaseAppend(a[1..], b);
    }
  }

  /** Replacing white-space runs by hyphens neither drops nor reorders any
      character other than white space and hyphens. */
  lemma {:induction false} CollapseSpacesKeepsSolid(s: string, inRun: bool)
    ensures Filter(CollapseSpaces(s, inRun), Solid) == Filter(s, Solid)
  {
    if s != [] {
      var t := s[1..];
      assert Filter(s, Solid) == (if Solid(s[0]) then [s[0]] else []) + Filter(t, Solid);
      if IsSpace(s[0]) {
        CollapseSpacesKeepsSolid(t, true);
        var head: string := if inRun then [] else "-";
        FilterAppend(head, CollapseSpaces(t, true), Solid);
      } else {
        CollapseSpacesKeepsSolid(t, false);
        FilterAppend([s[0]], CollapseSpaces(t, false), Solid);
      }
    }
  }

  /** Merging hyphen runs neither drops nor reorders any character other than
      white space and hyphens. */
  lemma {:induction false} CollapseHyphensKeepsSolid(s: string, inRun: bool)
    ensures Filter(CollapseHyphens(s, inRun), Solid) == Filter(s, Solid)
  {
    if s != [] {
      var t := s[1..];
      assert Filter(s, Solid) == (if Solid(s[0]) then [s[0]] else []) + Filter(t, Solid);
      if s[0] == '-' {
        CollapseHyphensKeepsSolid(t, true);
        var head: string := if inRun then [] else "-";
        FilterAppend(head, CollapseHyphens(t, true), Solid);
      } else {
        CollapseHyphensKeepsSolid(t, false);
        FilterAppend([s[0]], CollapseHyphens(t, false), Solid);
      }
    }
  }

  /** The solid characters among the kept ones are the word characters. */
  lemma {:induction false} KeptThenSolid(s: string)
    ensures Filter(Filter(s, Kept), Solid) == Filter(s, IsWordChar)
  {
    if s != [] {
      var t := s[1..];
      KeptThenSolid(t);
      if Kept(s[0]) {
        assert Filter(s, Kept) == [s[0]] + Filter(t, Kept);
        FilterAppend([s[0]], Filter(t, Kept), Solid);
      } else {
        assert Filter(s, Kept) == Filter(t, Kept);
      }
    }
  }

  /** Apart from hyphens, the normalised text holds exactly the word
      characters of the lower-cased text, in order: the passes drop nothing
      else and add nothing else. */
  lemma NormalizeKeepsWordChars(text: string)
    ensures Filter(Normalize(text), Solid) == Filter(LowerCase(text), IsWordChar)
  {
    TrimIsNoOp(text);
    var l := LowerCase(text);
    var k := StripSpecial(l);
    var c := CollapseSpaces(k, false);
    StripSpecialIsFilter(l);
    CollapseSpacesKeepsSolid(k, false);
    CollapseHyphensKeepsSolid(c, false);
    KeptThenSolid(l);
  }

  /** Normalising twice is normalising once. */
  lemma NormalizeIdempotent(text: string)
    ensures Normalize(Normalize(text)) == Normalize(text)
  {
    NormalizeAlphabet(text);
  }

  // ---------------------------------------------------------------------------
  // One hyphen per run
  // ---------------------------------------------------------------------------

  /** Whether the character before the rest of the input was replaced white
      space, after `a` has been read in state `inRun`. */
  function SpaceRunAfter(a: string, inRun: bool): bool {
    if a == [] then inRun else IsSpace(a[|a| - 1])
  }

  function HyphenRunAfter(a: string, inRun: bool): bool {
    if a == [] then inRun else a[|a| - 1] == '-'
  }

  lemma ConcatAssoc(x: string, y: string, z: string)
    ensures x + y + z == x + (y + z)
  {
  }

  /** `x` is `u` followed by `w` when both are `head` followed by the same. */
  lemma Glue(x: string, head: string, y: string, z: string, w: string, u: string)
    requires x == head + y && y == z + w && u == head + z
    ensures x == u + w
  {
    assert head + (z + w) == (head + z) + w;
  }

  /** The space pass reads its input from left to right. */
  lemma {:induction false} CollapseSpacesAppend(a: string, b: string, inRun: bool)
    ensures CollapseSpaces(a + b, inRun) == CollapseSpaces(a, inRun) + CollapseSpaces(b, SpaceRunAfter(a, inRun))
  {
    if a != [] {
      var t, next := a[1..], IsSpace(a[0]);
      var head := CollapseSpacesStep(a, b, inRun);
      CollapseSpacesAppend(t, b, next);
      Glue(CollapseSpaces(a + b, inRun), head, CollapseSpaces(t + b, next),
           CollapseSpaces(t, next), CollapseSpaces(b, SpaceRunAfter(a, inRun)), CollapseSpaces(a, inRun));
    } else {
      assert a + b == b && CollapseSpaces(a, inRun) == [];
    }
  }

  /** One step of the pass on `a + b` is one step on `a`: the same `head`
      is written, and the rest is read in the same state. */
  lemma CollapseSpacesStep(a: string, b: string, inRun: bool) returns (head: string)
    requires a != []
    ensures CollapseSpaces(a + b, inRun) == head + CollapseSpaces(a[1..] + b, IsSpace(a[0]))
    ensures CollapseSpaces(a, inRun) == head + CollapseSpaces(a[1..], IsSpace(a[0]))
    ensures SpaceRunAfter(a[1..], IsSpace(a[0])) == SpaceRunAfter(a, inRun)
  {
    head := if IsSpace(a[0]) then (if inRun then [] else "-") else [a[0]];
    assert (a + b)[0] == a[0] && (a + b)[1..] == a[1..] + b;
  }

  /** The hyphen pass reads its input from left to right. */
  lemma {:induction false} CollapseHyphensAppend(a: string, b: string, inRun: bool)
    ensures CollapseHyphens(a + b, inRun) == CollapseHyphens(a, inRun) + CollapseHyphens(b, HyphenRunAfter(a, inRun))
  {
    if a != [] {
      var t, next := a[1..], a[0] == '-';
      var head := CollapseHyphensStep(a, b, inRun);
      CollapseHyphensAppend(t, b, next);
      Glue(CollapseHyphens(a + b, inRun), head, CollapseHyphens(t + b, next),
           CollapseHyphens(t, next), CollapseHyphens(b, HyphenRunAfter(a, inRun)), CollapseHyphens(a, inRun));
    } else {
      assert a + b == b && CollapseHyphens(a, inRun) == [];
    }
  }

  /** One step of the pass on `a + b` is one step on `a`: the same `head`
      is written, and the rest is read in the same state. */
  lemma CollapseHyphensStep(a: string, b: string, inRun: bool) returns (head: string)
    requires a != []
    ensures CollapseHyphens(a + b, inRun) == head + CollapseHyphens(a[1..] + b, a[0] == '-')
    ensures CollapseHyphens(a, inRun) == head + CollapseHyphens(a[1..], a[0] == '-')
    ensures HyphenRunAfter(a[1..], a[0] == '-') == HyphenRunAfter(a, inRun)
  {
    head := if a[0] == '-' then (if inRun then [] else "-") else [a[0]];
    assert (a + b)[0] == a[0] && (a + b)[1..] == a[1..] + b;
  }

  /** A run of white space gives one hyphen, or none when it continues a run. */
  lemma {:induction false} SpaceRun(w: string, inRun: bool)
    requires forall i :: 0 <= i < |w| ==> IsSpace(w[i])
    ensures CollapseSpaces(w, inRun) == if w == [] || inRun then [] else "-"
  {
    if w != [] {
      SpaceRun(w[1..], true);
    }
  }

  /** A run of hyphens gives one hyphen, or none when it continues a run. */
  lemma {:induction false} HyphenRun(w: string, inRun: bool)
    requires forall i :: 0 <= i < |w| ==> w[i] == '-'
    ensures CollapseHyphens(w, inRun) == if w == [] || inRun then [] else "-"
  {
    if w != [] {
      HyphenRun(w[1..], true);
    }
  }

  /** A pass that starts in a run and meets no run character first acts as
      if it started afresh. */
  lemma CollapseSpacesFreshStart(b: string)
    requires b == [] || !IsSpace(b[0])
    ensures CollapseSpaces(b, true) == CollapseSpaces(b, false)
  {
  }

  lemma CollapseHyphensFreshStart(b: string)
    requires b == [] || b[0] != '-'
    ensures CollapseHyphens(b, true) == CollapseHyphens(b, false)
  {
  }

  /** `.replace(/\s+/g, '-')` on one maximal run: the white space between `a`
      and `b` becomes exactly one hyphen. */
  lemma CollapseSpacesOneRun(a: string, w: string, b: string)
    requires w != [] && forall i :: 0 <= i < |w| ==> IsSpace(w[i])
    requires a == [] || !IsSpace(a[|a| - 1])
    requires b == [] || !IsSpace(b[0])
    ensures CollapseSpaces(a + w + b, false) == CollapseSpaces(a, false) + "-" + CollapseSpaces(b, false)
  {
    var ca, cb := CollapseSpaces(a, false), CollapseSpaces(b, false);
    assert SpaceRunAfter(w, false) && !SpaceRunAfter(a, false);
    CollapseSpacesAppend(w, b, false);
    SpaceRun(w, false);
    CollapseSpacesFreshStart(b);
    CollapseSpacesAppend(a, w + b, false);
    ConcatAssoc(a, w, b);
    Glue(CollapseSpaces(a + w + b, false), ca, CollapseSpaces(w + b, false), "-", cb, ca + "-");
  }

  /** `.replace(/-+/g, '-')` on one maximal run: the hyphens between `a` and
      `b` become exactly one hyphen. */
  lemma CollapseHyphensOneRun(a: string, w: string, b: string)
    requires w != [] && forall i :: 0 <= i < |w| ==> w[i] == '-'
    requires a == [] || a[|a| - 1] != '-'
    requires b == [] || b[0] != '-'
    ensures CollapseHyphens(a + w + b, false) == CollapseHyphens(a, false) + "-" + CollapseHyphens(b, false)
  {
    var ca, cb := CollapseHyphens(a, false), CollapseHyphens(b, false);
    assert HyphenRunAfter(w, false) && !HyphenRunAfter(a, false);
    CollapseHyphensAppend(w, b, false);
    HyphenRun(w, false);
    CollapseHyphensFreshStart(b);
    CollapseHyphensAppend(a, w + b, false);
    ConcatAssoc(a, w, b);
    Glue(CollapseHyphens(a + w + b, false), ca, CollapseHyphens(w + b, false), "-", cb, ca + "-");
  }
}
