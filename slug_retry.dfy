/** The slug retry loop of createProduct in lib/actions/product.actions.ts:
    the first candidate is `generateSlug(name)`, and after `k` taken
    candidates the next is `generateSlug(name)` followed by `-k`. Each
    candidate calls `generateSlug` again, so it reads the clock again: the
    reading for candidate `k` is `clock(k)`. */
module SlugRetry {
  import opened Strings
  import opened Slug

  predicate HyphenFree(s: string) {
    forall i :: 0 <= i < |s| ==> s[i] != '-'
  }

  /** Candidate `k` of the retry loop: it starts with the slug generated at
      reading `clock(k)`, and a retry ends with a hyphen and digits that read
      back as its counter. */
  function Candidate(name: string, clock: nat -> nat, k: nat): (r: string)
    ensures var g := GenerateSlug(name, clock(k)); |g| <= |r| && r[..|g|] == g
    ensures k > 0 ==> ParseNat(AfterLastHyphen(r), 10) == k
  {
    if k == 0 then GenerateSlug(name, clock(0))
    else
      RetryShape(GenerateSlug(name, clock(k)), k);
      GenerateSlug(name, clock(k)) + "-" + Decimal(k)
  }

  /** A slug followed by a hyphen and a counter starts with the slug, and the
      counter can be read back from after its last hyphen. */
  lemma RetryShape(g: string, k: nat)
    ensures var r := g + "-" + Decimal(k); |g| <= |r| && r[..|g|] == g
    ensures ParseNat(AfterLastHyphen(g + "-" + Decimal(k)), 10) == k
  {
    DecimalHyphenFree(k);
    AfterLastHyphenOf(g, Decimal(k));
    ParseNatToString(k, 10);
    assert (g + "-" + Decimal(k))[..|g|] == g;
  }

  /** What follows the last hyphen (all of `s` when it has none). */
  function AfterLastHyphen(s: string): string {
    if s == [] || s[|s| - 1] == '-' then [] else AfterLastHyphen(s[..|s| - 1]) + [s[|s| - 1]]
  }

  lemma {:induction false} AfterLastHyphenOf(a: string, b: string)
    requires HyphenFree(b)
    ensures AfterLastHyphen(a + "-" + b) == b
  {
    if b != [] {
      var s := a + "-" + b;
      var init := b[..|b| - 1];
      assert s[..|s| - 1] == a + "-" + init;
      AfterLastHyphenOf(a, init);
      assert b == init + [b[|b| - 1]];
    }
  }

  /** The part after the last hyphen decides where the last hyphen is: two
      strings that both end with a hyphen and a hyphen-free part are equal
      only if both parts are. */
  lemma HyphenSuffix(a: string, b: string, c: string, d: string)
    requires HyphenFree(b) && HyphenFree(d)
    requires a + "-" + b == c + "-" + d
    ensures a == c && b == d
  {
    var s := a + "-" + b;
    AfterLastHyphenOf(a, b);
    AfterLastHyphenOf(c, d);
    assert a == s[..|a|] && c == s[..|c|];
  }

  lemma DecimalHyphenFree(n: nat)
    ensures HyphenFree(Decimal(n))
  {
    var s := Decimal(n);
    forall i | 0 <= i < |s| ensures s[i] != '-' {
      assert IsDigit(s[i], 10);
    }
  }

  /** The loop never looks at the same slug twice, whatever the clock says:
      the first candidate ends with a timestamp after the stem, every later
      one with its own counter after a timestamp. */
  lemma CandidatesDistinct(name: string, clock: nat -> nat, j: nat, k: nat)
    requires j < k
    ensures Candidate(name, clock, j) != Candidate(name, clock, k)
  {
    if j == 0 {
      // The first candidate ends with a hyphen-free timestamp where a retry
      // ends with its counter, so equal candidates would have equal stems.
      SlugShape(name, clock(0));
      DecimalHyphenFree(k);
      if Candidate(name, clock, j) == Candidate(name, clock, k) {
        HyphenSuffix(SlugStem(name), Timestamp(clock(0)), GenerateSlug(name, clock(k)), Decimal(k));
      }
    }
    // Two retries read back their own, different, counters.
  }

  /** The first `n` values of `c`. */
  function FirstValues(c: nat -> string, n: nat): set<string> {
    if n == 0 then {} else FirstValues(c, n - 1) + {c(n - 1)}
  }

  /** The first `n` values of `c`, when no two are equal, are `n` strings
      that all lie in any set holding each of them. */
  lemma {:induction false} FirstValuesCount(c: nat -> string, n: nat, taken: set<string>)
    requires forall j, k :: 0 <= j < k < n ==> c(j) != c(k)
    requires forall k :: 0 <= k < n ==> c(k) in taken
    ensures |FirstValues(c, n)| == n && FirstValues(c, n) <= taken
  {
    if n > 0 {
      FirstValuesCount(c, n - 1, taken);
      FirstValuesLack(c, n - 1, c(n - 1));
    }
  }

  /** A value that differs from each of the first `n` is not among them. */
  lemma {:induction false} FirstValuesLack(c: nat -> string, n: nat, x: string)
    requires forall j :: 0 <= j < n ==> c(j) != x
    ensures x !in FirstValues(c, n)
  {
    if n > 0 {
      FirstValuesLack(c, n - 1, x);
    }
  }

  /** The candidates as a function of the attempt number. */
  function CandidateAt(name: string, clock: nat -> nat): nat -> string {
    (k: nat) => Candidate(name, clock, k)
  }

  /** The loop cannot run past the taken slugs: when the first `n`
      candidates are all taken, there are at least `n` taken slugs. */
  lemma AllTakenBound(name: string, clock: nat -> nat, n: nat, taken: set<string>)
    requires forall k :: 0 <= k < n ==> Candidate(name, clock, k) in taken
    ensures n <= |taken|
  {
    var c := CandidateAt(name, clock);
    forall j, k | 0 <= j < k < n ensures c(j) != c(k) {
      CandidatesDistinct(name, clock, j, k);
    }
    forall k | 0 <= k < n ensures c(k) in taken {
      assert c(k) == Candidate(name, clock, k);
    }
    FirstValuesCount(c, n, taken);
    SubsetSize(FirstValues(c, n), taken);
  }

  lemma SubsetSize(a: set<string>, b: set<string>)
    requires a <= b
    ensures |a| <= |b|
  {
    assert b == a + (b - a);
  }
}
