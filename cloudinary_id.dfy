/** `extractCloudinaryPublicId` of lib/utils.ts, the regular expression
    `/\/upload\/(?:v\d+\/)?([^/.]+)/` written out as the leftmost-match,
    backtracking search that JavaScript performs, and `isCloudinaryUrl` of
    lib/cloudinary.ts. */
module CloudinaryId {
  import opened Wrappers
  import opened Strings

  const Upload: string := "/upload/"
  const CloudinaryHost: string := "res.cloudinary.com"

  /** `isCloudinaryUrl`: a substring test on the host name. */
  function IsCloudinaryUrl(url: string): (b: bool)
    ensures b <==> exists k :: OccursAt(url, CloudinaryHost, k)
  {
    Contains(url, CloudinaryHost)
  }

  /** A character of the class `[^/.]`. */
  predicate IdChar(c: char) { c != '/' && c != '.' }

  predicate IsDecimalDigit(c: char) { '0' <= c <= '9' }

  /** An occurrence of `/upload/` at `i` that the capture group can follow: the
      next character exists and is neither `/` nor `.`. */
  predicate Qualifies(url: string, i: int) {
    OccursAt(url, Upload, i) && i + |Upload| < |url| && IdChar(url[i + |Upload|])
  }

  /** End of the longest run of `[^/.]` starting at `j` (greedy `+`). */
  function IdRunEnd(url: string, j: nat): (k: nat)
    requires j <= |url|
    ensures j <= k <= |url|
    ensures forall m :: j <= m < k ==> IdChar(url[m])
    ensures k == |url| || !IdChar(url[k])
    decreases |url| - j
  {
    if j < |url| && IdChar(url[j]) then IdRunEnd(url, j + 1) else j
  }

  /** End of the longest run of decimal digits starting at `j` (greedy `\d+`). */
  function DigitRunEnd(url: string, j: nat): (k: nat)
    requires j <= |url|
    ensures j <= k <= |url|
    ensures forall m :: j <= m < k ==> IsDecimalDigit(url[m])
    ensures k == |url| || !IsDecimalDigit(url[k])
    decreases |url| - j
  {
    if j < |url| && IsDecimalDigit(url[j]) then DigitRunEnd(url, j + 1) else j
  }

  /** `v`, at least one decimal digit and `/` from `j`, the `/` at `d`, and a
      character of the capture class after it. */
  predicate VersionSegment(url: string, j: int, d: int) {
    && 0 <= j && j + 1 < d && d + 1 < |url|
    && url[j] == 'v'
    && (forall m :: j + 1 <= m < d ==> IsDecimalDigit(url[m]))
    && url[d] == '/' && IdChar(url[d + 1])
  }

  /** Where the capture starts if the optional group `v\d+\/` matches at `j`
      and is followed by a character of the capture class: the group is used
      exactly when such a segment is there, and the capture then starts right
      after its `/`. */
  function VersionedStart(url: string, j: nat): (r: Option<nat>)
    requires j <= |url|
    ensures r.Some? <==> exists d :: VersionSegment(url, j, d)
    ensures r.Some? ==> r.value >= 1 && VersionSegment(url, j, r.value - 1)
  {
    if j < |url| && url[j] == 'v' then
      var d := DigitRunEnd(url, j + 1);
      if d > j + 1 && d < |url| && url[d] == '/' && d + 1 < |url| && IdChar(url[d + 1])
      then
        assert VersionSegment(url, j, d);
        Some(d + 1)
      else None
    else None
  }

  /** The match of `(?:v\d+\/)?([^/.]+)` at `j`, the position after `/upload/`:
      the optional group is tried first; if the capture cannot follow it, the
      engine backtracks and matches the capture at `j` itself. */
  function CaptureAt(url: string, j: nat): (r: Option<string>)
    requires j <= |url|
    ensures r.Some? <==> j < |url| && IdChar(url[j])
    ensures r.Some? ==> r.value != [] && forall m :: 0 <= m < |r.value| ==> IdChar(r.value[m])
  {
    var start := match VersionedStart(url, j) case Some(v) => v case None => j;
    if start < |url| && IdChar(url[start]) then Some(url[start..IdRunEnd(url, start)])
    else None
  }

  /** The search for the leftmost match at or after index `i`. */
  function ScanFrom(url: string, i: nat): (r: Option<string>)
    requires i <= |url|
    ensures r.Some? <==> exists k :: i <= k && Qualifies(url, k)
    ensures r.Some? ==>
      exists p :: (i <= p && Qualifies(url, p)
        && (forall q :: i <= q < p ==> !Qualifies(url, q))
        && r == CaptureAt(url, p + |Upload|))
    decreases |url| - i
  {
    if Qualifies(url, i) then CaptureAt(url, i + |Upload|)
    else if i + |Upload| >= |url| then None
    else
      var r := ScanFrom(url, i + 1);
      assert forall k :: i <= k && Qualifies(url, k) ==> i + 1 <= k;
      r
  }

  /** `extractCloudinaryPublicId(url)`: an id is found exactly when some
      `/upload/` is directly followed by a character other than `/` or `.`; it
      is then taken from the leftmost such occurrence. */
  function ExtractPublicId(url: string): (r: Option<string>)
    ensures r.Some? <==> exists k :: Qualifies(url, k)
    ensures r.Some? ==>
      exists p :: (Qualifies(url, p)
        && (forall q :: 0 <= q < p ==> !Qualifies(url, q))
        && r == CaptureAt(url, p + |Upload|))
  {
    ScanFrom(url, 0)
  }

  /** What the capture is: a non-empty, maximal run of characters other than
      `/` and `.`, starting right after the `/upload/` or, when `v<digits>/`
      follows the `/upload/` and a valid character comes after it, right after
      that version segment. */
  lemma CaptureShape(url: string, j: nat)
    requires j < |url| && IdChar(url[j])
    ensures var id := CaptureAt(url, j).value;
      var start := if VersionedStart(url, j).Some? then VersionedStart(url, j).value else j;
      && id != []
      && start + |id| <= |url| && url[start..start + |id|] == id
      && (forall m :: 0 <= m < |id| ==> IdChar(id[m]))
      && (start + |id| == |url| || !IdChar(url[start + |id|]))
      && (VersionedStart(url, j).Some? <==> exists d :: VersionSegment(url, j, d))
      && (VersionedStart(url, j).Some? ==> VersionSegment(url, j, start - 1))
  {
  }
}
