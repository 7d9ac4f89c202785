/** `formatRelativeTime` of lib/utils.ts. The clock `new Date()` is a
    parameter: both instants are given in milliseconds since the epoch. */
module RelativeTime {
  import opened Strings

  datatype Unit = Minutes | Hours | Days | Months | Years

  /** The length of a unit in seconds (a month is 30 days, a year 365 days). */
  function UnitSeconds(u: Unit): nat {
    match u
    case Minutes => 60
    case Hours => 3600
    case Days => 86400
    case Months => 2592000
    case Years => 31536000
  }

  /** The number of seconds from which the next unit is used; years have no bound. */
  function UnitLimit(u: Unit): int {
    match u
    case Minutes => 3600
    case Hours => 86400
    case Days => 2592000
    case Months => 31536000
    case Years => 0
  }

  datatype Relative = JustNow | Ago(count: nat, unit: Unit)

  /** `Math.floor((now.getTime() - date.getTime()) / 1000)`: whole seconds,
      rounded down also when `date` lies in the future. */
  function DiffInSeconds(nowMs: int, dateMs: int): (d: int)
    ensures d * 1000 <= nowMs - dateMs < (d + 1) * 1000
  {
    (nowMs - dateMs) / 1000
  }

  /** The cascade of comparisons: under a minute (negative differences
      included) is "just now"; otherwise the largest unit the difference
      reaches, counted in whole units, rounded down. */
  function Bucket(diff: int): (r: Relative)
    ensures r == JustNow <==> diff < 60
    ensures r.Ago? ==>
      && UnitSeconds(r.unit) <= diff
      && (r.unit != Years ==> diff < UnitLimit(r.unit))
      && r.count >= 1
      && r.count * UnitSeconds(r.unit) <= diff < (r.count + 1) * UnitSeconds(r.unit)
  {
    if diff < 60 then JustNow
    else if diff < 3600 then Ago(diff / 60, Minutes)
    else if diff < 86400 then Ago(diff / 3600, Hours)
    else if diff < 2592000 then Ago(diff / 86400, Days)
    else if diff < 31536000 then Ago(diff / 2592000, Months)
    else Ago(diff / 31536000, Years)
  }

  function UnitSuffix(u: Unit): string {
    match u
    case Minutes => "분 전"
    case Hours => "시간 전"
    case Days => "일 전"
    case Months => "개월 전"
    case Years => "년 전"
  }

  const JustNowText: string := "방금 전"

  /** The text shown: "just now" for `JustNow` only; otherwise the count in
      plain decimal (digits that read back as the count, with no leading
      zero), followed by the unit's suffix. */
  function Render(rel: Relative): (r: string)
    ensures r == JustNowText <==> rel == JustNow
    ensures rel.Ago? ==>
      var k := |r| - |UnitSuffix(rel.unit)|;
      && 0 < k && r[k..] == UnitSuffix(rel.unit)
      && (forall i :: 0 <= i < k ==> IsDigit(r[i], 10))
      && (k == 1 || r[0] != '0')
      && ParseNat(r[..k], 10) == rel.count
  {
    match rel
    case JustNow => JustNowText
    case Ago(n, u) =>
      var d := Decimal(n);
      ParseNatToString(n, 10);
      NatToStringNoLeadingZero(n, 10);
      assert (d + UnitSuffix(u))[..|d|] == d;
      assert (d + UnitSuffix(u))[0] == d[0] && IsDigit(d[0], 10);
      d + UnitSuffix(u)
  }

  /** `formatRelativeTime(date)` read at instant `nowMs`: "just now" exactly
      when less than a minute has passed (or the date lies ahead); otherwise
      the largest unit the elapsed time reaches, and the whole number of those
      units, at least one, that it reaches but does not exceed by a further
      unit. */
  function FormatRelativeTime(nowMs: int, dateMs: int): (r: string)
    ensures r == JustNowText <==> nowMs - dateMs < 60000
    ensures nowMs - dateMs >= 60000 ==>
      exists n: nat, u: Unit :: r == Render(Ago(n, u)) && n >= 1
        && n * UnitSeconds(u) * 1000 <= nowMs - dateMs < (n + 1) * UnitSeconds(u) * 1000
        && forall v: Unit :: UnitSeconds(v) > UnitSeconds(u) ==> nowMs - dateMs < UnitSeconds(v) * 1000
  {
    var d := DiffInSeconds(nowMs, dateMs);
    var b := Bucket(d);
    if b.Ago? then
      var n, us := b.count, UnitSeconds(b.unit);
      assert n * us <= d < (n + 1) * us;
      assert n * us * 1000 <= d * 1000;
      assert (d + 1) * 1000 <= (n + 1) * us * 1000;
      assert forall v: Unit :: UnitSeconds(v) > us ==> d < UnitSeconds(v) by {
        forall v: Unit | UnitSeconds(v) > us ensures d < UnitSeconds(v) {
          assert b.unit != Years && UnitSeconds(v) >= UnitLimit(b.unit);
        }
      }
      Render(b)
    else Render(b)
  }

  /** Less than a minute ago, or in the future, reads "just now". */
  lemma UnderAMinuteIsJustNow(nowMs: int, dateMs: int)
    requires nowMs - dateMs < 60000
    ensures FormatRelativeTime(nowMs, dateMs) == JustNowText
  {
  }

  /** The unit is fixed by the thresholds 60, 3600, 86400, 2592000 and
      31536000 seconds. */
  lemma UnitThresholds(diff: int)
    ensures Bucket(diff).Ago? && Bucket(diff).unit == Minutes <==> 60 <= diff < 3600
    ensures Bucket(diff).Ago? && Bucket(diff).unit == Hours <==> 3600 <= diff < 86400
    ensures Bucket(diff).Ago? && Bucket(diff).unit == Days <==> 86400 <= diff < 2592000
    ensures Bucket(diff).Ago? && Bucket(diff).unit == Months <==> 2592000 <= diff < 31536000
    ensures Bucket(diff).Ago? && Bucket(diff).unit == Years <==> 31536000 <= diff
  {
  }

  /** A later instant never reads as a smaller amount of time. */
  lemma BucketMonotone(d1: int, d2: int)
    requires d1 <= d2
    ensures Rank(Bucket(d1)) <= Rank(Bucket(d2))
    ensures Bucket(d1).Ago? && Bucket(d2).Ago? && Bucket(d1).unit == Bucket(d2).unit ==>
      Bucket(d1).count <= Bucket(d2).count
  {
  }

  function Rank(r: Relative): nat {
    match r
    case JustNow => 0
    case Ago(_, u) => match u
      case Minutes => 1
      case Hours => 2
      case Days => 3
      case Months => 4
      case Years => 5
  }
}
