/** Identifiers, and the idempotency key under which a cron run submits its job. */
module Keys {
  import opened Calendar
  import opened Text

  newtype Byte = b: int | 0 <= b < 256
  type Bytes16 = bs: seq<Byte> | |bs| == 16 witness [0, 0, 0, 0, 0, 0, 0, 0, 0, 0, 0, 0, 0, 0, 0, 0]

  datatype Uuid = Uuid(bytes: Bytes16)

  function HexDigit(n: int): (c: char)
    requires 0 <= n < 16
  {
    if n < 10 then (n + '0' as int) as char else (n - 10 + 'a' as int) as char
  }

  function HexText(bs: seq<Byte>): (s: string)
    ensures |s| == 2 * |bs|
  {
    if bs == [] then "" else [HexDigit(bs[0] as int / 16), HexDigit(bs[0] as int % 16)] + HexText(bs[1..])
  }

  /** The canonical 8-4-4-4-12 form. */
  function UuidText(u: Uuid): (s: string)
    ensures |s| == 36
  {
    HexText(u.bytes[..4]) + "-" + (HexText(u.bytes[4..6]) + "-" + (HexText(u.bytes[6..8]) + "-"
    + (HexText(u.bytes[8..10]) + "-" + HexText(u.bytes[10..]))))
  }

  function YearText(y: int): string {
    if y < 0 then "-" + Decimal(-y, 4) else Decimal(y, 4)
  }

  function TwoDigits(n: int): (s: string)
    requires 0 <= n < 100
    ensures |s| == 2
  {
    assert n / 10 / 10 == 0;
    assert |Decimal(n / 10, 1)| == 1;
    Decimal(n, 2)
  }

  function DateText(d: Date): (s: string)
    requires ValidDate(d)
    ensures |s| == 6
  {
    "-" + TwoDigits(d.month) + "-" + TwoDigits(d.day)
  }

  function ClockText(t: int): (s: string)
    ensures |s| == 10
  {
    "T" + TwoDigits(HourOf(t)) + ":" + TwoDigits(MinuteOf(t)) + ":00Z"
  }

  /** RFC 3339 text of a whole minute in UTC. */
  function Rfc3339(t: int): string {
    var d := CivilDate(DayOfMinute(t));
    YearText(d.year) + DateText(d) + ClockText(t)
  }

  /** cronIdempotencyKey, for the run of a cron job at a minute. */
  function CronKey(cron: Uuid, minute: int): string {
    "cron:" + UuidText(cron) + ":" + Rfc3339(minute)
  }

  lemma SameLengthParts(a: string, b: string, c: string, d: string)
    requires a + b == c + d && (|a| == |c| || |b| == |d|)
    ensures a == c && b == d
  {
    assert |a| + |b| == |c| + |d|;
    assert a == (a + b)[..|a|] && c == (c + d)[..|c|];
    assert b == (a + b)[|a|..] && d == (c + d)[|c|..];
  }

  lemma HexDigitInjective(m: int, n: int)
    requires 0 <= m < 16 && 0 <= n < 16 && HexDigit(m) == HexDigit(n)
    ensures m == n
  {
  }

  lemma {:induction false} HexTextInjective(a: seq<Byte>, b: seq<Byte>)
    requires |a| == |b| && HexText(a) == HexText(b)
    ensures a == b
  {
    if a != [] {
      var x := [HexDigit(a[0] as int / 16), HexDigit(a[0] as int % 16)];
      var y := [HexDigit(b[0] as int / 16), HexDigit(b[0] as int % 16)];
      SameLengthParts(x, HexText(a[1..]), y, HexText(b[1..]));
      assert x[0] == y[0] && x[1] == y[1];
      HexDigitInjective(a[0] as int / 16, b[0] as int / 16);
      HexDigitInjective(a[0] as int % 16, b[0] as int % 16);
      HexTextInjective(a[1..], b[1..]);
      assert a == [a[0]] + a[1..] && b == [b[0]] + b[1..];
    }
  }

  lemma UuidTextInjective(u: Uuid, v: Uuid)
    requires UuidText(u) == UuidText(v)
    ensures u == v
  {
    var a, b := u.bytes, v.bytes;
    var s4, t4 := HexText(a[8..10]) + "-" + HexText(a[10..]), HexText(b[8..10]) + "-" + HexText(b[10..]);
    var s3, t3 := HexText(a[6..8]) + "-" + s4, HexText(b[6..8]) + "-" + t4;
    var s2, t2 := HexText(a[4..6]) + "-" + s3, HexText(b[4..6]) + "-" + t3;
    GroupInjective(a[..4], s2, b[..4], t2);
    GroupInjective(a[4..6], s3, b[4..6], t3);
    GroupInjective(a[6..8], s4, b[6..8], t4);
    GroupInjective(a[8..10], HexText(a[10..]), b[8..10], HexText(b[10..]));
    HexTextInjective(a[10..], b[10..]);
    JoinBytes(a);
    JoinBytes(b);
  }

  lemma GroupInjective(a: seq<Byte>, s: string, b: seq<Byte>, t: string)
    requires |a| == |b| && HexText(a) + "-" + s == HexText(b) + "-" + t
    ensures a == b && s == t
  {
    SameLengthParts(HexText(a) + "-", s, HexText(b) + "-", t);
    SameLengthParts(HexText(a), "-", HexText(b), "-");
    HexTextInjective(a, b);
  }

  lemma JoinBytes(a: Bytes16)
    ensures a == a[..4] + a[4..6] + a[6..8] + a[8..10] + a[10..]
  {
  }

  lemma DecimalInjective(m: nat, n: nat, width: nat)
    requires Decimal(m, width) == Decimal(n, width)
    ensures m == n
  {
    DecimalRoundTrip(m, width);
    DecimalRoundTrip(n, width);
  }

  lemma YearTextInjective(x: int, y: int)
    requires YearText(x) == YearText(y)
    ensures x == y
  {
    DecimalRoundTrip(if x < 0 then -x else x, 4);
    DecimalRoundTrip(if y < 0 then -y else y, 4);
    var a, b := YearText(x), YearText(y);
    assert x >= 0 ==> '0' <= a[0] <= '9';
    assert y >= 0 ==> '0' <= b[0] <= '9';
    if x < 0 && y < 0 {
      assert a[1..] == Decimal(-x, 4) && b[1..] == Decimal(-y, 4);
    }
  }

  lemma DateTextInjective(d: Date, e: Date)
    requires ValidDate(d) && ValidDate(e) && DateText(d) == DateText(e)
    ensures d.month == e.month && d.day == e.day
  {
    SameLengthParts("-" + TwoDigits(d.month) + "-", TwoDigits(d.day), "-" + TwoDigits(e.month) + "-", TwoDigits(e.day));
    SameLengthParts("-" + TwoDigits(d.month), "-", "-" + TwoDigits(e.month), "-");
    SameLengthParts("-", TwoDigits(d.month), "-", TwoDigits(e.month));
    DecimalInjective(d.month, e.month, 2);
    DecimalInjective(d.day, e.day, 2);
  }

  lemma ClockTextInjective(t: int, u: int)
    requires ClockText(t) == ClockText(u)
    ensures HourOf(t) == HourOf(u) && MinuteOf(t) == MinuteOf(u)
  {
    assert ClockText(t)[1..3] == TwoDigits(HourOf(t)) && ClockText(u)[1..3] == TwoDigits(HourOf(u));
    assert ClockText(t)[4..6] == TwoDigits(MinuteOf(t)) && ClockText(u)[4..6] == TwoDigits(MinuteOf(u));
    DecimalInjective(HourOf(t), HourOf(u), 2);
    DecimalInjective(MinuteOf(t), MinuteOf(u), 2);
  }

  lemma Rfc3339Injective(t: int, u: int)
    requires Rfc3339(t) == Rfc3339(u)
    ensures t == u
  {
    var d, e := CivilDate(DayOfMinute(t)), CivilDate(DayOfMinute(u));
    SameLengthParts(YearText(d.year) + DateText(d), ClockText(t), YearText(e.year) + DateText(e), ClockText(u));
    SameLengthParts(YearText(d.year), DateText(d), YearText(e.year), DateText(e));
    YearTextInjective(d.year, e.year);
    DateTextInjective(d, e);
    ClockTextInjective(t, u);
    assert d == e;
    MinuteFromClock(t);
    MinuteFromClock(u);
  }

  /** Different runs of cron jobs never share a key. */
  lemma CronKeyInjective(c: Uuid, m: int, d: Uuid, n: int)
    ensures CronKey(c, m) == CronKey(d, n) <==> c == d && m == n
  {
    if CronKey(c, m) == CronKey(d, n) {
      SameLengthParts("cron:" + UuidText(c) + ":", Rfc3339(m), "cron:" + UuidText(d) + ":", Rfc3339(n));
      SameLengthParts("cron:" + UuidText(c), ":", "cron:" + UuidText(d), ":");
      SameLengthParts("cron:", UuidText(c), "cron:", UuidText(d));
      UuidTextInjective(c, d);
      Rfc3339Injective(m, n);
    }
  }
}
