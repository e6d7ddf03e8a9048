/** The time of day as text: the HH:MM:SS part that is kept between calls, and the part below a second. */
module TimeText {
  import opened Words
  import opened Digits
  import opened Fmt
  import opened Pattern
  import opened TimeUnits
  import opened Wrappers

  /** Whole seconds since the epoch, rounded down, of a time in nanoseconds since the epoch. */
  function FloorSeconds(t: int): int {
    t / NS_PER_SECOND
  }

  /** The remainder of C++, which has the sign of the dividend. */
  function Remainder(t: int): int {
    if t >= 0 then t % NS_PER_SECOND else -(-t % NS_PER_SECOND)
  }

  function SubNanos(t: int): u64 {
    Wrap(Remainder(t))
  }

  function SubMicros(t: int): u64 {
    Wrap(Remainder(t) / 1000)
  }

  /** fmt's text for {:%H:%M:%S} of a time in whole seconds. */
  function ClockText(seconds: int): string {
    var d := seconds % SECONDS_PER_DAY;
    Padded(d / 3600, 2) + ":" + Padded(d / 60 % 60, 2) + ":" + Padded(d % 60, 2)
  }

  predicate IsTimeSpec(spec: Spec) {
    spec == HMS || spec == HMSf || spec == HMSF
  }

  /** The format arguments a time field expands to. */
  function TimeArgs(spec: Spec, hms: string, t: int): (args: seq<Argument>)
    requires IsTimeSpec(spec)
    ensures |args| == ArgCount(spec)
  {
    match spec
    case HMS => [Text(hms)]
    case HMSf => [Text(hms), Number(SubMicros(t))]
    case _ => [Text(hms), Number(SubNanos(t))]
  }

  /** The text of a time field. */
  function TimeField(spec: Spec, t: int): string
    requires IsTimeSpec(spec)
  {
    TimeFieldWith(spec, ClockText(FloorSeconds(t)), t)
  }

  function TimeFieldWith(spec: Spec, hms: string, t: int): string
    requires IsTimeSpec(spec)
  {
    match spec
    case HMS => hms
    case HMSf => hms + "." + Padded(SubMicros(t), 6)
    case _ => hms + "." + Padded(SubNanos(t), 9)
  }

  // ---------------------------------------------------------------- the cached part

  datatype Cache = Cache(hms: string, lastUpdate: int)

  const EMPTY_CACHE := Cache("", -1)

  /** The cached text is that of the second it was made for, except at the start, when it is no text for second -1. */
  predicate CacheValid(c: Cache) {
    c == EMPTY_CACHE || c.hms == ClockText(c.lastUpdate)
  }

  function Refreshed(c: Cache, t: int): Cache {
    if FloorSeconds(t) != c.lastUpdate then Cache(ClockText(FloorSeconds(t)), FloorSeconds(t)) else c
  }

  /** The process-wide cache behind one time specification. */
  class TimeCache {
    var hms: string
    var lastUpdate: int

    ghost function State(): Cache
      reads this
    {
      Cache(hms, lastUpdate)
    }

    constructor ()
      ensures State() == EMPTY_CACHE
    {
      hms, lastUpdate := "", -1;
    }

    /** process_time_arg. */
    method ProcessTimeArg(spec: Spec, t: int) returns (args: seq<Argument>)
      requires IsTimeSpec(spec) && CacheValid(State())
      modifies this
      ensures State() == Refreshed(old(State()), t) && CacheValid(State())
      ensures args == TimeArgs(spec, State().hms, t)
      ensures State().hms == ClockText(FloorSeconds(t)) <==> (old(State()) != EMPTY_CACHE || FloorSeconds(t) != -1)
    {
      var seconds := FloorSeconds(t);
      if seconds != lastUpdate {
        hms := ClockText(seconds);
        lastUpdate := seconds;
      }
      ClockTextLength(seconds);
      args := TimeArgs(spec, hms, t);
    }
  }

  lemma ClockTextLength(seconds: int)
    ensures |ClockText(seconds)| == 8
  {
    var d := seconds % SECONDS_PER_DAY;
    TwoDigits(d / 3600);
    TwoDigits(d / 60 % 60);
    TwoDigits(d % 60);
  }

  /** The texts a sequence of calls gets from the cache. */
  function CachedTexts(c: Cache, ts: seq<int>): seq<string>
    decreases |ts|
  {
    if ts == [] then [] else [Refreshed(c, ts[0]).hms] + CachedTexts(Refreshed(c, ts[0]), ts[1..])
  }

  /** The same without a cache. */
  function UncachedTexts(ts: seq<int>): seq<string> {
    if ts == [] then [] else [ClockText(FloorSeconds(ts[0]))] + UncachedTexts(ts[1..])
  }

  lemma {:induction false} FilledCacheAgrees(c: Cache, ts: seq<int>)
    requires c.hms == ClockText(c.lastUpdate)
    ensures CachedTexts(c, ts) == UncachedTexts(ts)
    decreases |ts|
  {
    if ts != [] {
      FilledCacheAgrees(Refreshed(c, ts[0]), ts[1..]);
    }
  }

  /** Over every sequence of calls the cache gives the texts that are made without it, unless the very first call is
      for the last second before the epoch, which the initial cache takes for already formatted. */
  lemma CacheAgrees(ts: seq<int>)
    ensures CachedTexts(EMPTY_CACHE, ts) == UncachedTexts(ts) <==> (ts != [] ==> FloorSeconds(ts[0]) != -1)
  {
    if ts != [] {
      if FloorSeconds(ts[0]) != -1 {
        FilledCacheAgrees(Refreshed(EMPTY_CACHE, ts[0]), ts[1..]);
      } else {
        ClockTextLength(-1);
        assert |CachedTexts(EMPTY_CACHE, ts)[0]| != |UncachedTexts(ts)[0]|;
      }
    }
  }

  lemma CacheAgreesFromTheEpochOn(ts: seq<int>)
    requires forall t :: t in ts ==> t >= 0
    ensures CachedTexts(EMPTY_CACHE, ts) == UncachedTexts(ts)
  {
    CacheAgrees(ts);
    assert ts != [] ==> ts[0] in ts;
  }

  // ---------------------------------------------------------------- reading the text back

  function TimeOfDay(t: int): nat {
    t % (SECONDS_PER_DAY * NS_PER_SECOND)
  }

  function Units(h: nat, m: nat, s: nat, perSecond: nat): nat {
    ((h * 60 + m) * 60 + s) * perSecond
  }

  function ReadSlices(h: string, m: string, s: string, f: string, digits: nat): Option<nat> {
    if AllDigits(h) && AllDigits(m) && AllDigits(s) && AllDigits(f) && |f| == digits
    then Some(Units(Value(h), Value(m), Value(s), Pow10(digits)) + Value(f))
    else None
  }

  /** Reads HH:MM:SS.f with the given number of digits behind the point, in units of the last digit. */
  function ReadClock(text: string, digits: nat): Option<nat> {
    if |text| >= 9 && text[2] == ':' && text[5] == ':' && text[8] == '.'
    then ReadSlices(text[..2], text[3..5], text[6..8], text[9..], digits)
    else None
  }

  lemma ClockSlices(h: string, m: string, s: string, f: string)
    requires |h| == 2 && |m| == 2 && |s| == 2
    ensures var text := h + ":" + m + ":" + s + "." + f;
      && |text| == 9 + |f| && text[2] == ':' && text[5] == ':' && text[8] == '.'
      && text[..2] == h && text[3..5] == m && text[6..8] == s && text[9..] == f
  {
  }

  lemma ReadParts(h: string, m: string, s: string, f: string, digits: nat)
    requires |h| == 2 && |m| == 2 && |s| == 2
    ensures ReadClock(h + ":" + m + ":" + s + "." + f, digits) == ReadSlices(h, m, s, f, digits)
  {
    ClockSlices(h, m, s, f);
  }

  lemma {:induction false} WideDecimal(n: nat, width: nat)
    requires n >= Pow10(width)
    ensures |Decimal(n)| > width
  {
    if width > 0 {
      assert Pow10(width) >= 10 by {
        Pow10Positive(width - 1);
      }
      WideDecimal(n / 10, width - 1);
    }
  }

  lemma {:induction false} Pow10Positive(k: nat)
    ensures Pow10(k) >= 1
  {
    if k > 0 {
      Pow10Positive(k - 1);
    }
  }

  /** Reading the time text gives the time of day, when the part below a second fits its digits. */
  lemma ReadFraction(seconds: int, fraction: nat, digits: nat)
    requires digits > 0
    ensures ReadClock(ClockText(seconds) + "." + Padded(fraction, digits), digits)
            == (if fraction < Pow10(digits) then Some(seconds % SECONDS_PER_DAY * Pow10(digits) + fraction) else None)
  {
    var d := seconds % SECONDS_PER_DAY;
    TwoDigits(d / 3600);
    TwoDigits(d / 60 % 60);
    TwoDigits(d % 60);
    PaddedValue(fraction, digits);
    if fraction < Pow10(digits) {
      PaddedWidth(fraction, digits);
    } else {
      WideDecimal(fraction, digits);
    }
    ReadParts(Padded(d / 3600, 2), Padded(d / 60 % 60, 2), Padded(d % 60, 2), Padded(fraction, digits), digits);
    SecondsOfParts(d, Pow10(digits));
  }

  lemma TwoDigits(n: nat)
    requires n < 100
    ensures |Padded(n, 2)| == 2 && AllDigits(Padded(n, 2)) && Value(Padded(n, 2)) == n
  {
    assert Pow10(2) == 100;
    PaddedWidth(n, 2);
    PaddedValue(n, 2);
  }

  lemma SecondsOfParts(d: nat, perSecond: nat)
    ensures Units(d / 3600, d / 60 % 60, d % 60, perSecond) == d * perSecond
  {
    assert (d / 3600 * 60 + d / 60 % 60) * 60 + d % 60 == d;
  }

  lemma TimeOfDayParts(t: int)
    ensures TimeOfDay(t) == FloorSeconds(t) % SECONDS_PER_DAY * NS_PER_SECOND + t % NS_PER_SECOND
  {
  }

  /** Before the epoch the part below a second is negative unless it is zero, and wraps. */
  lemma SubSecondIsExact(t: int)
    ensures if t >= 0 || t % NS_PER_SECOND == 0 then
              SubNanos(t) == t % NS_PER_SECOND && SubMicros(t) == t % NS_PER_SECOND / 1000
            else SubNanos(t) >= NS_PER_SECOND && SubMicros(t) >= 1_000_000
  {
  }

  /** The {time:HMSF} text reads back as the time of day in nanoseconds, exactly for the times that are at or after
      the epoch or whole seconds. */
  lemma NanosecondTextReadsBack(t: int)
    ensures ReadClock(TimeField(HMSF, t), 9) == Some(TimeOfDay(t)) <==> t >= 0 || t % NS_PER_SECOND == 0
  {
    TenToTheNine();
    SubSecondIsExact(t);
    TimeOfDayParts(t);
    ReadFraction(FloorSeconds(t), SubNanos(t), 9);
  }

  /** The {time:HMSf} text reads back as the time of day truncated to microseconds, for exactly the same times. */
  lemma MicrosecondTextReadsBack(t: int)
    ensures ReadClock(TimeField(HMSf, t), 6) == Some(TimeOfDay(t) / 1000) <==> t >= 0 || t % NS_PER_SECOND == 0
  {
    TenToTheNine();
    SubSecondIsExact(t);
    TimeOfDayParts(t);
    ReadFraction(FloorSeconds(t), SubMicros(t), 6);
  }

  lemma TenToTheNine()
    ensures Pow10(6) == 1_000_000 && Pow10(9) == NS_PER_SECOND
  {
    assert Pow10(3) == 1000;
    assert Pow10(6) == 1000 * Pow10(3);
    assert Pow10(9) == 1000 * Pow10(6);
  }

  /** HH:MM:SS in digits: hours, minutes and seconds of the day. */
  lemma ClockTextReads(seconds: int)
    ensures var t := ClockText(seconds);
      && |t| == 8 && t[2] == ':' && t[5] == ':' && AllDigits(t[..2]) && AllDigits(t[3..5]) && AllDigits(t[6..8])
      && Value(t[..2]) < 24 && Value(t[3..5]) < 60 && Value(t[6..8]) < 60
      && Value(t[..2]) * 3600 + Value(t[3..5]) * 60 + Value(t[6..8]) == seconds % 86_400
  {
    var d := seconds % SECONDS_PER_DAY;
    TwoDigits(d / 3600);
    TwoDigits(d / 60 % 60);
    TwoDigits(d % 60);
    EightSlices(Padded(d / 3600, 2), Padded(d / 60 % 60, 2), Padded(d % 60, 2));
    PartsOfDay(d);
  }

  lemma PartsOfDay(d: nat)
    requires d < SECONDS_PER_DAY
    ensures d / 3600 < 24 && d / 60 % 60 < 60 && d % 60 < 60 && d / 3600 * 3600 + d / 60 % 60 * 60 + d % 60 == d
  {
    assert d == d / 60 * 60 + d % 60 && d / 60 == d / 3600 * 60 + d / 60 % 60;
  }

  lemma EightSlices(h: string, m: string, s: string)
    requires |h| == 2 && |m| == 2 && |s| == 2
    ensures var t := h + ":" + m + ":" + s;
      |t| == 8 && t[2] == ':' && t[5] == ':' && t[..2] == h && t[3..5] == m && t[6..8] == s
  {
  }
}
