/** The strike-time field of `print_compact_strike`: the unit of a raw `time`
    value is guessed from its magnitude, and the value is shown as a local
    wall-clock time, as a placeholder, or as a delay. */
module Timestamp {
  import opened Payload

  /** What the magnitude of a raw time says about its unit. */
  datatype Unit = Placeholder | Nanos | Micros | Seconds

  const NanosAbove: int := 1_000_000_000_000_000
  const MicrosAbove: int := 1_000_000_000_000
  const SecondsAbove: int := 1_000_000_000

  /** Shown when no unit applies. */
  const PlaceholderText: string := "??:??:??"

  /** The magnitude bands, checked from the largest down: each unit owns one
      half-open interval and everything at or below 10^9 (zero and negative
      values included) has no unit. */
  function Classify(t: int): (u: Unit)
    ensures u == Nanos <==> t > NanosAbove
    ensures u == Micros <==> MicrosAbove < t <= NanosAbove
    ensures u == Seconds <==> SecondsAbove < t <= MicrosAbove
    ensures u == Placeholder <==> t <= SecondsAbove
  {
    if t > NanosAbove then Nanos
    else if t > MicrosAbove then Micros
    else if t > SecondsAbove then Seconds
    else Placeholder
  }

  /** How many raw units make one second. */
  function Divisor(u: Unit): (n: nat)
    requires u != Placeholder
    ensures n > 0
  {
    match u
    case Nanos => 1_000_000_000
    case Micros => 1_000_000
    case Seconds => 1
  }

  /** The order of the bands: a larger magnitude never gets a smaller unit. */
  function Rank(u: Unit): nat
  {
    match u
    case Placeholder => 0
    case Seconds => 1
    case Micros => 2
    case Nanos => 3
  }

  /** Classification is monotonic in the magnitude. */
  lemma ClassifyMonotonic(t1: int, t2: int)
    requires t1 <= t2
    ensures Rank(Classify(t1)) <= Rank(Classify(t2))
  {
  }

  /** A moment `s` seconds after the epoch, written in unit `u`, is read back
      in unit `u` and converted back to `s` exactly when `s` lies in the range
      that the bands give to `u`: after 10^9 s (September 2001) up to 10^12 s
      for seconds, after 10^6 s up to 10^9 s for microseconds, and after
      10^6 s for nanoseconds. */
  lemma UnitRecovered(s: int, u: Unit)
    requires u != Placeholder
    ensures Classify(s * Divisor(u)) == u <==>
      match u
      case Seconds => SecondsAbove < s <= MicrosAbove
      case Micros => 1_000_000 < s <= SecondsAbove
      case Nanos => s > 1_000_000
    ensures (s * Divisor(u)) / Divisor(u) == s
  {
  }

  /** The bands make a present-day microsecond value (any moment after
      September 2001) look like nanoseconds, so it is divided by 10^9 rather
      than 10^6. */
  lemma PresentMicrosReadAsNanos(s: int)
    requires s > SecondsAbove
    ensures Classify(s * Divisor(Micros)) == Nanos
  {
  }

  /** The text shown for the raw time `time` of a strike. A false-y time
      shows the placeholder. A time that is neither an int nor a bool makes
      the band comparison raise, and shows the delay instead. An integer is
      classified; with no unit it shows the placeholder, otherwise it shows
      `clock(t, n)`, the wall-clock time of `t / n` seconds with `n` the
      band's divisor, and a failed conversion shows the delay,
      `~<delay>s ago`, with `wholeSeconds` the delay rounded to whole
      seconds. */
  function StrikeTime(time: Json, delay: Json, clock: (int, nat) -> Option<string>,
                      wholeSeconds: Json -> string): (shown: string)
    ensures !Truthy(time) ==> shown == PlaceholderText
    ensures Truthy(time) && NumericValue(time).Some? && Classify(NumericValue(time).value) == Placeholder
            ==> shown == PlaceholderText
    ensures Truthy(time) && NumericValue(time).None? ==> shown == Ago(delay, wholeSeconds)
    ensures Truthy(time) && NumericValue(time).Some? && Classify(NumericValue(time).value) != Placeholder ==>
      var t := NumericValue(time).value;
      var u := Classify(t);
      shown == match clock(t, Divisor(u)) case Some(hms) => hms case None => Ago(delay, wholeSeconds)
  {
    if !Truthy(time) then PlaceholderText
    else match NumericValue(time)
      case None => Ago(delay, wholeSeconds)
      case Some(t) =>
        var u := Classify(t);
        if u == Placeholder then PlaceholderText
        else match clock(t, Divisor(u))
          case Some(hms) => hms
          case None => Ago(delay, wholeSeconds)
  }

  /** `f"~{delay:.0f}s ago"`: the rounded delay between `~` and `s ago`. */
  function Ago(delay: Json, wholeSeconds: Json -> string): (s: string)
    ensures |s| == |wholeSeconds(delay)| + 6
    ensures s[0] == '~' && s[1..|s| - 5] == wholeSeconds(delay) && s[|s| - 5..] == "s ago"
  {
    "~" + wholeSeconds(delay) + "s ago"
  }

  /** For a `clock` that never answers with the placeholder (an `%H:%M:%S`
      rendering has no `?`), the placeholder is shown exactly when the time is
      false-y or an integer at or below 10^9; a missing `time`, which
      defaults to 0, is one of these. */
  lemma PlaceholderExactly(time: Json, delay: Json, clock: (int, nat) -> Option<string>,
                           wholeSeconds: Json -> string)
    requires forall t: int, n: nat :: clock(t, n) != Some(PlaceholderText)
    ensures StrikeTime(time, delay, clock, wholeSeconds) == PlaceholderText <==>
      !Truthy(time) || (NumericValue(time).Some? && NumericValue(time).value <= SecondsAbove)
  {
    var shown := StrikeTime(time, delay, clock, wholeSeconds);
    if Truthy(time) && !(NumericValue(time).Some? && NumericValue(time).value <= SecondsAbove) {
      var ago := Ago(delay, wholeSeconds);
      assert ago[0] == '~' && PlaceholderText[0] == '?';
    }
  }
}
