// The dates of the hardcopy log: src/consapi.c. Lines carry hh.mm.ss only, and the
// walk from the newest to the oldest counts the midnights between them.
module LogDates {
  import opened WindowClock
  import opened TraceTable

  /** The days counted back, and the stamp last seen. */
  datatype Clock = Clock(back: nat, prev: int)

  function Turned(c: Clock, stamp: int): Clock
  {
    if stamp < 0 then c else Clock(if stamp > c.prev + HALF_DAY then c.back + 1 else c.back, stamp)
  }

  /** The clock once the lines es have been walked, the last of them first. */
  function ClockAfter(es: seq<Entry>, now: nat): Clock
  {
    if es == [] then Clock(0, now % DAY) else Turned(ClockAfter(es[1..], now), Stamp(es[0]))
  }

  /** The time given to the first of the lines es: timegm() of the day counted back to. */
  function Given(es: seq<Entry>, now: nat): int
    requires es != []
  {
    var stamp := Stamp(es[0]);
    if stamp < 0 then 0 else (now / DAY - ClockAfter(es, now).back) * DAY + stamp
  }

  /** The walk of consoleLogHandler(). */
  method GiveDates(arr: seq<Entry>, now: nat) returns (esecs: array<int>)
    ensures fresh(esecs) && esecs.Length == |arr|
    ensures forall i :: 0 <= i < |arr| ==> esecs[i] == Given(arr[i..], now)
    ensures forall i :: 0 <= i < |arr| && Stamp(arr[i]) < 0 ==> esecs[i] == 0
  {
    hide ClockAfter, Stamp;
    esecs := new int[|arr|](i => 0);
    ClockStep(arr, |arr|, now);
    var back, prev, i := 0, now % DAY, |arr|;
    while i > 0
      invariant 0 <= i <= |arr| && Clock(back, prev) == ClockAfter(arr[i..], now) && back >= 0
      invariant forall k :: i <= k < |arr| ==> esecs[k] == Given(arr[k..], now)
      invariant forall k :: i <= k < |arr| && Stamp(arr[k]) < 0 ==> esecs[k] == 0
    {
      i := i - 1;
      ClockStep(arr, i, now);
      var sod := StampOf(arr[i]);
      if sod < 0 {
        esecs[i] := 0;
        continue;
      }
      if sod > prev + HALF_DAY {
        back := back + 1;
      }
      prev := sod;
      esecs[i] := (now / DAY - back) * DAY + sod;
    }
  }

  lemma ClockStep(arr: seq<Entry>, i: nat, now: nat)
    requires i <= |arr|
    ensures i == |arr| ==> ClockAfter(arr[i..], now) == Clock(0, now % DAY)
    ensures i < |arr| ==> arr[i..][0] == arr[i]
    ensures i < |arr| ==> ClockAfter(arr[i..], now) == Turned(ClockAfter(arr[i + 1..], now), Stamp(arr[i]))
  {
    if i < |arr| {
      assert arr[i..][1..] == arr[i + 1..];
    }
  }

  method StampOf(e: Entry) returns (s: int)
    ensures s == Stamp(e)
  {
    match e
    case NoEntry => s := -1;
    case Line(dat) => s := ReadSecsOfDay(dat);
  }

  // --- when the dates are true -----------------------------------------------------------------

  /** The true times of the lines; those without a stamp have none that matters. */
  ghost predicate Times(es: seq<Entry>, times: seq<nat>)
  {
    |times| == |es| && forall i :: 0 <= i < |es| && Stamp(es[i]) >= 0 ==> times[i] % DAY == Stamp(es[i])
  }

  /** The true time of the first stamped line, or the present. */
  function NextStamped(es: seq<Entry>, times: seq<nat>, now: nat): nat
    requires |times| == |es|
  {
    if es == [] then now else if Stamp(es[0]) >= 0 then times[0] else NextStamped(es[1..], times[1..], now)
  }

  /**
   * The walk tells the day of the earlier of two neighbours from that of the later: on
   * one day unless it seems more than half a day later, or on the day before if
   * less than half a day has passed.
   */
  predicate Told(earlier: nat, later: nat)
  {
    || (earlier / DAY == later / DAY && earlier <= later + HALF_DAY)
    || (earlier / DAY + 1 == later / DAY && later - earlier < HALF_DAY)
  }

  ghost predicate AllTold(es: seq<Entry>, times: seq<nat>, now: nat)
    requires |times| == |es|
  {
    forall i :: 0 <= i < |es| && Stamp(es[i]) >= 0 ==> Told(times[i], NextStamped(es[i + 1..], times[i + 1..], now))
  }

  ghost predicate AllTrue(es: seq<Entry>, times: seq<nat>, now: nat)
    requires |times| == |es|
  {
    forall i :: 0 <= i < |es| && Stamp(es[i]) >= 0 ==> Given(es[i..], now) == times[i]
  }

  /** The clock is right for the first stamped line. */
  ghost predicate Right(es: seq<Entry>, times: seq<nat>, now: nat)
    requires |times| == |es|
  {
    var c, t := ClockAfter(es, now), NextStamped(es, times, now);
    c.prev == t % DAY && now / DAY - c.back == t / DAY
  }

  lemma TurnIsRight(c: Clock, earlier: nat, later: nat, today: int)
    requires c.prev == later % DAY && today - c.back == later / DAY
    ensures today - Turned(c, earlier % DAY).back == earlier / DAY <==> Told(earlier, later)
  {
  }

  /** One more line in front. */
  lemma MoreTold(es: seq<Entry>, times: seq<nat>, now: nat)
    requires es != [] && |times| == |es|
    ensures AllTold(es, times, now) <==>
              && (Stamp(es[0]) >= 0 ==> Told(times[0], NextStamped(es[1..], times[1..], now)))
              && AllTold(es[1..], times[1..], now)
  {
    hide Told, Stamp, NextStamped;
    assert forall i :: 1 <= i < |es| ==> es[i] == es[1..][i - 1] && times[i] == times[1..][i - 1];
    assert forall i :: 1 <= i < |es| ==> es[i + 1..] == es[1..][i..] && times[i + 1..] == times[1..][i..];
    var rest, later := es[1..], times[1..];
    forall i | 0 <= i < |rest|
      ensures rest[i] == es[i + 1] && later[i] == times[i + 1]
      ensures rest[i + 1..] == es[i + 2..] && later[i + 1..] == times[i + 2..]
    {
    }
  }

  lemma MoreTrue(es: seq<Entry>, times: seq<nat>, now: nat)
    requires es != [] && |times| == |es|
    ensures AllTrue(es, times, now) <==>
            (Stamp(es[0]) >= 0 ==> Given(es, now) == times[0]) && AllTrue(es[1..], times[1..], now)
  {
    hide Given, Stamp;
    assert es[0..] == es;
    assert forall i :: 1 <= i < |es| ==>
      es[i] == es[1..][i - 1] && times[i] == times[1..][i - 1] && es[i..] == es[1..][i - 1..];
    assert forall i :: 0 <= i < |es| - 1 ==>
      es[1..][i] == es[i + 1] && times[1..][i] == times[i + 1] && es[1..][i..] == es[i + 1..];
  }

  lemma {:induction false} Exact(es: seq<Entry>, times: seq<nat>, now: nat)
    requires Times(es, times)
    ensures AllTrue(es, times, now) <==> AllTold(es, times, now)
    ensures AllTold(es, times, now) ==> Right(es, times, now)
    decreases |es|
  {
    hide Told, Stamp, Turned, AllTold, AllTrue;
    if es == [] {
      NothingTold(now);
    } else {
      var rest, later := es[1..], times[1..];
      assert forall i :: 0 <= i < |rest| ==> rest[i] == es[i + 1] && later[i] == times[i + 1];
      Exact(rest, later, now);
      MoreTold(es, times, now);
      MoreTrue(es, times, now);
      if AllTold(rest, later, now) {
        if Stamp(es[0]) >= 0 {
          TurnIsRight(ClockAfter(rest, now), times[0], NextStamped(rest, later, now), now / DAY);
          TurnedPrev(ClockAfter(rest, now), Stamp(es[0]));
        } else {
          Unturned(ClockAfter(rest, now), Stamp(es[0]));
        }
      }
    }
  }

  lemma NothingTold(now: nat)
    ensures AllTold([], [], now) && AllTrue([], [], now)
  {
  }

  lemma TurnedPrev(c: Clock, stamp: int)
    requires stamp >= 0
    ensures Turned(c, stamp).prev == stamp
  {
  }

  lemma Unturned(c: Clock, stamp: int)
    requires stamp < 0
    ensures Turned(c, stamp) == c
  {
  }

  /** Every stamped line gets its true time exactly if its day can be told from the next stamped one's. */
  lemma DatesExact(es: seq<Entry>, times: seq<nat>, now: nat)
    requires Times(es, times)
    ensures (forall i :: 0 <= i < |es| && Stamp(es[i]) >= 0 ==> Given(es[i..], now) == times[i])
       <==> AllTold(es, times, now)
  {
    hide Given, Stamp, AllTold;
    Exact(es, times, now);
  }

  /**
   * So it does over any number of midnights when the stamped lines are in order, none
   * is later than the present, and neighbours are less than twelve hours apart.
   */
  lemma OrderedDatesTrue(es: seq<Entry>, times: seq<nat>, now: nat)
    requires Times(es, times)
    requires forall i :: 0 <= i < |es| && Stamp(es[i]) >= 0 ==>
               times[i] <= NextStamped(es[i + 1..], times[i + 1..], now) < times[i] + HALF_DAY
    ensures forall i :: 0 <= i < |es| && Stamp(es[i]) >= 0 ==> Given(es[i..], now) == times[i]
  {
    hide Given, Stamp, NextStamped;
    DatesExact(es, times, now);
  }
}
