// Lines of the Master Trace Table, as src/mttsnap.c and src/consapi.c read them:
// "flags hh.mm.ss source  message", flags in columns 0..3, source in 14..21,
// message from 24. The table is listed oldest first.
module TraceTable {

  import opened Texts
  import opened WindowClock

  const SRC_OFF := 14
  const SRC_LEN := 8
  const MSG_OFF := 24

  /** One slot of the listed table; the listing may hold empty slots. */
  datatype Entry = NoEntry | Line(dat: string)

  /** A copy of the table: a copy that could not be made is not an empty table. */
  datatype Snapshot = Failed | Table(entries: seq<Entry>)

  predicate IsDigit(c: char) { '0' <= c <= '9' }

  function DigitValue(c: char): (v: int)
    ensures IsDigit(c) ==> 0 <= v <= 9
  {
    c as int - '0' as int
  }

  /** The first position from i on that holds no blank. */
  function BlanksEnd(s: string, i: nat): (j: nat)
    requires i <= |s|
    ensures i <= j <= |s| && (forall k :: i <= k < j ==> s[k] == ' ') && (j < |s| ==> s[j] != ' ')
    decreases |s| - i
  {
    if i < |s| && s[i] == ' ' then BlanksEnd(s, i + 1) else i
  }

  /** The first position from i on that holds no digit. */
  function DigitsEnd(s: string, i: nat): (j: nat)
    requires i <= |s|
    ensures i <= j <= |s| && (forall k :: i <= k < j ==> IsDigit(s[k])) && (j < |s| ==> !IsDigit(s[j]))
    decreases |s| - i
  {
    if i < |s| && IsDigit(s[i]) then DigitsEnd(s, i + 1) else i
  }

  /** The value of a run of decimal digits. */
  function Number(s: string): int
  {
    if s == "" then 0 else Number(s[..|s| - 1]) * 10 + DigitValue(s[|s| - 1])
  }

  // --- the time of a line ----------------------------------------------------

  /** A text that reads as a time from position i on: digits, ".mm.ss". */
  predicate TimeAt(dat: string, b: nat, i: nat)
    requires b <= i <= |dat|
  {
    && 1 <= i - b <= 2 && i + 5 < |dat|
    && (forall k :: b <= k < i ==> IsDigit(dat[k]))
    && dat[i] == '.' && dat[i + 3] == '.'
    && IsDigit(dat[i + 1]) && IsDigit(dat[i + 2]) && IsDigit(dat[i + 4]) && IsDigit(dat[i + 5])
    && Number(dat[b..i]) <= 23
    && Pair(dat, i + 1) <= 59 && Pair(dat, i + 4) <= 59
  }

  function Pair(dat: string, i: nat): int
    requires i + 1 < |dat|
  {
    DigitValue(dat[i]) * 10 + DigitValue(dat[i + 1])
  }

  /** The time that reads from b to i on, -1 when it is none. */
  function TimeOf(dat: string, b: nat, i: nat): (s: int)
    requires b <= i <= |dat|
    ensures -1 <= s < DAY
  {
    if TimeAt(dat, b, i) then
      NumberNonNegative(dat[b..i]);
      Number(dat[b..i]) * 3600 + Pair(dat, i + 1) * 60 + Pair(dat, i + 4)
    else -1
  }

  /** Seconds of the day a line is stamped with; -1 when it carries no time. */
  function SecsOfDay(dat: string): (s: int)
    ensures -1 <= s < DAY
  {
    if |dat| < 4 then -1 else
    var b := BlanksEnd(dat, 4);
    var i := DigitsEnd(dat, b);
    TimeOf(dat, b, i)
  }

  /** The stamp of a slot; -1 for none. */
  function Stamp(e: Entry): (s: int)
    ensures -1 <= s < DAY
  {
    if e.NoEntry? then -1 else SecsOfDay(e.dat)
  }

  lemma {:induction false} NumberNonNegative(s: string)
    requires forall k :: 0 <= k < |s| ==> IsDigit(s[k])
    ensures Number(s) >= 0
  {
    if s != "" {
      NumberNonNegative(s[..|s| - 1]);
    }
  }

  /** mtt_secs_of_day() */
  method ReadSecsOfDay(dat: string) returns (s: int)
    ensures s == SecsOfDay(dat)
  {
    hide TimeOf;
    var i := 4;
    while i < |dat| && dat[i] == ' '
      invariant 4 <= i
      invariant 4 <= |dat| ==> i <= |dat| && BlanksEnd(dat, 4) == BlanksEnd(dat, i)
    {
      i := i + 1;
    }
    if i > |dat| {
      return -1;
    }
    var end, h := ReadNumber(dat, i);
    s := FinishTime(dat, i, end, h);
  }

  /** The loop over the hour's digits. */
  method ReadNumber(dat: string, b: nat) returns (i: nat, h: int)
    requires b <= |dat|
    ensures i == DigitsEnd(dat, b) && h == Number(dat[b..i])
  {
    i, h := b, 0;
    while i < |dat| && IsDigit(dat[i])
      invariant b <= i <= |dat| && DigitsEnd(dat, b) == DigitsEnd(dat, i) && h == Number(dat[b..i])
    {
      assert dat[b..i + 1][..i - b] == dat[b..i];
      h := h * 10 + DigitValue(dat[i]);
      i := i + 1;
    }
  }

  /** The tests behind the loops, with h the value of the digits b..i. */
  method FinishTime(dat: string, b: nat, i: nat, h: int) returns (s: int)
    requires b <= i <= |dat| && h == Number(dat[b..i]) && forall k :: b <= k < i ==> IsDigit(dat[k])
    ensures s == TimeOf(dat, b, i)
  {
    var nd := i - b;
    if nd == 0 || nd > 2 || i + 5 >= |dat| {
      return -1;
    }
    if dat[i] != '.' || dat[i + 3] != '.' {
      return -1;
    }
    if !IsDigit(dat[i + 1]) || !IsDigit(dat[i + 2]) {
      return -1;
    }
    if !IsDigit(dat[i + 4]) || !IsDigit(dat[i + 5]) {
      return -1;
    }
    var m, sec := Pair(dat, i + 1), Pair(dat, i + 4);
    if h > 23 || m > 59 || sec > 59 {
      return -1;
    }
    return h * 3600 + m * 60 + sec;
  }

  /** A line whose text from column b on is hours and ".mm.ss" is stamped with that time. */
  lemma StampIs(dat: string, b: nat, i: nat)
    requires 4 <= b < i <= |dat| && TimeAt(dat, b, i)
    requires forall k :: 4 <= k < b ==> dat[k] == ' '
    ensures SecsOfDay(dat) == Number(dat[b..i]) * 3600 + Pair(dat, i + 1) * 60 + Pair(dat, i + 4)
  {
    assert !(dat[b] == ' ') && !IsDigit(dat[i]);
    var b' := BlanksEnd(dat, 4);
    assert b' == b;
    var i' := DigitsEnd(dat, b);
    assert i' == i;
  }

  /** A line reads back the time it is printed with, behind any flags and blanks. */
  lemma StampReadsBack(head: string, hours: string, tail: string, rest: string)
    requires |head| >= 4 && (forall k :: 4 <= k < |head| ==> head[k] == ' ')
    requires 1 <= |hours| <= 2 && (forall k :: 0 <= k < |hours| ==> IsDigit(hours[k])) && Number(hours) <= 23
    requires |tail| == 6 && tail[0] == '.' && tail[3] == '.'
    requires IsDigit(tail[1]) && IsDigit(tail[2]) && IsDigit(tail[4]) && IsDigit(tail[5])
    requires Pair(tail, 1) <= 59 && Pair(tail, 4) <= 59
    ensures SecsOfDay(head + hours + tail + rest) == Number(hours) * 3600 + Pair(tail, 1) * 60 + Pair(tail, 4)
  {
    var b, i := |head|, |head| + |hours|;
    var dat := head + hours + tail + rest;
    assert dat[b..i] == hours && dat[i..i + 6] == tail;
    assert dat[i] == tail[0] && dat[i + 1] == tail[1] && dat[i + 2] == tail[2];
    assert dat[i + 3] == tail[3] && dat[i + 4] == tail[4] && dat[i + 5] == tail[5];
    forall k | b <= k < i
      ensures IsDigit(dat[k])
    {
      assert dat[k] == hours[k - b];
    }
    assert TimeAt(dat, b, i);
    StampIs(dat, b, i);
  }

  /** Two decimal digits. */
  function TwoDigits(n: nat): string
    requires n < 100
  {
    ["0123456789"[n / 10], "0123456789"[n % 10]]
  }

  lemma DigitShown(d: nat)
    requires d < 10
    ensures IsDigit("0123456789"[d]) && DigitValue("0123456789"[d]) == d
  {
  }

  lemma TwoDigitsRead(n: nat)
    requires n < 100
    ensures var s := TwoDigits(n);
            IsDigit(s[0]) && IsDigit(s[1]) && DigitValue(s[0]) * 10 + DigitValue(s[1]) == n && Number(s) == n
  {
    DigitShown(n / 10);
    DigitShown(n % 10);
    hide DigitValue, IsDigit;
    var s := TwoDigits(n);
    assert s[..1] == [s[0]];
    assert Number([s[0]][..0]) == 0;
    assert Number([s[0]]) == DigitValue(s[0]);
  }

  function ClockText(h: nat, m: nat, sec: nat): string
    requires h < 24 && m < 60 && sec < 60
  {
    TwoDigits(h) + "." + TwoDigits(m) + "." + TwoDigits(sec)
  }

  /** A line printed with a time of day is stamped with its second. */
  lemma ClockShown(head: string, h: nat, m: nat, sec: nat, rest: string)
    requires |head| >= 4 && (forall k :: 4 <= k < |head| ==> head[k] == ' ')
    requires h < 24 && m < 60 && sec < 60
    ensures SecsOfDay(head + ClockText(h, m, sec) + rest) == h * 3600 + m * 60 + sec
  {
    TwoDigitsRead(h);
    TwoDigitsRead(m);
    TwoDigitsRead(sec);
    hide TwoDigits, IsDigit, DigitValue, Number, SecsOfDay;
    var hh, mm, ss := TwoDigits(h), TwoDigits(m), TwoDigits(sec);
    var tail := "." + mm + "." + ss;
    TailParts(mm, ss);
    assert Pair(tail, 1) == m && Pair(tail, 4) == sec;
    StampReadsBack(head, hh, tail, rest);
    Rejoined(head, hh, mm, ss, rest);
  }

  lemma TailParts(mm: string, ss: string)
    requires |mm| == 2 == |ss|
    ensures var t := "." + mm + "." + ss;
            |t| == 6 && t[0] == '.' && t[1] == mm[0] && t[2] == mm[1] && t[3] == '.' && t[4] == ss[0] && t[5] == ss[1]
  {
  }

  lemma Rejoined(head: string, hh: string, mm: string, ss: string, rest: string)
    ensures head + hh + ("." + mm + "." + ss) + rest == head + (hh + "." + mm + "." + ss) + rest
  {
  }

  /** Only a line that is printed so carries a time. */
  lemma StampExact(dat: string) returns (head: string, hours: string, tail: string, rest: string)
    requires SecsOfDay(dat) >= 0
    ensures dat == head + hours + tail + rest
    ensures |head| >= 4 && forall k :: 4 <= k < |head| ==> head[k] == ' '
    ensures 1 <= |hours| <= 2 && (forall k :: 0 <= k < |hours| ==> '0' <= hours[k] <= '9') && Number(hours) <= 23
    ensures |tail| == 6 && tail[0] == '.' && tail[3] == '.'
    ensures '0' <= tail[1] <= '5' && '0' <= tail[2] <= '9' && '0' <= tail[4] <= '5' && '0' <= tail[5] <= '9'
  {
    var b, i := StampPlace(dat);
    hide SecsOfDay, Number, Pair, IsDigit;
    head, hours, tail, rest := dat[..b], dat[b..i], dat[i..i + 6], dat[i + 6..];
    assert dat == head + hours + tail + rest;
    assert forall k :: 0 <= k < 6 ==> tail[k] == dat[i + k];
    DigitsAre(dat, b, i);
    assert tail[1] == dat[i + 1] && tail[2] == dat[i + 2] && tail[4] == dat[i + 4] && tail[5] == dat[i + 5];
  }

  lemma StampPlace(dat: string) returns (b: nat, i: nat)
    requires SecsOfDay(dat) >= 0
    ensures 4 <= b <= i <= |dat| && TimeAt(dat, b, i) && forall k :: 4 <= k < b ==> dat[k] == ' '
  {
    b := BlanksEnd(dat, 4);
    i := DigitsEnd(dat, b);
  }

  lemma DigitsAre(dat: string, b: nat, i: nat)
    requires b <= i <= |dat| && TimeAt(dat, b, i)
    ensures forall k :: 0 <= k < i - b ==> '0' <= dat[b..i][k] <= '9'
    ensures i + 6 <= |dat| && '0' <= dat[i + 1] <= '5' && '0' <= dat[i + 2] <= '9'
    ensures '0' <= dat[i + 4] <= '5' && '0' <= dat[i + 5] <= '9'
  {
    assert forall k :: 0 <= k < i - b ==> dat[b..i][k] == dat[b + k];
    hide Number;
    HighDigit(dat, i + 1);
    HighDigit(dat, i + 4);
  }

  lemma HighDigit(dat: string, i: nat)
    requires i + 1 < |dat| && IsDigit(dat[i]) && IsDigit(dat[i + 1]) && Pair(dat, i) <= 59
    ensures '0' <= dat[i] <= '5' && '0' <= dat[i + 1] <= '9'
  {
  }
}
