// The response block of a console command, read out of the Master Trace Table:
// correlate_once() of src/consapi.c. A walk from the command's echo to the end of
// the table takes the lines of the block; a poll returns those not yet delivered.
module Correlation {
  import opened Texts
  import opened TraceTable
  import opened WindowClock

  const SNAP_FAILED := -1
  const NUM_SIZE := 12
  const BLANK_SOURCE := "        "

  // --- one line -------------------------------------------------------------------

  /** The message text behind the fixed prefix, "" for a line that ends before it. */
  function Message(dat: string): string
  {
    if |dat| <= MSG_OFF then "" else TrimRight(dat[MSG_OFF..])
  }

  /** is_echo_line(): the message is exactly the command. */
  predicate IsEcho(e: Entry, cmd: string)
  {
    e.Line? && |e.dat| > MSG_OFF && Message(e.dat) != "" && Message(e.dat) == TrimRight(cmd)
  }

  predicate HasSource(dat: string, src: string)
  {
    |dat| >= SRC_OFF + SRC_LEN && dat[SRC_OFF..SRC_OFF + SRC_LEN] == src
  }

  /** is_command_shaped(): no digit in the first token. */
  predicate IsCommandShaped(msg: string)
  {
    msg != "" && forall i :: 0 <= i < |msg| && ' ' !in msg[..i + 1] ==> !IsDigit(msg[i])
  }

  /** The position behind the last blank before end. */
  function TokenStart(s: string, end: nat): (i: nat)
    requires end <= |s|
    ensures i <= end
  {
    if end > 0 && s[end - 1] != ' ' then TokenStart(s, end - 1) else end
  }

  /** mlwto_num(): the number a multi-line message ends its first line with, or "". */
  function MessageNumber(msg: string): (num: string)
  {
    var t := msg[TokenStart(msg, |msg|)..];
    if t != "" && |t| < NUM_SIZE && (forall i :: 0 <= i < |t| ==> IsDigit(t[i])) then t else ""
  }

  /** The line carries on the multi-line message num. */
  predicate Continues(dat: string, num: string)
  {
    var k := BlanksEnd(dat, 0);
    num != "" && |dat| - k >= |num| && dat[k..k + |num|] == num
  }

  /** A continuation line without its number and the blanks around it. */
  function ContinuedText(dat: string, num: string): string
    requires Continues(dat, num)
  {
    TrimRight(dat[BlanksEnd(dat, BlanksEnd(dat, 0) + |num|)..])
  }

  // --- the walk -------------------------------------------------------------------

  /** The command's echo: the source it was issued from, the second it was issued in. */
  datatype Echo = Echo(issuer: string, secs: int)

  /** What the walk carries from line to line. */
  datatype Walker = Walker(src: string, num: string, taken: nat, adopted: bool)

  datatype Verdict = Stop | Pass(w: Walker) | Take(w: Walker, msg: string)

  /** A line of the echo's own second, or the next, may come from the command's target. */
  predicate MayAdopt(echo: Echo, w: Walker, dat: string)
  {
    && w.taken == 0 && !w.adopted && echo.secs >= 0 && |dat| >= SRC_OFF + SRC_LEN
    && var s := SecsOfDay(dat);
       s >= 0 && (if s < echo.secs then s - echo.secs + DAY else s - echo.secs) <= 1
  }

  /** What one line is, seen from the block. */
  datatype Facts = Facts(issuer: bool, own: bool, blank: bool, cont: bool, command: bool, adoptable: bool, long: bool)

  function FactsOf(echo: Echo, w: Walker, dat: string): (f: Facts)
    ensures f.adoptable ==> |dat| >= SRC_OFF + SRC_LEN
    ensures f.cont ==> Continues(dat, w.num)
    ensures f.long == (|dat| > MSG_OFF)
  {
    Facts(HasSource(dat, echo.issuer), HasSource(dat, w.src), HasSource(dat, BLANK_SOURCE), Continues(dat, w.num),
          |dat| > MSG_OFF && IsCommandShaped(Message(dat)), MayAdopt(echo, w, dat), |dat| > MSG_OFF)
  }

  datatype Action = Ends | Skips | TakesContinued | TakesMessage | SkipsShort

  predicate Adopts(f: Facts)
  {
    !f.own && !f.blank && !f.cont && f.adoptable
  }

  /** The decision on one line, some lines of the block already taken or not. */
  function Decide(f: Facts, any: bool): Action
  {
    if !f.cont && (f.issuer || f.blank) && f.command then
      (if f.issuer then Ends else Skips)
    else if !f.own && !f.blank && !f.cont && !f.adoptable then
      (if any then Ends else Skips)
    else if f.cont && !f.own && !f.blank then
      TakesContinued
    else if !f.long then
      SkipsShort
    else
      TakesMessage
  }

  /** What the walk does with one entry. */
  function Step(echo: Echo, w: Walker, e: Entry): (v: Verdict)
    ensures v.Pass? ==> v.w.taken == w.taken
    ensures v.Take? ==> v.w.taken == w.taken + 1
  {
    if e.NoEntry? then Pass(w) else
    var f := FactsOf(echo, w, e.dat);
    match Decide(f, w.taken > 0)
    case Ends => Stop
    case Skips => Pass(w)
    case TakesContinued => Take(w.(taken := w.taken + 1), ContinuedText(e.dat, w.num))
    case SkipsShort => Pass(Adopted(w, f, e.dat))
    case TakesMessage =>
      var n := MessageNumber(Message(e.dat));
      Take(Adopted(w, f, e.dat).(taken := w.taken + 1, num := if n != "" then n else w.num), Message(e.dat))
  }

  /** The walker with the line's source for its own, if the line is adopted. */
  function Adopted(w: Walker, f: Facts, dat: string): Walker
    requires f.adoptable ==> |dat| >= SRC_OFF + SRC_LEN
  {
    if Adopts(f) then w.(src := dat[SRC_OFF..SRC_OFF + SRC_LEN], adopted := true) else w
  }

  /** The lines of the block, in order, from entry i on. */
  function Block(echo: Echo, w: Walker, table: seq<Entry>, i: nat): seq<string>
    requires i <= |table|
    decreases |table| - i
  {
    if i == |table| then [] else
    match Step(echo, w, table[i])
    case Stop => []
    case Pass(w') => Block(echo, w', table, i + 1)
    case Take(w', msg) => [msg] + Block(echo, w', table, i + 1)
  }

  // --- the echo -------------------------------------------------------------------

  predicate IsEchoAt(e: Entry, cmd: string, want: int)
  {
    IsEcho(e, cmd) && (want >= 0 ==> SecsOfDay(e.dat) == want)
  }

  /** The oldest echo stamped with want, from entry i on; -1 when there is none. */
  function OldestEcho(table: seq<Entry>, cmd: string, want: int, i: nat): (k: int)
    requires i <= |table|
    ensures k == -1 || i <= k < |table|
    decreases |table| - i
  {
    if i == |table| then -1 else if IsEchoAt(table[i], cmd, want) then i else OldestEcho(table, cmd, want, i + 1)
  }

  /** The newest echo among the first i entries; -1 when there is none. */
  function NewestEcho(table: seq<Entry>, cmd: string, i: nat): (k: int)
    requires i <= |table|
    ensures -1 <= k < i
  {
    if i == 0 then -1 else if IsEcho(table[i - 1], cmd) then i - 1 else NewestEcho(table, cmd, i - 1)
  }

  function FindEcho(table: seq<Entry>, cmd: string, want: int): (k: int)
    ensures -1 <= k < |table|
  {
    if want < 0 then NewestEcho(table, cmd, |table|) else OldestEcho(table, cmd, want, 0)
  }

  function SourceOf(dat: string): string
  {
    if |dat| >= SRC_OFF + SRC_LEN then dat[SRC_OFF..SRC_OFF + SRC_LEN] else BLANK_SOURCE
  }

  function EchoOf(e: Entry): Echo
  {
    if e.Line? then Echo(SourceOf(e.dat), SecsOfDay(e.dat)) else Echo(BLANK_SOURCE, -1)
  }

  /** The lines of the block whose echo stands at k. */
  function LinesAfter(table: seq<Entry>, k: nat): seq<string>
    requires k < |table|
  {
    var echo := EchoOf(table[k]);
    Block(echo, Walker(echo.issuer, "", 0, false), table, k + 1)
  }

  function LinesOf(table: seq<Entry>, cmd: string, want: int): seq<string>
  {
    var k := FindEcho(table, cmd, want);
    if k < 0 then [] else LinesAfter(table, k)
  }

  function SecsOfEcho(table: seq<Entry>, cmd: string, want: int): int
  {
    var k := FindEcho(table, cmd, want);
    if k < 0 then -1 else EchoOf(table[k]).secs
  }

  // --- the answer -----------------------------------------------------------------

  predicate Fits(out: string, msg: string, cap: nat)
  {
    |out| + |msg| + 1 < cap
  }

  /** The answer buffer after lines i.. : the nonempty ones from skip on, as long as they fit. */
  function Filled(lines: seq<string>, i: nat, skip: nat, out: string, cap: nat): string
    requires i <= |lines|
    decreases |lines| - i
  {
    if i == |lines| then out else
    Filled(lines, i + 1, skip,
           if i >= skip && lines[i] != "" && Fits(out, lines[i], cap) then out + lines[i] + "\r" else out, cap)
  }

  function Answer(lines: seq<string>, skip: nat, cap: nat): string
  {
    Filled(lines, 0, skip, "", cap)
  }

  /** How many lines of the block went into the answer. */
  function Appended(lines: seq<string>, skip: nat, cap: nat): nat
  {
    if lines == [] then 0 else
    var front, msg := lines[..|lines| - 1], lines[|lines| - 1];
    Appended(front, skip, cap) +
      if |front| >= skip && msg != "" && Fits(Answer(front, skip, cap), msg, cap) then 1 else 0
  }

  /** What one correlation leaves behind: answer, lines in the block, second of the echo. */
  datatype Reply = Reply(out: string, total: nat, echoSecs: int)

  function ReplyOf(table: seq<Entry>, cmd: string, want: int, skip: nat, cap: nat): Reply
  {
    var lines := LinesOf(table, cmd, want);
    Reply(Answer(lines, skip, cap), |lines|, SecsOfEcho(table, cmd, want))
  }

  /** correlate_once(): prev is what the caller's variables held before the call. */
  method CorrelateOnce(snap: Snapshot, cmd: string, want: int, skip: nat, cap: nat, prev: Reply)
    returns (rc: int, reply: Reply)
    requires cap > 0
    ensures snap.Failed? ==> rc == -1 && reply == prev
    ensures snap.Table? ==>
              && rc == Appended(LinesOf(snap.entries, cmd, want), skip, cap)
              && reply == ReplyOf(snap.entries, cmd, want, skip, cap)
  {
    hide Block, SecsOfDay, FindEcho;
    if snap.Failed? {
      return SNAP_FAILED, prev;
    }
    var table := snap.entries;
    var ei := Search(table, cmd, want);
    if ei < 0 {
      return 0, Reply("", 0, -1);
    }
    var issuer := SourceOf(table[ei].dat);
    var secs := ReadSecsOfDay(table[ei].dat);
    var out, taken, appended := WalkBlock(Echo(issuer, secs), table, ei + 1, skip, cap);
    return appended, Reply(out, taken, secs);
  }

  /** The walk behind the echo: out and the counters of the source. */
  method WalkBlock(echo: Echo, table: seq<Entry>, from: nat, skip: nat, cap: nat)
    returns (out: string, taken: nat, appended: nat)
    requires from <= |table|
    ensures var lines := Block(echo, Walker(echo.issuer, "", 0, false), table, from);
            taken == |lines| && out == Answer(lines, skip, cap) && appended == Appended(lines, skip, cap)
  {
    hide Step, Fits, Filled, Answer, Appended, Block;
    AnswerNone(skip, cap);
    out, taken, appended := "", 0, 0;
    var src, num, adopted := echo.issuer, "", false;
    ghost var lines: seq<string> := [];
    ghost var all := Block(echo, Walker(echo.issuer, "", 0, false), table, from);
    var i := from;
    while i < |table|
      invariant from <= i <= |table| && taken == |lines|
      invariant all == lines + Block(echo, Walker(src, num, taken, adopted), table, i)
      invariant out == Answer(lines, skip, cap) && appended == Appended(lines, skip, cap)
      decreases |table| - i
    {
      BlockStep(echo, Walker(src, num, taken, adopted), table, i);
      var verdict := Classify(echo, Walker(src, num, taken, adopted), table[i]);
      match verdict {
        case Stop =>
          break;
        case Pass(w') =>
          src, num, adopted := w'.src, w'.num, w'.adopted;
        case Take(w', msg) =>
          AnswerSnoc(lines, msg, skip, cap);
          if taken >= skip && msg != "" && Fits(out, msg, cap) {
            out := out + msg + "\r";
            appended := appended + 1;
          }
          assert lines + ([msg] + Block(echo, w', table, i + 1)) == (lines + [msg]) + Block(echo, w', table, i + 1);
          lines := lines + [msg];
          taken := taken + 1;
          src, num, adopted := w'.src, w'.num, w'.adopted;
      }
      i := i + 1;
    }
    BlockStep(echo, Walker(src, num, taken, adopted), table, i);
    assert lines + [] == lines;
  }

  lemma BlockStep(echo: Echo, w: Walker, table: seq<Entry>, i: nat)
    requires i <= |table|
    ensures Block(echo, w, table, i) ==
              if i == |table| then [] else
              match Step(echo, w, table[i])
              case Stop => []
              case Pass(w') => Block(echo, w', table, i + 1)
              case Take(w', msg) => [msg] + Block(echo, w', table, i + 1)
  {
    hide Step;
  }

  lemma AnswerNone(skip: nat, cap: nat)
    ensures Answer([], skip, cap) == "" && Appended([], skip, cap) == 0
  {
  }

  /** One more line of the block. */
  lemma AnswerSnoc(lines: seq<string>, msg: string, skip: nat, cap: nat)
    ensures var o := Answer(lines, skip, cap);
            var fits := |lines| >= skip && msg != "" && Fits(o, msg, cap);
            && Answer(lines + [msg], skip, cap) == (if fits then o + msg + "\r" else o)
            && Appended(lines + [msg], skip, cap) == Appended(lines, skip, cap) + if fits then 1 else 0
  {
    FilledSnoc(lines, 0, msg, skip, "", cap);
    hide Filled, Fits;
    assert (lines + [msg])[..|lines|] == lines;
  }

  /** The flags the walk sets for a line before it decides. */
  method ReadFacts(echo: Echo, w: Walker, dat: string) returns (f: Facts)
    ensures f == FactsOf(echo, w, dat)
  {
    hide SecsOfDay, IsCommandShaped, Message;
    var cont := false;
    if w.num != "" {
      var k := SkipBlanks(dat, 0);
      if |dat| - k >= |w.num| && dat[k..k + |w.num|] == w.num {
        cont := true;
      }
    }
    var adoptable := false;
    if w.taken == 0 && !w.adopted && echo.secs >= 0 && |dat| >= SRC_OFF + SRC_LEN {
      var s := ReadSecsOfDay(dat);
      if s >= 0 {
        var d := s - echo.secs;
        if d < 0 {
          d := d + DAY;
        }
        adoptable := d <= 1;
      }
    }
    var command := |dat| > MSG_OFF && IsCommandShaped(Message(dat));
    f := Facts(HasSource(dat, echo.issuer), HasSource(dat, w.src), HasSource(dat, BLANK_SOURCE), cont,
               command, adoptable, |dat| > MSG_OFF);
  }

  /** One turn of the walk, in the order of the source: the same verdict as Step. */
  method Classify(echo: Echo, w: Walker, e: Entry) returns (verdict: Verdict)
    ensures verdict == Step(echo, w, e)
  {
    hide FactsOf, Continues, ContinuedText, Message, MessageNumber;
    if e.NoEntry? {
      return Pass(w);
    }
    var dat, walker := e.dat, w;
    var f := ReadFacts(echo, w, dat);
    var own := f.own;
    // a command echo of our own source starts a new block; one without a source is skipped
    if !f.cont && (f.issuer || f.blank) && f.command {
      if f.issuer {
        return Stop;
      }
      return Pass(walker);
    }
    // the first originator of the echo's second is adopted as the block's source, once
    if !own && !f.blank && !f.cont && f.adoptable {
      walker := walker.(src := dat[SRC_OFF..SRC_OFF + SRC_LEN], adopted := true);
      own := true;
    }
    if !own && !f.blank && !f.cont {
      if w.taken > 0 {
        return Stop;
      }
      return Pass(walker);
    }
    if f.cont && !own && !f.blank {
      var text := CutContinued(dat, w.num);
      return Take(walker.(taken := w.taken + 1), text);
    }
    if |dat| <= MSG_OFF {
      return Pass(walker);
    }
    var msg := CutPrefix(dat);
    var n := MessageNumber(msg);
    if n != "" {
      walker := walker.(num := n);
    }
    return Take(walker.(taken := w.taken + 1), msg);
  }

  method CutContinued(dat: string, num: string) returns (text: string)
    requires Continues(dat, num)
    ensures text == ContinuedText(dat, num)
  {
    var k := SkipBlanks(dat, 0);
    k := SkipBlanks(dat, k + |num|);
    var len := TrimmedLength(dat[k..]);
    text := dat[k..][..len];
  }

  method CutPrefix(dat: string) returns (msg: string)
    requires |dat| > MSG_OFF
    ensures msg == Message(dat)
  {
    var len := TrimmedLength(dat[MSG_OFF..]);
    msg := dat[MSG_OFF..][..len];
  }

  method SkipBlanks(s: string, from: nat) returns (i: nat)
    requires from <= |s|
    ensures i == BlanksEnd(s, from)
  {
    i := from;
    while i < |s| && s[i] == ' '
      invariant from <= i <= |s| && BlanksEnd(s, from) == BlanksEnd(s, i)
    {
      i := i + 1;
    }
  }

  /** The search for the echo: newest without a second to look for, oldest with one. */
  method Search(table: seq<Entry>, cmd: string, want: int) returns (ei: int)
    ensures ei == FindEcho(table, cmd, want)
    ensures ei >= 0 ==> table[ei].Line?
  {
    if want < 0 {
      var i := |table|;
      while i > 0
        invariant 0 <= i <= |table| && NewestEcho(table, cmd, |table|) == NewestEcho(table, cmd, i)
      {
        if IsEcho(table[i - 1], cmd) {
          return i - 1;
        }
        i := i - 1;
      }
    } else {
      var i := 0;
      while i < |table|
        invariant i <= |table| && OldestEcho(table, cmd, want, 0) == OldestEcho(table, cmd, want, i)
      {
        if IsEchoAt(table[i], cmd, want) {
          return i;
        }
        i := i + 1;
      }
    }
    return -1;
  }

  lemma {:induction false} FilledSnoc(lines: seq<string>, i: nat, msg: string, skip: nat, out: string, cap: nat)
    requires i <= |lines|
    ensures var o := Filled(lines, i, skip, out, cap);
            Filled(lines + [msg], i, skip, out, cap)
              == if |lines| >= skip && msg != "" && Fits(o, msg, cap) then o + msg + "\r" else o
    decreases |lines| - i
  {
    if i < |lines| {
      assert (lines + [msg])[i] == lines[i];
      FilledSnoc(lines, i + 1, msg, skip,
                 if i >= skip && lines[i] != "" && Fits(out, lines[i], cap) then out + lines[i] + "\r" else out, cap);
    }
  }
}
