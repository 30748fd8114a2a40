// Collecting a command's response over many polls: collect_poll() of
// src/collpoll.c, the capture loop and the collect handler of src/consapi.c.
module Collect {
  import opened TraceTable
  import opened Correlation

  const POLL_FAILED := -1
  const POLL_INTERRUPTED := -1
  const CAPTURE_FAILED := -2

  // --- one poll -------------------------------------------------------------------

  /** The stored cursor of a response key: one command, one echo, lines delivered so far. */
  class Cursor {
    const cmd: string
    const echoSecs: int
    var delivered: nat

    constructor (cmd: string, echoSecs: int, delivered: nat)
      ensures this.cmd == cmd && this.echoSecs == echoSecs && this.delivered == delivered
    {
      this.cmd, this.echoSecs, this.delivered := cmd, echoSecs, delivered;
    }

    /** collect_poll(): haveBuffer tells whether the answer buffer could be had. */
    method Poll(snap: Snapshot, haveBuffer: bool, cap: nat) returns (rc: int, resp: string)
      requires cap > 0
      modifies this`delivered
      ensures !haveBuffer || snap.Failed? ==> rc == -1 && resp == "" && delivered == old(delivered)
      ensures haveBuffer && snap.Table? ==>
                && rc == 0
                && resp == Answer(LinesOf(snap.entries, cmd, echoSecs), old(delivered), cap)
                && delivered == Advanced(old(delivered), |LinesOf(snap.entries, cmd, echoSecs)|)
    {
      hide Answer, LinesOf, SecsOfEcho;
      if !haveBuffer {
        return POLL_FAILED, "";
      }
      var r, reply := CorrelateOnce(snap, cmd, echoSecs, delivered, cap, Reply("", 0, -1));
      if r == SNAP_FAILED {
        return POLL_FAILED, "";
      }
      if reply.total > delivered {
        delivered := reply.total;
      }
      return 0, reply.out;
    }
  }

  function Advanced(delivered: nat, total: nat): nat
  {
    if total > delivered then total else delivered
  }

  // --- the capture at issue time -----------------------------------------------------

  /** One turn of the capture loop: the server is going down, or the table is looked at. */
  datatype Look = Quiescing | Snap(snap: Snapshot)

  ghost predicate GoodLook(looks: seq<Look>, j: int)
  {
    0 <= j < |looks| && looks[j].Snap? && looks[j].snap.Table?
  }

  /** What the loop has seen: how often in a row the count stayed as it was, and the count. */
  datatype Watch = Watch(stable: nat, prevTotal: nat)

  /** After the first k turns; a look without a table changes nothing. */
  function Watched(looks: seq<Look>, cmd: string, cap: nat, k: nat): Watch
    requires k <= |looks|
  {
    if k == 0 then Watch(0, 0) else
    var w := Watched(looks, cmd, cap, k - 1);
    if looks[k - 1].Quiescing? || looks[k - 1].snap.Failed? then w else
    var total := ReplyOf(looks[k - 1].snap.entries, cmd, -1, 0, cap).total;
    Watch(if total == 0 then w.stable else if total == w.prevTotal then w.stable + 1 else 0, total)
  }

  lemma WatchedStep(looks: seq<Look>, cmd: string, cap: nat, k: nat)
    requires k < |looks| && looks[k].Snap?
    ensures var w, v := Watched(looks, cmd, cap, k), Watched(looks, cmd, cap, k + 1);
            if looks[k].snap.Failed? then v == w else
            var total := ReplyOf(looks[k].snap.entries, cmd, -1, 0, cap).total;
            v == Watch(if total == 0 then w.stable else if total == w.prevTotal then w.stable + 1 else 0, total)
  {
    hide ReplyOf;
  }

  lemma NothingWatched(looks: seq<Look>, cmd: string, cap: nat)
    ensures Watched(looks, cmd, cap, 0) == Watch(0, 0) && NoneGood(looks, 0)
  {
  }

  /** The count of lines in each of the first k looks that found a table. */
  function Totals(looks: seq<Look>, cmd: string, cap: nat, k: nat): seq<nat>
    requires k <= |looks|
  {
    if k == 0 then [] else
    Totals(looks, cmd, cap, k - 1)
    + if looks[k - 1].Snap? && looks[k - 1].snap.Table? then [ReplyOf(looks[k - 1].snap.entries, cmd, -1, 0, cap).total]
      else []
  }

  /** The last n counts are the same as the one before them. */
  ghost predicate Stays(ts: seq<nat>, n: nat)
  {
    |ts| > n && forall i :: |ts| - n <= i < |ts| ==> ts[i] == ts[|ts| - n - 1]
  }

  /** Some lines are there, and three more looks have found as many. */
  ghost predicate Settled(looks: seq<Look>, cmd: string, cap: nat, k: nat)
    requires k <= |looks|
  {
    var ts := Totals(looks, cmd, cap, k);
    Stays(ts, 3) && ts[|ts| - 1] > 0
  }

  /** Before turn k the response has not settled and no turn saw a quiesce. */
  ghost predicate Unsettled(looks: seq<Look>, cmd: string, cap: nat, k: nat)
    requires k <= |looks|
  {
    forall j :: 0 <= j < k ==> looks[j].Snap? && !Settled(looks, cmd, cap, j)
  }

  lemma StaysOn(ts: seq<nat>, t: nat, n: nat)
    requires n > 0
    ensures Stays(ts + [t], n) <==> ts != [] && t == ts[|ts| - 1] && Stays(ts, n - 1)
  {
    var us := ts + [t];
    if Stays(us, n) {
      assert us[|us| - 1] == us[|us| - n - 1];
      if n > 1 {
        assert us[|us| - 2] == us[|us| - n - 1];
      }
      assert forall i :: 0 <= i < |ts| ==> us[i] == ts[i];
    }
  }

  /** The loop's counter says how often the count has stayed, as long as there are lines. */
  lemma {:induction false} StableIs(looks: seq<Look>, cmd: string, cap: nat, k: nat, n: nat)
    requires k <= |looks|
    ensures var ts, w := Totals(looks, cmd, cap, k), Watched(looks, cmd, cap, k);
            && w.prevTotal == (if ts == [] then 0 else ts[|ts| - 1])
            && (ts != [] && ts[|ts| - 1] > 0 ==> (w.stable >= n <==> Stays(ts, n)))
  {
    hide ReplyOf, Stays;
    if k > 0 {
      var ts := Totals(looks, cmd, cap, k - 1);
      StableIs(looks, cmd, cap, k - 1, if n == 0 then 0 else n - 1);
      StableIs(looks, cmd, cap, k - 1, n);
      if looks[k - 1].Snap? && looks[k - 1].snap.Table? {
        var total := ReplyOf(looks[k - 1].snap.entries, cmd, -1, 0, cap).total;
        assert Totals(looks, cmd, cap, k) == ts + [total];
        if n > 0 {
          StaysOn(ts, total, n);
        } else {
          assert Stays(ts + [total], 0) by { NothingToStay(ts + [total]); }
        }
      } else {
        assert Totals(looks, cmd, cap, k) == ts;
      }
    }
  }

  lemma NothingToStay(ts: seq<nat>)
    requires ts != []
    ensures Stays(ts, 0)
  {
  }

  /** The counter reaches three exactly when the response settles. */
  lemma SettlesAtThree(looks: seq<Look>, cmd: string, cap: nat, k: nat)
    requires k <= |looks|
    requires forall j :: 0 <= j < k ==> Watched(looks, cmd, cap, j).stable < 3
    ensures Watched(looks, cmd, cap, k).stable >= 3 <==> Settled(looks, cmd, cap, k)
  {
    hide ReplyOf, Stays;
    StableIs(looks, cmd, cap, k, 3);
    if Settled(looks, cmd, cap, k) {
      assert Totals(looks, cmd, cap, k) != [] by { StaysSome(Totals(looks, cmd, cap, k), 3); }
    } else if k > 0 {
      assert Watched(looks, cmd, cap, k - 1).stable < 3;
    }
  }

  lemma StaysSome(ts: seq<nat>, n: nat)
    requires Stays(ts, n)
    ensures |ts| > n
  {
  }

  /** The reply is that of the last good look before made. */
  ghost predicate LastGood(looks: seq<Look>, cmd: string, cap: nat, good: int, made: nat, reply: Reply)
  {
    && GoodLook(looks, good) && good < made
    && (forall j :: good < j < made ==> !GoodLook(looks, j))
    && reply == ReplyOf(looks[good].snap.entries, cmd, -1, 0, cap)
  }

  ghost predicate NoneGood(looks: seq<Look>, made: nat) { forall j :: 0 <= j < made ==> !GoodLook(looks, j) }

  /** One more look. */
  lemma LookStep(looks: seq<Look>, cmd: string, cap: nat, good: int, made: nat, reply: Reply)
    requires made < |looks| && looks[made].Snap?
    ensures looks[made].snap.Failed? && LastGood(looks, cmd, cap, good, made, reply) ==>
              LastGood(looks, cmd, cap, good, made + 1, reply)
    ensures looks[made].snap.Failed? && NoneGood(looks, made) ==> NoneGood(looks, made + 1)
    ensures looks[made].snap.Table? ==>
              LastGood(looks, cmd, cap, made, made + 1, ReplyOf(looks[made].snap.entries, cmd, -1, 0, cap))
  {
    hide ReplyOf;
  }

  /**
   * capture_response(): looks are the turns until the time is up. The answer, the
   * line count and the echo's second all come from one look, the last good one
   * of the turns made (good is its index, made their number). The loop goes on
   * until the count has stayed three times, to a quiesce, or to the end.
   */
  method Capture(looks: seq<Look>, cmd: string, cap: nat)
    returns (rc: int, reply: Reply, ghost good: int, made: nat)
    requires cap > 0
    ensures rc >= 0 || rc == -1 || rc == -2
    ensures made <= |looks|
    ensures Unsettled(looks, cmd, cap, made)
    ensures rc == -1 <==>
            made < |looks| && looks[made].Quiescing? && !Settled(looks, cmd, cap, made)
    ensures rc == -2 ==> made == |looks| && NoneGood(looks, made)
    ensures rc >= 0 ==>
              && (made == |looks| || Settled(looks, cmd, cap, made))
              && LastGood(looks, cmd, cap, good, made, reply) && rc == reply.total
  {
    hide ReplyOf, Watched, Settled, LastGood, NoneGood;
    var stable, prevTotal, looked := 0, 0, false;
    reply, good, made := Reply("", 0, -1), -1, 0;
    NothingWatched(looks, cmd, cap);
    while made < |looks|
      invariant made <= |looks| && Watched(looks, cmd, cap, made) == Watch(stable, prevTotal) && stable < 3
      invariant Unsettled(looks, cmd, cap, made)
      invariant forall j :: 0 <= j <= made ==> Watched(looks, cmd, cap, j).stable < 3
      invariant if looked then LastGood(looks, cmd, cap, good, made, reply) else NoneGood(looks, made)
    {
      SettlesAtThree(looks, cmd, cap, made);
      if looks[made].Quiescing? {
        return POLL_INTERRUPTED, reply, good, made;
      }
      WatchedStep(looks, cmd, cap, made);
      LookStep(looks, cmd, cap, good, made, reply);
      var r;
      r, reply := CorrelateOnce(looks[made].snap, cmd, -1, 0, cap, reply);
      made := made + 1;
      if r != SNAP_FAILED {
        looked, good := true, made - 1;
        if reply.total > 0 {
          if reply.total == prevTotal {
            stable := stable + 1;
            if stable >= 3 {
              SettlesAtThree(looks, cmd, cap, made);
              return reply.total, reply, good, made;
            }
          } else {
            stable := 0;
          }
        }
        prevTotal := reply.total;
      }
    }
    if !looked {
      return CAPTURE_FAILED, reply, good, made;
    }
    return reply.total, reply, good, made;
  }

  // --- any number of polls -----------------------------------------------------------

  /** A poll that could not be made, or one that found h[lo..hi] in the table. */
  datatype Event = Unmade | Made(lo: nat, hi: nat)

  /** The nonempty lines, each with its line end. */
  function Joined(lines: seq<string>): string
  {
    if lines == [] then "" else
    Joined(lines[..|lines| - 1]) +
    (if lines[|lines| - 1] == "" then "" else lines[|lines| - 1] + "\r")
  }

  function From(lines: seq<string>, d: nat): seq<string>
  {
    if d <= |lines| then lines[d..] else []
  }

  /** The lines of the block at e, once h[..hi] has been written. */
  function BlockAt(h: seq<Entry>, e: nat, hi: nat): seq<string>
    requires e < hi <= |h|
  {
    LinesAfter(h[..hi], e)
  }

  /** e is the first entry since lo that echoes the command in that second. */
  ghost predicate Pinned(h: seq<Entry>, cmd: string, secs: int, lo: nat, e: nat)
  {
    && lo <= e < |h| && secs >= 0
    && IsEchoAt(h[e], cmd, secs)
    && forall i :: lo <= i < e ==> !IsEchoAt(h[i], cmd, secs)
  }

  /** The table only ever loses entries at its front and gains them at its end; the echo stays in it. */
  ghost predicate Slides(h: seq<Entry>, lo: nat, e: nat, hi: nat, events: seq<Event>)
    decreases |events|
  {
    events == [] ||
    match events[0]
    case Unmade => Slides(h, lo, e, hi, events[1..])
    case Made(l, r) => lo <= l <= e < r <= |h| && hi <= r && Slides(h, l, e, r, events[1..])
  }

  /** What the client receives over a run of polls, and where the cursor ends. */
  function Received(h: seq<Entry>, cmd: string, secs: int, cap: nat, delivered: nat, events: seq<Event>): (string, nat)
    decreases |events|
  {
    if events == [] then ("", delivered) else
    match events[0]
    case Unmade => Received(h, cmd, secs, cap, delivered, events[1..])
    case Made(lo, hi) =>
      if !(lo <= hi <= |h|) then ("", delivered) else
      var lines := LinesOf(h[lo..hi], cmd, secs);
      var rest := Received(h, cmd, secs, cap, Advanced(delivered, |lines|), events[1..]);
      (Answer(lines, delivered, cap) + rest.0, rest.1)
  }

  /** The lines of the block as the last made poll saw it; sofar when no poll is made. */
  function Seen(h: seq<Entry>, e: nat, sofar: seq<string>, events: seq<Event>): seq<string>
    decreases |events|
  {
    if events == [] then sofar else
    match events[0]
    case Unmade => Seen(h, e, sofar, events[1..])
    case Made(lo, hi) => Seen(h, e, if e < hi <= |h| then BlockAt(h, e, hi) else sofar, events[1..])
  }

  /** Every made poll has room for what it has to return. */
  ghost predicate Suffices(h: seq<Entry>, e: nat, cap: nat, delivered: nat, events: seq<Event>)
    decreases |events|
  {
    events == [] ||
    match events[0]
    case Unmade => Suffices(h, e, cap, delivered, events[1..])
    case Made(lo, hi) =>
      e < hi <= |h| &&
      var lines := BlockAt(h, e, hi);
      |Joined(From(lines, delivered))| < cap && Suffices(h, e, cap, Advanced(delivered, |lines|), events[1..])
  }

  // --- the walk over a window -----------------------------------------------------------

  /** Lines appended to the table only ever extend a block. */
  lemma {:induction false} BlockExtends(echo: Echo, w: Walker, t: seq<Entry>, more: seq<Entry>, i: nat)
    requires i <= |t|
    ensures Block(echo, w, t, i) <= Block(echo, w, t + more, i)
    decreases |t| - i
  {
    hide Step;
    if i < |t| {
      assert (t + more)[i] == t[i];
      match Step(echo, w, t[i]) {
        case Stop =>
        case Pass(w') => BlockExtends(echo, w', t, more, i + 1);
        case Take(w', msg) => BlockExtends(echo, w', t, more, i + 1);
      }
    }
  }

  /** Entries evicted in front of the walk's start do not change the block. */
  lemma {:induction false} BlockIgnoresFront(echo: Echo, w: Walker, t: seq<Entry>, k: nat, i: nat)
    requires k <= i <= |t|
    ensures Block(echo, w, t[k..], i - k) == Block(echo, w, t, i)
    decreases |t| - i
  {
    hide Step;
    if i < |t| {
      assert t[k..][i - k] == t[i];
      match Step(echo, w, t[i]) {
        case Stop =>
        case Pass(w') => BlockIgnoresFront(echo, w', t, k, i + 1);
        case Take(w', msg) => BlockIgnoresFront(echo, w', t, k, i + 1);
      }
    }
  }

  lemma {:induction false} OldestEchoIs(t: seq<Entry>, cmd: string, secs: int, i: nat, k: nat)
    requires i <= k < |t| && IsEchoAt(t[k], cmd, secs)
    requires forall j :: i <= j < k ==> !IsEchoAt(t[j], cmd, secs)
    ensures OldestEcho(t, cmd, secs, i) == k
    decreases k - i
  {
    hide IsEchoAt;
    if i < k {
      OldestEchoIs(t, cmd, secs, i + 1, k);
    }
  }

  /** As long as the echo is in the window, a poll sees exactly its block so far. */
  lemma PollSeesBlock(h: seq<Entry>, cmd: string, secs: int, lo0: nat, e: nat, lo: nat, hi: nat)
    requires Pinned(h, cmd, secs, lo0, e) && lo0 <= lo <= e < hi <= |h|
    ensures LinesOf(h[lo..hi], cmd, secs) == BlockAt(h, e, hi)
  {
    hide IsEchoAt, Block, EchoOf, Step;
    var t := h[lo..hi];
    assert t == h[..hi][lo..];
    assert t[e - lo] == h[e] == h[..hi][e];
    assert forall j :: 0 <= j < e - lo ==> t[j] == h[lo + j];
    OldestEchoIs(t, cmd, secs, 0, e - lo);
    var echo := EchoOf(h[e]);
    BlockIgnoresFront(echo, Walker(echo.issuer, "", 0, false), h[..hi], lo, e + 1);
  }

  lemma BlockGrows(h: seq<Entry>, e: nat, hi: nat, hi': nat)
    requires e < hi <= hi' <= |h|
    ensures BlockAt(h, e, hi) <= BlockAt(h, e, hi')
  {
    hide Block, EchoOf, Step;
    assert h[..hi'] == h[..hi] + h[hi..hi'];
    assert h[..hi][e] == h[..hi'][e];
    var echo := EchoOf(h[e]);
    BlockExtends(echo, Walker(echo.issuer, "", 0, false), h[..hi], h[hi..hi'], e + 1);
  }

  // --- the answer of one poll --------------------------------------------------------------

  lemma {:induction false} JoinedSplit(a: seq<string>, b: seq<string>)
    ensures Joined(a + b) == Joined(a) + Joined(b)
  {
    if b == [] {
      assert a + b == a;
    } else {
      var b' := b[..|b| - 1];
      JoinedSplit(a, b');
      assert (a + b)[..|a + b| - 1] == a + b' && (a + b)[|a + b| - 1] == b[|b| - 1];
      var last := Ended(b[|b| - 1]);
      assert Joined(a) + (Joined(b') + last) == Joined(a) + Joined(b') + last;
    }
  }

  function Ended(line: string): string
  {
    if line == "" then "" else line + "\r"
  }

  lemma JoinedHead(lines: seq<string>)
    requires lines != []
    ensures Joined(lines) == Ended(lines[0]) + Joined(lines[1..])
  {
    assert lines == [lines[0]] + lines[1..];
    JoinedSplit([lines[0]], lines[1..]);
    assert [lines[0]][..0] == [];
  }

  lemma {:induction false} FilledStaysBelow(lines: seq<string>, i: nat, skip: nat, out: string, cap: nat)
    requires i <= |lines| && |out| < cap
    ensures |Filled(lines, i, skip, out, cap)| < cap
    decreases |lines| - i
  {
    if i < |lines| {
      FilledStaysBelow(lines, i + 1, skip,
                       if i >= skip && lines[i] != "" && Fits(out, lines[i], cap)
                       then out + lines[i] + "\r" else out, cap);
    }
  }

  lemma {:induction false} FilledTakesAll(lines: seq<string>, i: nat, skip: nat, out: string, cap: nat)
    requires skip <= i <= |lines|
    requires |out + Joined(lines[i..])| < cap
    ensures Filled(lines, i, skip, out, cap) == out + Joined(lines[i..])
    decreases |lines| - i
  {
    if i < |lines| {
      hide Joined;
      JoinedHead(lines[i..]);
      assert lines[i..][1..] == lines[i + 1..];
      var out' := out + Ended(lines[i]);
      assert out + (Ended(lines[i]) + Joined(lines[i + 1..])) == out' + Joined(lines[i + 1..]);
      assert lines[i] == "" ==> out' == out;
      assert lines[i] != "" ==> Fits(out, lines[i], cap) && out' == out + lines[i] + "\r";
      FilledTakesAll(lines, i + 1, skip, out', cap);
    } else {
      assert lines[i..] == [];
    }
  }

  lemma {:induction false} FilledSkips(lines: seq<string>, i: nat, skip: nat, cap: nat)
    requires i <= |lines|
    ensures Filled(lines, i, skip, "", cap)
         == if i >= skip then Filled(lines, i, skip, "", cap)
            else if skip <= |lines| then Filled(lines, skip, skip, "", cap) else ""
    decreases |lines| - i
  {
    if i < |lines| && i < skip {
      FilledSkips(lines, i + 1, skip, cap);
    }
  }

  /** A poll returns exactly the nonempty lines from its cursor on -- if and only if they fit its buffer. */
  lemma AnswerExact(lines: seq<string>, d: nat, cap: nat)
    requires cap > 0
    ensures Answer(lines, d, cap) == Joined(From(lines, d)) <==> |Joined(From(lines, d))| < cap
    ensures |Answer(lines, d, cap)| < cap
  {
    hide Filled;
    FilledStaysBelow(lines, 0, d, "", cap);
    FilledSkips(lines, 0, d, cap);
    if d <= |lines| && |Joined(lines[d..])| < cap {
      assert "" + Joined(lines[d..]) == Joined(lines[d..]);
      FilledTakesAll(lines, d, d, "", cap);
    }
  }

  // --- the run --------------------------------------------------------------------------------

  /** Later polls see at least the lines earlier ones saw, in the same places. */
  lemma {:induction false} SeenExtends(h: seq<Entry>, lo: nat, e: nat, hi: nat, events: seq<Event>)
    requires e < hi <= |h| && Slides(h, lo, e, hi, events)
    ensures BlockAt(h, e, hi) <= Seen(h, e, BlockAt(h, e, hi), events)
    decreases |events|
  {
    hide BlockAt;
    if events != [] {
      match events[0] {
        case Unmade => SeenExtends(h, lo, e, hi, events[1..]);
        case Made(l, r) =>
          BlockGrows(h, e, hi, r);
          SeenExtends(h, l, e, r, events[1..]);
      }
    }
  }

  /** What one poll returns and what is left for the later ones make up the whole. */
  lemma TailSplits(lines: seq<string>, all: seq<string>, delivered: nat)
    requires lines <= all
    ensures Joined(From(all, delivered))
         == Joined(From(lines, delivered)) + Joined(From(all, Advanced(delivered, |lines|)))
    ensures Advanced(Advanced(delivered, |lines|), |all|) == Advanced(delivered, |all|)
  {
    var d := Advanced(delivered, |lines|);
    assert From(all, delivered) == From(lines, delivered) + From(all, d);
    JoinedSplit(From(lines, delivered), From(all, d));
  }

  lemma NothingLeft(sofar: seq<string>, delivered: nat)
    requires |sofar| <= delivered
    ensures Joined(From(sofar, delivered)) == ""
  {
  }

  /**
   * Exactly once: over any run of polls, made and unmade, the answers together are
   * the nonempty lines of the block from the first cursor position on, in order,
   * none twice and none left out; the cursor never moves back.
   */
  lemma {:induction false} ExactlyOnce(h: seq<Entry>, cmd: string, secs: int, cap: nat, lo: nat, e: nat, hi: nat,
                                       sofar: seq<string>, delivered: nat, events: seq<Event>)
    requires cap > 0 && Pinned(h, cmd, secs, lo, e)
    requires Slides(h, lo, e, hi, events) && Suffices(h, e, cap, delivered, events)
    requires |sofar| <= delivered
    ensures var (answers, cursor) := Received(h, cmd, secs, cap, delivered, events);
            && answers == Joined(From(Seen(h, e, sofar, events), delivered))
            && cursor == Advanced(delivered, |Seen(h, e, sofar, events)|) >= delivered
    decreases |events|
  {
    hide BlockAt, LinesOf, Answer, IsEchoAt, Joined, From;
    NothingLeft(sofar, delivered);
    if events != [] {
      match events[0] {
        case Unmade =>
          ExactlyOnce(h, cmd, secs, cap, lo, e, hi, sofar, delivered, events[1..]);
        case Made(l, r) =>
          var lines := BlockAt(h, e, r);
          PollSeesBlock(h, cmd, secs, lo, e, l, r);
          AnswerExact(lines, delivered, cap);
          var d := Advanced(delivered, |lines|);
          ExactlyOnce(h, cmd, secs, cap, l, e, r, lines, d, events[1..]);
          SeenExtends(h, l, e, r, events[1..]);
          TailSplits(lines, Seen(h, e, lines, events[1..]), delivered);
      }
    }
  }

  /** Whatever room the polls have, no more is sent than there is; as much only if every made poll has room. */
  lemma {:induction false} NeverMore(h: seq<Entry>, cmd: string, secs: int, cap: nat, lo: nat, e: nat, hi: nat,
                                     sofar: seq<string>, delivered: nat, events: seq<Event>)
    requires cap > 0 && Pinned(h, cmd, secs, lo, e)
    requires Slides(h, lo, e, hi, events) && |sofar| <= delivered
    ensures var (answers, cursor) := Received(h, cmd, secs, cap, delivered, events);
            var whole := Joined(From(Seen(h, e, sofar, events), delivered));
            && |answers| <= |whole| && (|answers| == |whole| <==> Suffices(h, e, cap, delivered, events))
            && cursor == Advanced(delivered, |Seen(h, e, sofar, events)|)
    decreases |events|
  {
    hide BlockAt, LinesOf, Answer, IsEchoAt, Joined, From;
    NothingLeft(sofar, delivered);
    if events != [] {
      match events[0] {
        case Unmade =>
          NeverMore(h, cmd, secs, cap, lo, e, hi, sofar, delivered, events[1..]);
        case Made(l, r) =>
          var lines := BlockAt(h, e, r);
          PollSeesBlock(h, cmd, secs, lo, e, l, r);
          AnswerExact(lines, delivered, cap);
          var d := Advanced(delivered, |lines|);
          NeverMore(h, cmd, secs, cap, l, e, r, lines, d, events[1..]);
          SeenExtends(h, l, e, r, events[1..]);
          TailSplits(lines, Seen(h, e, lines, events[1..]), delivered);
      }
    }
  }

  /** Over any run the answers together are those lines if and only if every made poll had room for its share. */
  lemma NothingLostExact(h: seq<Entry>, cmd: string, secs: int, cap: nat, lo: nat, e: nat, hi: nat,
                         sofar: seq<string>, delivered: nat, events: seq<Event>)
    requires cap > 0 && Pinned(h, cmd, secs, lo, e)
    requires Slides(h, lo, e, hi, events) && |sofar| <= delivered
    ensures Received(h, cmd, secs, cap, delivered, events).0 == Joined(From(Seen(h, e, sofar, events), delivered))
       <==> Suffices(h, e, cap, delivered, events)
  {
    NeverMore(h, cmd, secs, cap, lo, e, hi, sofar, delivered, events);
    hide Received, Joined, From, Seen;
    if Suffices(h, e, cap, delivered, events) {
      ExactlyOnce(h, cmd, secs, cap, lo, e, hi, sofar, delivered, events);
    }
  }

  /** The same run, poll by poll, on a cursor: what the client is sent is what Received says. */
  method PollAll(cursor: Cursor, h: seq<Entry>, cap: nat, events: seq<Event>) returns (answers: string)
    requires cap > 0
    requires forall i :: 0 <= i < |events| && events[i].Made? ==> events[i].lo <= events[i].hi <= |h|
    modifies cursor`delivered
    ensures (answers, cursor.delivered) == Received(h, cursor.cmd, cursor.echoSecs, cap, old(cursor.delivered), events)
  {
    hide LinesOf, Answer;
    answers := "";
    ghost var all := Received(h, cursor.cmd, cursor.echoSecs, cap, cursor.delivered, events);
    assert events[0..] == events;
    assert "" + all.0 == all.0;
    for i := 0 to |events|
      invariant var rest := Received(h, cursor.cmd, cursor.echoSecs, cap, cursor.delivered, events[i..]);
                all.0 == answers + rest.0 && all.1 == rest.1
    {
      assert events[i..][0] == events[i] && events[i..][1..] == events[i + 1..];
      var rc, resp;
      ghost var before := answers;
      match events[i] {
        case Unmade =>
          rc, resp := cursor.Poll(Failed, true, cap);
        case Made(lo, hi) =>
          rc, resp := cursor.Poll(Table(h[lo..hi]), true, cap);
      }
      answers := answers + resp;
      ghost var later := Received(h, cursor.cmd, cursor.echoSecs, cap, cursor.delivered, events[i + 1..]).0;
      assert before + (resp + later) == answers + later;
      assert events[i].Unmade? ==> answers == before;
    }
    assert events[|events|..] == [];
    assert answers + "" == answers;
  }

  /**
   * The synchronous response and everything collected after it are together the
   * whole block, when the echo the capture anchored on is the first of its second.
   */
  lemma IssueThenCollect(h: seq<Entry>, cmd: string, secs: int, cap: nat, lo: nat, e: nat, hi: nat, events: seq<Event>)
    requires Pinned(h, cmd, secs, lo, e) && e < hi <= |h|
    requires NewestEcho(h[lo..hi], cmd, hi - lo) == e - lo
    requires |Joined(BlockAt(h, e, hi))| < cap
    requires Slides(h, lo, e, hi, events) && Suffices(h, e, cap, |BlockAt(h, e, hi)|, events)
    ensures var captured := ReplyOf(h[lo..hi], cmd, -1, 0, cap);
            && captured.echoSecs == secs
            && captured.out + Received(h, cmd, secs, cap, captured.total, events).0
                 == Joined(Seen(h, e, BlockAt(h, e, hi), events))
  {
    var lines := BlockAt(h, e, hi);
    CaptureSeesBlock(h, cmd, lo, e, hi);
    AnswerExact(lines, 0, cap);
    assert From(lines, 0) == lines;
    ExactlyOnce(h, cmd, secs, cap, lo, e, hi, lines, |lines|, events);
    SeenExtends(h, lo, e, hi, events);
    TailSplits(lines, Seen(h, e, lines, events), 0);
    assert From(Seen(h, e, lines, events), 0) == Seen(h, e, lines, events);
  }

  lemma CaptureSeesBlock(h: seq<Entry>, cmd: string, lo: nat, e: nat, hi: nat)
    requires lo <= e < hi <= |h| && NewestEcho(h[lo..hi], cmd, hi - lo) == e - lo
    ensures LinesOf(h[lo..hi], cmd, -1) == BlockAt(h, e, hi)
    ensures SecsOfEcho(h[lo..hi], cmd, -1) == EchoOf(h[e]).secs
  {
    hide IsEcho, Block, EchoOf, Step;
    var t := h[lo..hi];
    assert t == h[..hi][lo..];
    assert t[e - lo] == h[e] == h[..hi][e];
    var echo := EchoOf(h[e]);
    BlockIgnoresFront(echo, Walker(echo.issuer, "", 0, false), h[..hi], lo, e + 1);
  }
}
