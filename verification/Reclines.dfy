// Byte stream to records: the framing automaton of src/reclines.c. The bytes are
// ASCII. LF, CR and CRLF end a record; the LF of a CRLF is swallowed by the next byte.
module Reclines {
  import opened Bytes
  import opened Wrappers

  type Record = seq<Byte>

  // --- what the records of a body are -------------------------------------------------

  predicate Ends(c: Byte) { c == LF || c == CR }

  /** The position of the first line end, or the length. */
  function Break(s: seq<Byte>): (k: nat)
    ensures k <= |s| && (forall i :: 0 <= i < k ==> !Ends(s[i])) && (k < |s| ==> Ends(s[k]))
  {
    if s == [] || Ends(s[0]) then 0 else 1 + Break(s[1..])
  }

  /** The body behind a line end at k, which CRLF is one of. */
  function Behind(s: seq<Byte>, k: nat): (rest: seq<Byte>)
    requires k < |s|
    ensures |rest| < |s|
  {
    if s[k] == CR && k + 1 < |s| && s[k + 1] == LF then s[k + 2..] else s[k + 1..]
  }

  /** The lines of a body that are ended by LF, CR or CRLF. */
  function EndedLines(s: seq<Byte>): seq<Record>
    decreases |s|
  {
    var k := Break(s);
    if k == |s| then [] else [s[..k]] + EndedLines(Behind(s, k))
  }

  /** What follows the last line end. */
  function LastLine(s: seq<Byte>): Record
    decreases |s|
  {
    var k := Break(s);
    if k == |s| then s else LastLine(Behind(s, k))
  }

  /** A line as it is stored: cut to the record, and never empty. */
  function Stored(line: Record, max: nat): Record
  {
    if line == [] then [BLANK] else if |line| > max then line[..max] else line
  }

  function StoredAll(lines: seq<Record>, max: nat): seq<Record>
  {
    if lines == [] then [] else [Stored(lines[0], max)] + StoredAll(lines[1..], max)
  }

  /** The records of a whole body: a last line without an end is kept, an empty one is not. */
  function Records(body: seq<Byte>, max: nat): seq<Record>
  {
    StoredAll(EndedLines(body), max) + (if LastLine(body) == [] then [] else [Stored(LastLine(body), max)])
  }

  predicate AnyLonger(lines: seq<Record>, max: nat)
  {
    exists i :: 0 <= i < |lines| && |lines[i]| > max
  }

  /** Some line of the body is longer than a record. */
  predicate Overlong(body: seq<Byte>, max: nat)
  {
    AnyLonger(EndedLines(body) + [LastLine(body)], max)
  }

  // --- the automaton -------------------------------------------------------------------

  /** RECLINE: what the buffer holds, and its two flags. */
  datatype Framer = Framer(held: Record, pendingLf: bool, truncated: bool)

  const START := Framer([], false, false)

  /** recline_put() as a function: the next state and the record completed, if any. */
  function Fed(f: Framer, c: Byte, max: nat): (Framer, Option<Record>)
  {
    if f.pendingLf && c == LF then (f.(pendingLf := false), None)
    else if Ends(c) then
      (Framer([], c == CR, f.truncated), Some(if f.held == [] then [BLANK] else f.held))
    else if |f.held| >= max then (f.(pendingLf := false, truncated := true), None)
    else (Framer(f.held + [c], false, f.truncated), None)
  }

  function FedAll(f: Framer, s: seq<Byte>, max: nat): Framer
    decreases |s|
  {
    if s == [] then f else FedAll(Fed(f, s[0], max).0, s[1..], max)
  }

  /** The records completed while s is fed. */
  function Emitted(f: Framer, s: seq<Byte>, max: nat): seq<Record>
    decreases |s|
  {
    if s == [] then [] else
    var (g, r) := Fed(f, s[0], max);
    (if r.Some? then [r.value] else []) + Emitted(g, s[1..], max)
  }

  /** And with the flush at the end of the body. */
  function Flushed(f: Framer, s: seq<Byte>, max: nat): seq<Record>
  {
    var held := FedAll(f, s, max).held;
    Emitted(f, s, max) + (if held == [] then [] else [held])
  }

  class Recline {
    const buf: array<Byte>
    const contentMax: nat
    var len: nat
    var pendingLf: bool
    var truncated: bool

    predicate Valid()
      reads this
    {
      0 < contentMax <= buf.Length && len <= contentMax
    }

    function View(): Framer
      reads this, buf
      requires Valid()
    {
      Framer(buf[..len], pendingLf, truncated)
    }

    /** recline_init() */
    constructor (buf: array<Byte>, contentMax: nat)
      requires 0 < contentMax <= buf.Length
      ensures Valid() && View() == START && this.buf == buf && this.contentMax == contentMax
    {
      this.buf, this.contentMax := buf, contentMax;
      len, pendingLf, truncated := 0, false, false;
    }

    /** recline_put() */
    method Put(c: Byte) returns (rec: Option<Record>)
      requires Valid()
      modifies this, buf
      ensures Valid() && (View(), rec) == Fed(old(View()), c, contentMax)
    {
      if pendingLf {
        pendingLf := false;
        if c == LF {
          return None;
        }
      }
      if c == LF || c == CR {
        if len == 0 {
          buf[0] := BLANK;
          len := 1;
        }
        rec := Some(buf[..len]);
        len := 0;
        if c == CR {
          pendingLf := true;
        }
        return;
      }
      if len >= contentMax {
        truncated := true;
        return None;
      }
      ghost var held := buf[..len];
      buf[len] := c;
      len := len + 1;
      assert buf[..len] == held + [c];
      return None;
    }

    /** recline_flush() */
    method Flush() returns (rec: Option<Record>)
      requires Valid()
      modifies this`len
      ensures Valid() && View() == old(View()).(held := [])
      ensures rec == if old(len) == 0 then None else Some(old(buf[..len]))
    {
      if len == 0 {
        return None;
      }
      rec := Some(buf[..len]);
      len := 0;
    }
  }

  // --- the automaton frames the lines of the body ------------------------------------------

  /** What is left of a body behind a CR that may still own the next byte. */
  function Due(f: Framer, s: seq<Byte>): seq<Byte>
  {
    if f.pendingLf && s != [] && s[0] == LF then s[1..] else s
  }

  /** line, of which the automaton holds as much as fits, is the one being read. */
  ghost predicate Holds(f: Framer, line: Record, max: nat)
  {
    && (forall i :: 0 <= i < |line| ==> !Ends(line[i]))
    && f.held == (if |line| > max then line[..max] else line)
    && (f.pendingLf ==> line == [])
  }

  lemma BreakOf(line: Record, s: seq<Byte>)
    requires forall i :: 0 <= i < |line| ==> !Ends(line[i])
    ensures Break(line + s) == |line| + Break(s)
  {
    var t := line + s;
    var k := |line| + Break(s);
    assert forall i :: 0 <= i < k ==> !Ends(t[i]) by {
      forall i | 0 <= i < k
        ensures !Ends(t[i])
      {
        if i < |line| {
          assert t[i] == line[i];
        } else {
          assert t[i] == s[i - |line|];
        }
      }
    }
    assert k < |t| ==> t[k] == s[Break(s)];
  }

  /** Taking the first line end off a body that starts with line. */
  lemma FirstLine(line: Record, s: seq<Byte>)
    requires s != [] && Ends(s[0]) && forall i :: 0 <= i < |line| ==> !Ends(line[i])
    ensures var rest := Due(Framer([], s[0] == CR, false), s[1..]);
            && EndedLines(line + s) == [line] + EndedLines(rest)
            && LastLine(line + s) == LastLine(rest)
  {
    BreakOf(line, s);
    var t, k := line + s, |line|;
    assert Break(s) == 0 && t[..k] == line && t[k] == s[0];
    assert t[k + 1..] == s[1..];
    assert s[1..] != [] ==> t[k + 1] == s[1] && t[k + 2..] == s[1..][1..];
  }

  lemma NoEnd(line: Record)
    requires forall i :: 0 <= i < |line| ==> !Ends(line[i])
    ensures EndedLines(line) == [] && LastLine(line) == line
  {
    BreakOf(line, []);
    assert line + [] == line;
  }

  lemma LongerCons(line: Record, lines: seq<Record>, max: nat)
    ensures AnyLonger([line] + lines, max) <==> |line| > max || AnyLonger(lines, max)
  {
    var all := [line] + lines;
    assert all[0] == line && forall i :: 0 <= i < |lines| ==> all[i + 1] == lines[i];
    if i :| 0 <= i < |all| && |all[i]| > max && i > 0 {
      assert lines[i - 1] == all[i];
    }
  }

  /**
   * The automaton in state f, reading line, frames what it is due of s: the records
   * are the stored lines, the rest is the last line, and the flag tells whether one
   * was too long.
   */
  ghost predicate Frames(f: Framer, line: Record, s: seq<Byte>, max: nat)
  {
    var body := line + Due(f, s);
    var g := FedAll(f, s, max);
    && Emitted(f, s, max) == StoredAll(EndedLines(body), max)
    && g.held == (if LastLine(body) == [] then [] else Stored(LastLine(body), max))
    && (g.truncated <==> f.truncated || Overlong(body, max))
  }

  lemma FramesNothing(f: Framer, line: Record, max: nat)
    requires max > 0 && Holds(f, line, max) && (|line| > max ==> f.truncated)
    ensures Frames(f, line, [], max)
  {
    assert line + [] == line;
    NoEnd(line);
    LongerCons(line, [], max);
    assert [] + [line] == [line] + [];
  }

  lemma FedStep(f: Framer, s: seq<Byte>, max: nat)
    requires s != []
    ensures var (g, r) := Fed(f, s[0], max);
            && FedAll(f, s, max) == FedAll(g, s[1..], max)
            && Emitted(f, s, max) == (if r.Some? then [r.value] else []) + Emitted(g, s[1..], max)
  {
  }

  /** A line end completes the line held. */
  lemma FramesEnd(f: Framer, line: Record, s: seq<Byte>, max: nat)
    requires max > 0 && Holds(f, line, max) && (|line| > max ==> f.truncated)
    requires s != [] && Ends(s[0]) && !(f.pendingLf && s[0] == LF)
    requires Frames(Fed(f, s[0], max).0, [], s[1..], max)
    ensures Frames(f, line, s, max)
  {
    hide EndedLines, LastLine, Overlong, FedAll, Emitted, StoredAll, Break;
    FedStep(f, s, max);
    var body := Due(Fed(f, s[0], max).0, s[1..]);
    assert Due(Framer([], s[0] == CR, false), s[1..]) == body;
    assert [] + body == body;
    FirstLine(line, s);
    OneMoreLine(line, line + s, body, max);
  }

  /** What a first line adds to the records and to the too-long flag. */
  lemma OneMoreLine(line: Record, s: seq<Byte>, body: seq<Byte>, max: nat)
    requires EndedLines(s) == [line] + EndedLines(body) && LastLine(s) == LastLine(body)
    ensures StoredAll(EndedLines(s), max) == [Stored(line, max)] + StoredAll(EndedLines(body), max)
    ensures Overlong(s, max) <==> |line| > max || Overlong(body, max)
  {
    hide EndedLines, LastLine, AnyLonger, Break;
    LongerCons(line, EndedLines(body) + [LastLine(body)], max);
    assert [line] + EndedLines(body) + [LastLine(body)] == [line] + (EndedLines(body) + [LastLine(body)]);
    assert ([line] + EndedLines(body))[1..] == EndedLines(body);
  }

  /** Any other byte extends it. */
  lemma FramesByte(f: Framer, line: Record, s: seq<Byte>, max: nat)
    requires max > 0 && Holds(f, line, max) && (|line| > max ==> f.truncated)
    requires s != [] && !Ends(s[0])
    requires Frames(Fed(f, s[0], max).0, line + [s[0]], s[1..], max)
    ensures Frames(f, line, s, max)
    ensures Holds(Fed(f, s[0], max).0, line + [s[0]], max)
  {
    hide EndedLines, LastLine, AnyLonger, FedAll, Emitted, StoredAll, Stored;
    FedStep(f, s, max);
    assert [] + Emitted(Fed(f, s[0], max).0, s[1..], max) == Emitted(Fed(f, s[0], max).0, s[1..], max);
    assert line + s == (line + [s[0]]) + s[1..];
    if |line| + 1 > max {
      StillLonger(line + [s[0]], s[1..], max);
    }
  }

  /** A line already too long stays so, whatever follows. */
  lemma StillLonger(line: Record, s: seq<Byte>, max: nat)
    requires |line| > max && forall i :: 0 <= i < |line| ==> !Ends(line[i])
    ensures Overlong(line + s, max)
  {
    BreakOf(line, s);
    var body := line + s;
    var k := Break(body);
    var lines := EndedLines(body) + [LastLine(body)];
    assert |lines[0]| > max;
  }

  lemma {:induction false} FramesLines(f: Framer, line: Record, s: seq<Byte>, max: nat)
    requires max > 0 && Holds(f, line, max) && (|line| > max ==> f.truncated)
    ensures Frames(f, line, s, max)
    decreases |s|
  {
    hide EndedLines, LastLine, Overlong, StoredAll;
    if s == [] {
      FramesNothing(f, line, max);
    } else if f.pendingLf && s[0] == LF {
      FramesLines(Fed(f, s[0], max).0, [], s[1..], max);
    } else if Ends(s[0]) {
      FramesLines(Fed(f, s[0], max).0, [], s[1..], max);
      FramesEnd(f, line, s, max);
    } else {
      FramesLines(Fed(f, s[0], max).0, line + [s[0]], s[1..], max);
      FramesByte(f, line, s, max);
    }
  }

  /** Fed from the start and flushed, it writes exactly the records of the body. */
  lemma FramingExact(body: seq<Byte>, max: nat)
    requires max > 0
    ensures Flushed(START, body, max) == Records(body, max)
    ensures FedAll(START, body, max).truncated <==> Overlong(body, max)
  {
    FramesLines(START, [], body, max);
    assert [] + Due(START, body) == body;
  }

  // --- pieces of a body ---------------------------------------------------------------------

  /** Feeding can be interrupted anywhere: chunk boundaries leave no trace. */
  lemma {:induction false} FedInPieces(f: Framer, a: seq<Byte>, b: seq<Byte>, max: nat)
    ensures FedAll(f, a + b, max) == FedAll(FedAll(f, a, max), b, max)
    ensures Emitted(f, a + b, max) == Emitted(f, a, max) + Emitted(FedAll(f, a, max), b, max)
    decreases |a|
  {
    if a == [] {
      assert a + b == b;
    } else {
      assert (a + b)[0] == a[0] && (a + b)[1..] == a[1..] + b;
      FedInPieces(Fed(f, a[0], max).0, a[1..], b, max);
    }
  }

  /** No record is longer than the buffer's usable part. */
  lemma {:induction false} RecordsFit(f: Framer, s: seq<Byte>, max: nat)
    requires max > 0 && |f.held| <= max
    ensures |FedAll(f, s, max).held| <= max
    ensures forall i :: 0 <= i < |Emitted(f, s, max)| ==> 1 <= |Emitted(f, s, max)[i]| <= max
    decreases |s|
  {
    if s != [] {
      RecordsFit(Fed(f, s[0], max).0, s[1..], max);
    }
  }

  // --- lines put together are read apart ------------------------------------------------------

  /** A line and what ends it. */
  datatype Ended = Ended(line: Record, end: seq<Byte>)

  /** Lines and their ends one behind the other, and a last line without one. */
  function BodyText(es: seq<Ended>, last: Record): seq<Byte>
  {
    if es == [] then last else es[0].line + es[0].end + BodyText(es[1..], last)
  }

  /** No byte of the line ends one. */
  ghost predicate OneLine(line: Record) { forall i :: 0 <= i < |line| ==> line[i] != 10 && line[i] != 13 }

  /** Each line ends with LF, CR or CRLF, and no LF follows a CR that ends a line alone. */
  ghost predicate Apart(es: seq<Ended>, last: Record)
  {
    if es == [] then OneLine(last) else
    var behind := BodyText(es[1..], last);
    && OneLine(es[0].line) && (es[0].end == [10] || es[0].end == [13] || es[0].end == [13, 10])
    && (es[0].end == [13] && behind != [] ==> behind[0] != 10)
    && Apart(es[1..], last)
  }

  function LinesOf(es: seq<Ended>): seq<Record>
  {
    if es == [] then [] else [es[0].line] + LinesOf(es[1..])
  }

  /** The lines of such a body are read back, whichever end each of them has. */
  lemma {:induction false} LinesRead(es: seq<Ended>, last: Record)
    requires Apart(es, last)
    ensures EndedLines(BodyText(es, last)) == LinesOf(es) && LastLine(BodyText(es, last)) == last
    decreases |es|
  {
    if es == [] {
      NoEnd(last);
    } else {
      var line, end, behind := es[0].line, es[0].end, BodyText(es[1..], last);
      var s := end + behind;
      assert line + s == BodyText(es, last);
      assert end == [13, 10] ==> s[1..] == [10] + behind && ([10] + behind)[1..] == behind;
      assert |end| == 1 ==> s[1..] == behind;
      FirstLine(line, s);
      LinesRead(es[1..], last);
    }
  }
}
