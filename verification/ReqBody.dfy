// Reading a request body into one buffer: src/reqbody.c. The chunked decoder of
// section 4.1 of RFC 7230, with an allocator that may fail at any request.
module ReqBody {
  import opened Bytes
  import opened Texts

  const OK := 0
  const BAD := -1
  const NOMEM := -2
  const TOO_LARGE := -3
  const MAX := 0x0100_0000
  const LINE_MAX := 10
  const DRAIN_BUF := 256
  const TWO32 := 0x1_0000_0000

  // --- numbers ----------------------------------------------------------------------

  predicate IsHex(b: Byte) { 48 <= b <= 57 || 65 <= b <= 70 || 97 <= b <= 102 }

  function HexDigit(b: Byte): (v: nat)
    requires IsHex(b)
    ensures v < 16
  {
    if b <= 57 then b - 48 else if b <= 70 then b - 55 else b - 87
  }

  function HexRun(s: seq<Byte>, i: nat): (j: nat)
    requires i <= |s|
    ensures i <= j <= |s| && (forall k :: i <= k < j ==> IsHex(s[k])) && (j < |s| ==> !IsHex(s[j]))
    decreases |s| - i
  {
    if i < |s| && IsHex(s[i]) then HexRun(s, i + 1) else i
  }

  function HexValue(s: seq<Byte>): nat
    requires forall k :: 0 <= k < |s| ==> IsHex(s[k])
  {
    if s == [] then 0 else HexValue(s[..|s| - 1]) * 16 + HexDigit(s[|s| - 1])
  }

  predicate IsSpace(b: Byte) { b == 32 || 9 <= b <= 13 }

  function SpaceRun(s: seq<Byte>, i: nat): (j: nat)
    requires i <= |s|
    ensures i <= j <= |s| && (j < |s| ==> !IsSpace(s[j]))
    decreases |s| - i
  {
    if i < |s| && IsSpace(s[i]) then SpaceRun(s, i + 1) else i
  }

  /** The value of a number read, or none. */
  datatype Parsed = NoNumber | Number(value: nat)

  /**
   * strtoul() with base 16 and a 32-bit result: blanks, a sign, an optional 0x,
   * digits; anything behind them is ignored, and too large a number is cut to the largest.
   */
  function StrToUl(s: seq<Byte>): Parsed
  {
    var a := SpaceRun(s, 0);
    var neg := a < |s| && s[a] == 45;
    var b := if a < |s| && (s[a] == 45 || s[a] == 43) then a + 1 else a;
    var c := if b + 2 < |s| && s[b] == 48 && (s[b + 1] == 120 || s[b + 1] == 88) && IsHex(s[b + 2]) then b + 2 else b;
    var d := HexRun(s, c);
    if d == c then NoNumber else
    assert forall k :: 0 <= k < d - c ==> s[c..d][k] == s[c + k];
    var v: int := HexValue(s[c..d]);
    Number(if v >= TWO32 then TWO32 - 1 else if neg then (-v) % TWO32 else v)
  }

  // --- what the stream means ---------------------------------------------------------

  /** The chunk-size line from pos on, and where reading it ends; none when it is malformed. */
  datatype Header = NoHeader(end: nat) | Header(line: seq<Byte>, end: nat)

  /** The bytes of the line up to its CR, which must be one of the first nine. */
  function HeaderFrom(data: seq<Byte>, pos: nat, i: nat): (h: Header)
    requires pos + i <= |data| && i <= LINE_MAX - 1
    ensures pos + i <= h.end <= |data|
    ensures h.Header? ==> h.end > pos + i && |h.line| < LINE_MAX - 1
    decreases LINE_MAX - i
  {
    if i == LINE_MAX - 1 || pos + i == |data| then NoHeader(pos + i)
    else if data[pos + i] == CR then
      Header(data[pos..pos + i], Least(pos + i + 2, |data|))      // and the LF, whatever it is
    else HeaderFrom(data, pos, i + 1)
  }

  /** One chunk-size line: where it leaves the reader, and what it announces. */
  datatype Size = NoSize(end: nat) | TooBig(end: nat) | Last(end: nat) | Chunk(end: nat, n: nat)

  /** The line at pos, with held bytes of the body kept so far. */
  function SizeAt(data: seq<Byte>, pos: nat, held: nat): (z: Size)
    requires pos <= |data| && held < MAX
    ensures pos <= z.end <= |data| && (!z.NoSize? ==> pos < z.end)
    ensures z.Chunk? ==> 0 < z.n < MAX - held
  {
    var h := HeaderFrom(data, pos, 0);
    if h.NoHeader? then NoSize(h.end) else
    var p := StrToUl(h.line);
    if p.NoNumber? then NoSize(h.end)
    else if p.value >= MAX - held then TooBig(h.end)
    else if p.value == 0 then Last(h.end)
    else Chunk(h.end, p.value)
  }

  /** end: where in the stream the reader stops. */
  datatype Outcome = Done(body: seq<Byte>, end: nat) | Malformed(end: nat) | Oversized(end: nat)

  /** The stream from pos on, with acc read so far. */
  function Decoded(data: seq<Byte>, pos: nat, acc: seq<Byte>): (o: Outcome)
    requires pos <= |data| && |acc| < MAX
    ensures pos <= o.end <= |data|
    decreases |data| - pos
  {
    var z := SizeAt(data, pos, |acc|);
    match z
    case NoSize(end) => Malformed(end)
    case TooBig(end) => Oversized(end)
    case Last(end) => Done(acc, Least(end + 2, |data|))
    case Chunk(end, n) =>
      if end + n + 2 > |data| then Malformed(|data|) else
      Decoded(data, end + n + 2, acc + data[end..end + n])
  }

  /** What one line decides about the rest. */
  lemma DecodedAt(data: seq<Byte>, pos: nat, acc: seq<Byte>)
    requires pos <= |data| && |acc| < MAX
    ensures var o := Decoded(data, pos, acc);
            match SizeAt(data, pos, |acc|)
            case NoSize(end) => o == Malformed(end)
            case TooBig(end) => o == Oversized(end)
            case Last(end) => o == Done(acc, Least(end + 2, |data|))
            case Chunk(end, n) =>
              if end + n + 2 > |data| then o == Malformed(|data|)
              else o == Decoded(data, end + n + 2, acc + data[end..end + n])
  {
    hide SizeAt;
  }

  function CodeOf(o: Outcome): int
  {
    if o.Done? then 0 else if o.Malformed? then -1 else -3
  }

  // --- the stream when storage fails ---------------------------------------------------

  /** Where the reader stops that throws the chunks from pos on away, held bytes being the body it had. */
  function DiscardEnd(data: seq<Byte>, pos: nat, held: nat): (end: nat)
    requires pos <= |data| && held < MAX
    ensures pos <= end <= |data|
    decreases |data| - pos
  {
    match SizeAt(data, pos, held)
    case NoSize(end) => end
    case TooBig(end) => end
    case Last(end) => Least(end + 2, |data|)
    case Chunk(end, n) =>
      if end + n + 2 > |data| then |data| else DiscardEnd(data, end + n + 2, held)
  }

  /** What the reader answers, and where in the stream it stops; body is the body of an OK. */
  datatype Answer = Answer(rc: int, end: nat, body: seq<Byte>)

  /** The reader under an allocator whose next request is the one numbered call. */
  function Reading(data: seq<Byte>, pos: nat, acc: seq<Byte>, grants: nat -> bool, call: nat): (r: Answer)
    requires pos <= |data| && |acc| < MAX
    ensures pos <= r.end <= |data|
    decreases |data| - pos
  {
    match SizeAt(data, pos, |acc|)
    case NoSize(end) => Answer(-1, end, [])
    case TooBig(end) => Answer(-3, end, [])
    case Last(end) =>
      if acc == [] && !grants(call) then Answer(-2, Least(end + 2, |data|), [])
      else Answer(0, Least(end + 2, |data|), acc)
    case Chunk(end, n) =>
      if !grants(call) then
        Answer(-2, if end + n + 2 > |data| then |data| else DiscardEnd(data, end + n + 2, |acc|), [])
      else if end + n + 2 > |data| then Answer(-1, |data|, [])
      else Reading(data, end + n + 2, acc + data[end..end + n], grants, call + 1)
  }

  /** What one line decides about the rest. */
  lemma ReadingAt(data: seq<Byte>, pos: nat, acc: seq<Byte>, grants: nat -> bool, call: nat)
    requires pos <= |data| && |acc| < MAX
    ensures var r := Reading(data, pos, acc, grants, call);
            match SizeAt(data, pos, |acc|)
            case NoSize(end) => r == Answer(-1, end, [])
            case TooBig(end) => r == Answer(-3, end, [])
            case Last(end) =>
              if acc == [] && !grants(call) then r == Answer(-2, Least(end + 2, |data|), [])
              else r == Answer(0, Least(end + 2, |data|), acc)
            case Chunk(end, n) =>
              if !grants(call) then
                r == Answer(-2, if end + n + 2 > |data| then |data| else DiscardEnd(data, end + n + 2, |acc|), [])
              else if end + n + 2 > |data| then r == Answer(-1, |data|, [])
              else r == Reading(data, end + n + 2, acc + data[end..end + n], grants, call + 1)
  {
    hide SizeAt, DiscardEnd;
  }

  /**
   * On the way from pos on, with size bytes decoded so far, a size is announced that is
   * too big for them, still fits the held ones, and has something behind it.
   */
  predicate PassesLimit(data: seq<Byte>, pos: nat, size: nat, held: nat)
    requires pos <= |data| && held <= size < MAX
    decreases |data| - pos
  {
    var z := SizeAt(data, pos, size);
    if z.TooBig? then !SizeAt(data, pos, held).TooBig? && z.end < |data|
    else z.Chunk? && z.end + z.n + 2 <= |data| && PassesLimit(data, z.end + z.n + 2, size + z.n, held)
  }

  /** Throwing away stops where decoding would, exactly if no such size is announced; else behind it. */
  lemma {:induction false} DiscardStops(data: seq<Byte>, pos: nat, acc: seq<Byte>, held: nat)
    requires pos <= |data| && held <= |acc| < MAX
    ensures DiscardEnd(data, pos, held) == Decoded(data, pos, acc).end <==> !PassesLimit(data, pos, |acc|, held)
    ensures DiscardEnd(data, pos, held) >= Decoded(data, pos, acc).end
    decreases |data| - pos
  {
    hide SizeAt;
    SizeWith(data, pos, |acc|, held);
    FittingSize(data, pos, |acc|, held);
    var z := SizeAt(data, pos, |acc|);
    if z.Chunk? && z.end + z.n + 2 <= |data| {
      DiscardStops(data, z.end + z.n + 2, acc + data[z.end..z.end + z.n], held);
    }
  }

  /** A size too big for more bytes is not zero: where it fits it is a chunk's. */
  lemma FittingSize(data: seq<Byte>, pos: nat, size: nat, held: nat)
    requires pos <= |data| && held <= size < MAX
    ensures SizeAt(data, pos, size).TooBig? ==> SizeAt(data, pos, held).TooBig? || SizeAt(data, pos, held).Chunk?
  {
    hide StrToUl, HeaderFrom;
  }

  /** The first refused request is followed by such a size. */
  predicate Overruns(data: seq<Byte>, pos: nat, acc: seq<Byte>, grants: nat -> bool, call: nat)
    requires pos <= |data| && |acc| < MAX
    decreases |data| - pos
  {
    var z := SizeAt(data, pos, |acc|);
    && z.Chunk? && z.end + z.n + 2 <= |data|
    && if grants(call) then Overruns(data, z.end + z.n + 2, acc + data[z.end..z.end + z.n], grants, call + 1)
       else PassesLimit(data, z.end + z.n + 2, |acc| + z.n, |acc|)
  }

  /**
   * The reader stops where the decoder does exactly if no size that was announced after
   * storage failed passes the limit unnoticed; and without a refusal it answers as the decoder.
   */
  lemma {:induction false} ReadingStops(data: seq<Byte>, pos: nat, acc: seq<Byte>, grants: nat -> bool, call: nat)
    requires pos <= |data| && |acc| < MAX
    ensures var r, o := Reading(data, pos, acc, grants, call), Decoded(data, pos, acc);
            && (r.end == o.end <==> !Overruns(data, pos, acc, grants, call)) && r.end >= o.end
            && (r.rc != -2 ==> r.rc == CodeOf(o) && r.end == o.end && (o.Done? ==> r.body == o.body))
            && (!o.Oversized? ==> r.end == o.end)
    decreases |data| - pos
  {
    hide SizeAt, DiscardEnd, PassesLimit;
    ReadingAt(data, pos, acc, grants, call);
    var z := SizeAt(data, pos, |acc|);
    if z.Chunk? && z.end + z.n + 2 <= |data| {
      var more := acc + data[z.end..z.end + z.n];
      if grants(call) {
        ReadingStops(data, z.end + z.n + 2, more, grants, call + 1);
      } else {
        DiscardStops(data, z.end + z.n + 2, more, |acc|);
        if !Decoded(data, z.end + z.n + 2, more).Oversized? {
          UnlimitedStops(data, z.end + z.n + 2, more, |acc|);
        }
      }
    }
  }

  lemma {:induction false} UnlimitedStops(data: seq<Byte>, pos: nat, acc: seq<Byte>, held: nat)
    requires pos <= |data| && held <= |acc| < MAX && !Decoded(data, pos, acc).Oversized?
    ensures !PassesLimit(data, pos, |acc|, held)
    decreases |data| - pos
  {
    hide SizeAt;
    var z := SizeAt(data, pos, |acc|);
    if z.Chunk? && z.end + z.n + 2 <= |data| {
      UnlimitedStops(data, z.end + z.n + 2, acc + data[z.end..z.end + z.n], held);
    }
  }

  /** What a line announces depends on the bytes held only in being too big. */
  lemma SizeWith(data: seq<Byte>, pos: nat, held: nat, less: nat)
    requires pos <= |data| && less <= held < MAX
    ensures !SizeAt(data, pos, held).TooBig? ==> SizeAt(data, pos, less) == SizeAt(data, pos, held)
    ensures SizeAt(data, pos, less).end == SizeAt(data, pos, held).end
    ensures SizeAt(data, pos, less).TooBig? ==> SizeAt(data, pos, held).TooBig?
  {
    hide StrToUl, HeaderFrom;
  }

  // --- the services the reader is given ---------------------------------------------------

  /** The connection: recv() returns what was asked for, fewer only when the client closed. */
  class Wire {
    const data: seq<Byte>
    var pos: nat

    constructor (data: seq<Byte>)
      ensures this.data == data && pos == 0
    {
      this.data, pos := data, 0;
    }

    method Recv(n: nat) returns (got: seq<Byte>)
      requires pos <= |data|
      modifies this`pos
      ensures old(pos) <= pos == Least(old(pos) + n, |data|)
      ensures got == data[old(pos)..pos]
    {
      var end := Least(pos + n, |data|);
      got := data[pos..end];
      pos := end;
    }
  }

  /** The allocator: grants says of each request whether it is met; live is what is handed out. */
  class Heap {
    const grants: nat -> bool
    var calls: nat
    var reports: nat
    ghost var live: set<array<Byte>>

    constructor (grants: nat -> bool)
      ensures this.grants == grants && calls == 0 && reports == 0 && live == {}
    {
      this.grants, calls, reports, live := grants, 0, 0, {};
    }

    method Alloc(size: nat) returns (b: array?<Byte>)
      modifies this`calls, this`live
      ensures calls == old(calls) + 1
      ensures b != null <==> grants(old(calls))
      ensures b != null ==> fresh(b) && b.Length == size && live == old(live) + {b}
      ensures b == null ==> live == old(live)
    {
      calls := calls + 1;
      if !grants(calls - 1) {
        return null;
      }
      var a := new Byte[size](i => 0);
      live := live + {a};
      return a;
    }

    /** realloc(): the old block is gone exactly when a new one is returned. */
    method Resize(b: array<Byte>, size: nat) returns (r: array?<Byte>)
      requires b in live && b.Length <= size
      modifies this`calls, this`live
      ensures calls == old(calls) + 1
      ensures r != null <==> grants(old(calls))
      ensures r != null ==>
                fresh(r) && r.Length == size && r[..b.Length] == b[..] && live == old(live) - {b} + {r}
      ensures r == null ==> live == old(live)
    {
      calls := calls + 1;
      if !grants(calls - 1) {
        return null;
      }
      var a := new Byte[size](i reads b => if 0 <= i < b.Length then b[i] else 0);
      live := live - {b} + {a};
      return a;
    }

    /** free(): of something handed out and not yet given back, or of nothing. */
    method Release(b: array?<Byte>)
      requires b != null ==> b in live
      modifies this`live
      ensures live == if b != null then old(live) - {b} else old(live)
    {
      if b != null {
        live := live - {b};
      }
    }

    method Report()
      modifies this`reports
      ensures reports == old(reports) + 1
    {
      reports := reports + 1;
    }
  }

  /** drain(): read and discard, in pieces. */
  method Drain(w: Wire, n: nat) returns (rc: int)
    requires w.pos <= |w.data|
    modifies w`pos
    ensures w.pos == Least(old(w.pos) + n, |w.data|)
    ensures rc == 0 <==> old(w.pos) + n <= |w.data|
    ensures rc == 0 || rc == -1
  {
    var left := n;
    while left > 0
      invariant 0 <= left
      invariant old(w.pos) <= w.pos <= |w.data| && w.pos + left == old(w.pos) + n
      decreases left
    {
      var got := w.Recv(if left < DRAIN_BUF then left else DRAIN_BUF);
      if |got| == 0 {
        return -1;
      }
      left := left - |got|;
    }
    return 0;
  }

  lemma SlicesJoin(data: seq<Byte>, a: nat, b: nat, c: nat)
    requires a <= b <= c <= |data|
    ensures data[a..b] + data[b..c] == data[a..c]
  {
  }

  /** read_exact(): n bytes behind the first at. */
  method ReadExact(w: Wire, buf: array<Byte>, at: nat, n: nat) returns (rc: int)
    requires w.pos <= |w.data| && at + n <= buf.Length
    modifies w`pos, buf
    ensures w.pos == Least(old(w.pos) + n, |w.data|)
    ensures rc == 0 <==> old(w.pos) + n <= |w.data|
    ensures rc == 0 || rc == -1
    ensures rc == 0 ==> buf[..at + n] == old(buf[..at]) + w.data[old(w.pos)..old(w.pos) + n]
  {
    var got := 0;
    ghost var p0, front := w.pos, buf[..at];
    while got < n
      invariant 0 <= got <= n && w.pos == p0 + got <= |w.data|
      invariant buf[..at + got] == front + w.data[p0..p0 + got]
      decreases n - got
    {
      var piece := w.Recv(n - got);
      if |piece| == 0 {
        return -1;
      }
      Put(buf, at + got, piece);
      assert front + (w.data[p0..p0 + got] + piece) == (front + w.data[p0..p0 + got]) + piece;
      SlicesJoin(w.data, p0, p0 + got, p0 + got + |piece|);
      got := got + |piece|;
    }
    return 0;
  }

  // --- the readers ------------------------------------------------------------------------

  lemma HeaderAt(data: seq<Byte>, pos: nat, i: nat)
    requires pos + i <= |data| && i <= LINE_MAX - 1
    ensures HeaderFrom(data, pos, i) ==
              if i == LINE_MAX - 1 || pos + i == |data| then NoHeader(pos + i)
              else if data[pos + i] == CR then Header(data[pos..pos + i], Least(pos + i + 2, |data|))
              else HeaderFrom(data, pos, i + 1)
  {
  }

  /** The chunk-size line, byte by byte up to its CR, and one byte more. */
  method ReadHeader(w: Wire) returns (ok: bool, line: seq<Byte>)
    requires w.pos <= |w.data|
    modifies w`pos
    ensures var h := HeaderFrom(w.data, old(w.pos), 0);
            ok == h.Header? && w.pos == h.end && (ok ==> line == h.line)
  {
    hide HeaderFrom;
    ghost var p0, data := w.pos, w.data;
    ghost var h := HeaderFrom(data, p0, 0);
    var i := 0;
    line := [];
    while i < LINE_MAX - 1
      invariant 0 <= i <= LINE_MAX - 1 && w.pos == p0 + i <= |data| && line == data[p0..p0 + i]
      invariant h == HeaderFrom(data, p0, i)
    {
      HeaderAt(data, p0, i);
      var c := w.Recv(1);
      if |c| != 1 {
        return false, [];
      }
      if c[0] == CR {
        var lf := w.Recv(1);
        return true, line;
      }
      assert data[p0..p0 + i] + c == data[p0..p0 + i + 1];
      line := line + c;
      i := i + 1;
    }
    HeaderAt(data, p0, i);
    return false, [];
  }

  /** The line and the number on it. */
  method ReadSize(w: Wire, held: nat) returns (z: Size)
    requires w.pos <= |w.data| && held < MAX
    modifies w`pos
    ensures z == SizeAt(w.data, old(w.pos), held) && w.pos == z.end
  {
    hide HeaderFrom, StrToUl;
    var ok, line := ReadHeader(w);
    if !ok {
      return NoSize(w.pos);
    }
    var p := StrToUl(line);
    if p.NoNumber? {
      return NoSize(w.pos);
    }
    if p.value >= MAX - held {
      return TooBig(w.pos);
    }
    return if p.value == 0 then Last(w.pos) else Chunk(w.pos, p.value);
  }

  /** The block held for the body so far, if any, and nothing else handed out since live0. */
  ghost predicate Held(heap: Heap, live0: set<array<Byte>>, buf: array?<Byte>, body: seq<Byte>)
    reads heap, buf
  {
    && (buf == null ==> body == [] && heap.live == live0)
    && (buf != null ==>
          buf !in live0 && buf.Length == |body| + 1 && buf[..|body|] == body && heap.live == live0 + {buf})
  }

  /**
   * The data of one chunk and the CRLF behind it: into the body, or away once
   * storage has failed. more says whether the stream went on that far.
   */
  method TakeChunk(w: Wire, heap: Heap, buf: array?<Byte>, size: nat, chunk: nat, nomem: bool)
    returns (more: bool, grown: array?<Byte>, failed: bool)
    requires w.pos <= |w.data|
    requires buf != null ==> buf in heap.live && buf.Length == size + 1 && !nomem
    requires buf == null && !nomem ==> size == 0
    modifies w`pos, heap
    ensures w.pos == Least(old(w.pos) + chunk + 2, |w.data|)
    ensures more <==> old(w.pos) + chunk + 2 <= |w.data|
    ensures nomem ==> failed && heap.calls == old(heap.calls)
    ensures !nomem ==> heap.calls == old(heap.calls) + 1 && failed == !heap.grants(old(heap.calls))
    ensures heap.reports == old(heap.reports) + (if failed && !nomem then 1 else 0)
    ensures failed || !more ==> grown == null
    ensures grown != null ==> fresh(grown) && grown.Length == size + chunk + 1
    ensures grown != null ==>
              grown[..size + chunk]
                == (if buf != null then old(buf[..size]) else []) + w.data[old(w.pos)..old(w.pos) + chunk]
    ensures more && !failed ==> grown != null
    ensures heap.live == old(heap.live) - (if buf != null then {buf} else {}) + (if grown != null then {grown} else {})
  {
    grown, failed := null, nomem;
    if !nomem {
      grown, failed := Grow(heap, buf, size, chunk);
    }
    var rc;
    if failed {
      rc := Drain(w, chunk);
    } else {
      rc := ReadExact(w, grown, size, chunk);
    }
    if rc == 0 {
      var crlf := w.Recv(2);
      more := |crlf| == 2;
    } else {
      more := false;
    }
    if !more {
      heap.Release(grown);
      grown := null;
    }
  }

  /** One line of the discarding walk. */
  lemma DiscardAt(data: seq<Byte>, pos: nat, held: nat)
    requires pos <= |data| && held < MAX
    ensures var e := DiscardEnd(data, pos, held);
            match SizeAt(data, pos, held)
            case NoSize(end) => e == end
            case TooBig(end) => e == end
            case Last(end) => e == Least(end + 2, |data|)
            case Chunk(end, n) => e == if end + n + 2 > |data| then |data| else DiscardEnd(data, end + n + 2, held)
  {
    hide SizeAt;
  }

  /** Some request made since was refused. */
  ghost predicate Refused(grants: nat -> bool, since: nat, calls: nat)
  {
    exists i :: since <= i < calls && !grants(i)
  }

  lemma RefusedMore(grants: nat -> bool, since: nat, calls: nat)
    requires since <= calls
    ensures Refused(grants, since, calls + 1) <==> Refused(grants, since, calls) || !grants(calls)
    ensures !Refused(grants, since, since)
  {
  }

  /**
   * read_chunked(). Whatever the allocator does: a body is returned only complete,
   * every buffer obtained is the one returned or has been given back, the answer is
   * out of storage exactly if a request was refused, and the stream is read to the
   * same place as when storage never fails exactly if no later size overruns.
   */
  method ReadChunked(w: Wire, heap: Heap) returns (rc: int, content: array?<Byte>, size: nat)
    requires w.pos <= |w.data|
    modifies w`pos, heap
    ensures var o, a := Decoded(w.data, old(w.pos), []), Reading(w.data, old(w.pos), [], heap.grants, old(heap.calls));
            && rc == a.rc && w.pos == a.end
            && (rc == 0 ==>
                  && o.Done? && size == |o.body|
                  && content != null && fresh(content) && content.Length == size + 1
                  && content[..size] == o.body && content[size] == 0)
            && (rc != 0 ==> content == null)
            && heap.live == (if content != null then old(heap.live) + {content} else old(heap.live))
            && (rc == -2 || rc == CodeOf(o))
            && (rc == -2 <==> Refused(heap.grants, old(heap.calls), heap.calls))
            && heap.reports == old(heap.reports) + (if rc == -2 then 1 else 0)
            && (rc != -2 || !o.Oversized? ==> w.pos == o.end)
            && (w.pos == o.end <==> !Overruns(w.data, old(w.pos), [], heap.grants, old(heap.calls)))
  {
    hide Decoded, Reading, Overruns, Refused;
    ReadingStops(w.data, w.pos, [], heap.grants, heap.calls);
    rc, content, size := ReadChunks(w, heap);
  }

  /** The loop of read_chunked(). */
  method ReadChunks(w: Wire, heap: Heap) returns (rc: int, content: array?<Byte>, size: nat)
    requires w.pos <= |w.data|
    modifies w`pos, heap
    ensures var a := Reading(w.data, old(w.pos), [], heap.grants, old(heap.calls));
            && rc == a.rc && w.pos == a.end
            && (rc == 0 ==>
                  && size == |a.body|
                  && content != null && fresh(content) && content.Length == size + 1
                  && content[..size] == a.body && content[size] == 0)
            && (rc != 0 ==> content == null)
            && heap.live == (if content != null then old(heap.live) + {content} else old(heap.live))
            && (rc == -2 <==> Refused(heap.grants, old(heap.calls), heap.calls))
            && heap.reports == old(heap.reports) + (if rc == -2 then 1 else 0)
  {
    hide SizeAt, Reading, DiscardEnd, Refused;
    RefusedMore(heap.grants, heap.calls, heap.calls);
    ghost var data := w.data;
    ghost var a := Reading(data, w.pos, [], heap.grants, heap.calls);
    ghost var acc: seq<Byte> := [];
    var buf: array?<Byte> := null;
    var nomem := false;
    size := 0;
    while true
      invariant w.pos <= |data| && |acc| < MAX && size == |acc|
      invariant a == if nomem then Answer(NOMEM, DiscardEnd(data, w.pos, size), [])
                     else Reading(data, w.pos, acc, heap.grants, heap.calls)
      invariant nomem ==> buf == null && heap.live == old(heap.live)
      invariant !nomem ==> Held(heap, old(heap.live), buf, acc)
      invariant buf != null ==> fresh(buf) && size > 0
      invariant heap.reports == old(heap.reports) + (if nomem then 1 else 0)
      invariant heap.calls >= old(heap.calls)
      invariant nomem <==> Refused(heap.grants, old(heap.calls), heap.calls)
      decreases |data| - w.pos
    {
      DiscardAt(data, w.pos, size);
      RefusedMore(heap.grants, old(heap.calls), heap.calls);
      ReadingAt(data, w.pos, acc, heap.grants, heap.calls);
      var z := ReadSize(w, size);
      if z.NoSize? || z.TooBig? {
        heap.Release(buf);
        return if nomem then NOMEM else if z.NoSize? then BAD else TOO_LARGE, null, 0;
      }
      if z.Last? {
        var crlf := w.Recv(2);
        break;
      }
      var more, failed;
      more, buf, failed := TakeChunk(w, heap, buf, size, z.n, nomem);
      nomem := failed;
      if !more {
        return if nomem then NOMEM else BAD, null, 0;
      }
      if !nomem {
        size := size + z.n;
        acc := acc + data[z.end..z.end + z.n];
      }
    }
    if nomem {
      return NOMEM, null, 0;
    }
    RefusedMore(heap.grants, old(heap.calls), heap.calls);
    rc, content := Finish(heap, buf, size);
    return rc, content, if rc == OK then size else 0;
  }

  /** The terminated body; an empty one still needs a block. */
  method Finish(heap: Heap, buf: array?<Byte>, size: nat) returns (rc: int, content: array?<Byte>)
    requires if buf != null then buf.Length == size + 1 && buf in heap.live else size == 0
    modifies heap, buf
    ensures buf != null ==> rc == 0 && content == buf && heap.live == old(heap.live)
    ensures buf == null ==> rc == (if heap.grants(old(heap.calls)) then 0 else -2)
    ensures buf == null && rc == 0 ==> fresh(content) && heap.live == old(heap.live) + {content}
    ensures rc == 0 ==> content != null && content.Length == size + 1 && content[size] == 0
    ensures rc == 0 && buf != null ==> content[..size] == old(buf[..size])
    ensures rc != 0 ==> content == null && heap.live == old(heap.live)
    ensures heap.calls >= old(heap.calls) && heap.calls == old(heap.calls) + (if buf == null then 1 else 0)
    ensures heap.reports == old(heap.reports) + (if rc == -2 then 1 else 0)
  {
    content := buf;
    if content == null {
      content := heap.Alloc(1);
      if content == null {
        heap.Report();
        return NOMEM, null;
      }
    }
    content[size] := 0;
    return OK, content;
  }

  /** Room for one more chunk; without it the block held so far is given back. */
  method Grow(heap: Heap, buf: array?<Byte>, size: nat, chunk: nat) returns (grown: array?<Byte>, nomem: bool)
    requires buf != null ==> buf in heap.live && buf.Length == size + 1
    requires buf == null ==> size == 0
    modifies heap
    ensures nomem == (grown == null) == !heap.grants(old(heap.calls)) && heap.calls == old(heap.calls) + 1
    ensures grown != null ==> fresh(grown) && grown.Length == size + chunk + 1
    ensures grown != null && buf != null ==> grown[..size] == old(buf[..size])
    ensures heap.live == old(heap.live) - (if buf != null then {buf} else {}) + (if grown != null then {grown} else {})
    ensures heap.reports == old(heap.reports) + (if nomem then 1 else 0)
  {
    if buf != null {
      grown := heap.Resize(buf, size + chunk + 1);
      if grown != null {
        assert grown[..size] == grown[..buf.Length][..size] && buf[..][..size] == buf[..size];
      }
    } else {
      grown := heap.Alloc(size + chunk + 1);
    }
    nomem := grown == null;
    if nomem {
      heap.Report();
      heap.Release(buf);
    }
  }

  // --- encoding and decoding ------------------------------------------------------------

  /** A chunk as it is sent: the digits of its size, in any case and with any leading zeros. */
  datatype Piece = Piece(digits: seq<Byte>, data: seq<Byte>)

  ghost predicate Sized(digits: seq<Byte>, n: nat)
  {
    1 <= |digits| <= 8 && (forall k :: 0 <= k < |digits| ==> IsHex(digits[k])) && HexValue(digits) == n
  }

  /** The digits of n, each in either case. */
  ghost predicate Spells(digits: seq<Byte>, n: nat)
  {
    if digits == [] then n == 0 else
    var b, d := digits[|digits| - 1], n % 16;
    && (b == "0123456789abcdef"[d] as int || b == "0123456789ABCDEF"[d] as int)
    && Spells(digits[..|digits| - 1], n / 16)
  }

  lemma DigitSpelled(b: Byte, d: nat)
    requires d < 16
    ensures b == "0123456789abcdef"[d] as int || b == "0123456789ABCDEF"[d] as int <==> IsHex(b) && HexDigit(b) == d
  {
  }

  lemma {:induction false} HexSpelled(digits: seq<Byte>, n: nat)
    ensures Spells(digits, n) <==> (forall k :: 0 <= k < |digits| ==> IsHex(digits[k])) && HexValue(digits) == n
    decreases |digits|
  {
    if digits != [] {
      var front, b := digits[..|digits| - 1], digits[|digits| - 1];
      DigitSpelled(b, n % 16);
      HexSpelled(front, n / 16);
      hide IsHex, HexDigit;
      assert digits == front + [b];
    }
  }

  /** The sizes a chunk can announce are those its digits spell. */
  lemma SizedSpelled(digits: seq<Byte>, n: nat)
    ensures Sized(digits, n) <==> 1 <= |digits| <= 8 && Spells(digits, n)
  {
    HexSpelled(digits, n);
  }

  ghost predicate Sendable(ps: seq<Piece>)
  {
    forall i :: 0 <= i < |ps| ==> ps[i].data != [] && Sized(ps[i].digits, |ps[i].data|)
  }

  function Line(digits: seq<Byte>): seq<Byte> { digits + [CR, LF] }

  /** Section 4.1: size line, data and CRLF of every chunk, then the last chunk and a CRLF. */
  function Encoded(ps: seq<Piece>, zero: seq<Byte>): seq<Byte>
  {
    if ps == [] then Line(zero) + [CR, LF] else
    Line(ps[0].digits) + ps[0].data + [CR, LF] + Encoded(ps[1..], zero)
  }

  function Body(ps: seq<Piece>): seq<Byte>
  {
    if ps == [] then [] else ps[0].data + Body(ps[1..])
  }

  lemma {:induction false} HexBound(s: seq<Byte>)
    requires forall k :: 0 <= k < |s| ==> IsHex(s[k])
    ensures HexValue(s) < Power16(|s|)
  {
    if s != [] {
      HexBound(s[..|s| - 1]);
    }
  }

  function Power16(n: nat): nat { if n == 0 then 1 else 16 * Power16(n - 1) }

  lemma StrToUlReads(digits: seq<Byte>, n: nat)
    requires Sized(digits, n)
    ensures StrToUl(digits) == Number(n)
  {
    assert !IsSpace(digits[0]) && digits[0] != 45 && digits[0] != 43;
    assert SpaceRun(digits, 0) == 0;
    assert |digits| > 1 ==> IsHex(digits[1]) && digits[1] != 120 && digits[1] != 88;
    assert HexRun(digits, 0) == |digits|;
    assert digits[0..|digits|] == digits;
    HexBound(digits);
    PowerGrows(|digits|);
  }

  lemma PowerGrows(n: nat)
    requires n <= 8
    ensures Power16(n) <= TWO32
  {
    assert Power16(8) == TWO32 by {
      assert Power16(2) == 256;
      assert Power16(4) == 65536;
      assert Power16(6) == 16777216;
    }
    if n < 8 {
      PowerMonotone(n, 8);
    }
  }

  lemma {:induction false} PowerMonotone(a: nat, b: nat)
    requires a <= b
    ensures Power16(a) <= Power16(b)
    decreases b
  {
    if a < b {
      PowerMonotone(a, b - 1);
    }
  }

  lemma {:induction false} HeaderReads(data: seq<Byte>, pos: nat, digits: seq<Byte>, i: nat)
    requires i <= |digits| <= 8 && pos + |digits| + 2 <= |data|
    requires forall k :: 0 <= k < |digits| ==> IsHex(digits[k])
    requires data[pos..pos + |digits| + 2] == Line(digits)
    ensures HeaderFrom(data, pos, i) == Header(digits, pos + |digits| + 2)
    decreases |digits| - i
  {
    var line := data[pos..pos + |digits| + 2];
    assert data[pos + i] == line[i] == Line(digits)[i];
    if i < |digits| {
      assert Line(digits)[i] == digits[i];
      HeaderReads(data, pos, digits, i + 1);
    } else {
      assert data[pos..pos + i] == line[..i] == digits;
    }
  }

  lemma SizeReads(data: seq<Byte>, pos: nat, digits: seq<Byte>, n: nat, held: nat)
    requires Sized(digits, n) && pos + |digits| + 2 <= |data| && held + n < MAX
    requires data[pos..pos + |digits| + 2] == Line(digits)
    ensures var end := pos + |digits| + 2;
            SizeAt(data, pos, held) == if n == 0 then Last(end) else Chunk(end, n)
  {
    hide HexValue, StrToUl, HeaderFrom;
    HeaderReads(data, pos, digits, 0);
    StrToUlReads(digits, n);
  }

  lemma SizeTooBig(data: seq<Byte>, pos: nat, digits: seq<Byte>, n: nat, held: nat)
    requires Sized(digits, n) && pos + |digits| + 2 <= |data| && held < MAX <= held + n
    requires data[pos..pos + |digits| + 2] == Line(digits)
    ensures SizeAt(data, pos, held) == TooBig(pos + |digits| + 2)
  {
    hide HexValue, StrToUl, HeaderFrom;
    HeaderReads(data, pos, digits, 0);
    StrToUlReads(digits, n);
  }

  // --- any size line ----------------------------------------------------------------------

  /** A line is read up to its CR, one more byte with it, and nine bytes without a CR are none. */
  lemma HeaderExact(line: seq<Byte>, behind: seq<Byte>)
    requires 13 !in line
    ensures HeaderFrom(line + behind, 0, 0) ==
              if |line| >= 9 then NoHeader(9)
              else if behind == [] then NoHeader(|line|)
              else if behind[0] == 13 then Header(line, if |behind| == 1 then |line| + 1 else |line| + 2)
              else HeaderFrom(line + behind, 0, |line| + 1)
  {
    var data := line + behind;
    assert forall k :: 0 <= k < |line| ==> data[k] == line[k];
    PassesBytes(data, Least(|line|, 9), |line|);
    if |line| < 9 && behind != [] {
      assert data[|line|] == behind[0] && data[0..|line|] == line;
    }
  }

  lemma {:induction false} PassesBytes(data: seq<Byte>, i: nat, n: nat)
    requires i <= 9 && i <= n <= |data| && forall k :: 0 <= k < n ==> data[k] != 13
    ensures HeaderFrom(data, 0, 0) == HeaderFrom(data, 0, i)
  {
    if i > 0 {
      PassesBytes(data, i - 1, n);
    }
  }

  /** The bytes that may stand in front of a number. */
  predicate AllSpace(s: seq<Byte>) { forall i :: 0 <= i < |s| ==> s[i] in [32, 9, 10, 11, 12, 13] }

  /** No digit of the number goes on in what follows. */
  ghost predicate Stops(tail: seq<Byte>) { tail == [] || (forall n :: 0 <= n < 16 ==> !Spells([tail[0]], n)) }

  /** Blanks, a sign, the 0x of a number, its digits: what strtoul() makes of them. */
  lemma NumberForms(spaces: seq<Byte>, sign: seq<Byte>, prefix: seq<Byte>, digits: seq<Byte>, n: nat, tail: seq<Byte>)
    requires AllSpace(spaces) && sign in [[], [43], [45]] && prefix in [[], [48, 120], [48, 88]]
    requires digits != [] && Spells(digits, n) && Stops(tail)
    requires prefix == [] && digits == [48] && tail != [] && tail[0] in [120, 88] ==> Stops(tail[1..])
    ensures StrToUl(spaces + (sign + (prefix + (digits + tail)))) ==
              Number(if n >= 0x1_0000_0000 then 0xFFFF_FFFF
                     else if sign == [45] && n > 0 then 0x1_0000_0000 - n else n)
  {
    var rest := digits + tail;
    var marked := prefix + rest;
    var signed := sign + marked;
    var s := spaces + signed;
    var a, b := |spaces|, |spaces| + |sign|;
    var c := b + |prefix|;
    hide StrToUl, Spells, Stops, AllSpace;
    assert s[0..] == s;
    Located(s, 0, spaces, signed);
    Located(s, a, sign, marked);
    Located(s, b, prefix, rest);
    Located(s, c, digits, tail);
    assert s[..a] == s[0..a];
    FormsAt(s, a, b, c, c + |digits|, n);
  }

  /** The same, the parts marked by positions. */
  lemma FormsAt(s: seq<Byte>, a: nat, b: nat, c: nat, d: nat, n: nat)
    requires a <= b <= c < d <= |s| && AllSpace(s[..a]) && s[a..b] in [[], [43], [45]]
    requires s[b..c] in [[], [48, 120], [48, 88]] && Spells(s[c..d], n) && Stops(s[d..])
    requires b == c && s[c..d] == [48] && d < |s| && s[d] in [120, 88] ==> Stops(s[d..][1..])
    ensures StrToUl(s) == Number(if n >= 0x1_0000_0000 then 0xFFFF_FFFF
                                 else if s[a..b] == [45] && n > 0 then 0x1_0000_0000 - n else n)
  {
    var digits := s[c..d];
    HexSpelled(digits, n);
    StopsExact(s[d..]);
    if d < |s| {
      StopsExact(s[d..][1..]);
    }
    hide HexValue, StrToUl, Spells, Stops, HexDigit;
    assert forall k :: c <= k < d ==> s[k] == digits[k - c];
    assert forall k :: 0 <= k < a ==> s[k] == s[..a][k];
    assert a < b ==> s[a] == s[a..b][0];
    assert b < c ==> s[b] == s[b..c][0] && s[b + 1] == s[b..c][1];
    assert d == c + 1 ==> digits == [s[c]];
    assert d + 1 < |s| ==> s[d..][1..][0] == s[d + 1];
    StrToUlIs(s, a, b, c, d, digits);
  }

  /** Without a digit behind blanks and sign there is none. */
  lemma NoNumberRead(spaces: seq<Byte>, sign: seq<Byte>, tail: seq<Byte>)
    requires AllSpace(spaces) && sign in [[], [43], [45]] && Stops(tail)
    requires sign == [] && tail != [] ==> tail[0] !in [32, 9, 10, 11, 12, 13] && tail[0] !in [43, 45]
    ensures StrToUl(spaces + (sign + tail)).NoNumber?
  {
    StopsExact(tail);
    var signed := sign + tail;
    var s, a, b := spaces + signed, |spaces|, |spaces| + |sign|;
    hide Stops, StrToUl, IsHex;
    assert s[0..] == s;
    Located(s, 0, spaces, signed);
    Located(s, a, sign, tail);
    assert forall k :: 0 <= k < a ==> s[k] == s[0..a][k];
    assert sign != [] ==> s[a] == s[a..b][0];
    assert b < |s| ==> s[b] == s[b..][0];
    NoNumberAt(s, a, b);
  }

  lemma NoNumberAt(s: seq<Byte>, a: nat, b: nat)
    requires a <= |s| && (forall k :: 0 <= k < a ==> IsSpace(s[k])) && (a < |s| ==> !IsSpace(s[a]))
    requires b == (if a < |s| && (s[a] == 45 || s[a] == 43) then a + 1 else a) && (b < |s| ==> !IsHex(s[b]))
    ensures StrToUl(s).NoNumber?
  {
    SpacesPassed(s, 0, a);
    DigitsPassed(s, b, b);
    assert b < |s| ==> s[b] != 48;
    hide IsHex, IsSpace, SpaceRun, HexRun, HexValue;
  }

  lemma Located(s: seq<Byte>, i: nat, y: seq<Byte>, z: seq<Byte>)
    requires i <= |s| && s[i..] == y + z
    ensures i + |y| <= |s| && s[i..i + |y|] == y && s[i + |y|..] == z
  {
    assert s[i..][..|y|] == y && s[i..][|y|..] == z;
  }

  lemma {:induction false} SpacesPassed(s: seq<Byte>, i: nat, a: nat)
    requires i <= a <= |s| && (forall k :: i <= k < a ==> IsSpace(s[k])) && (a < |s| ==> !IsSpace(s[a]))
    ensures SpaceRun(s, i) == a
    decreases a - i
  {
    if i < a {
      SpacesPassed(s, i + 1, a);
    }
  }

  lemma StopsExact(tail: seq<Byte>)
    ensures Stops(tail) <==> tail == [] || !IsHex(tail[0])
  {
    if tail != [] {
      var b := [tail[0]];
      forall n: nat
        ensures Spells(b, n) <==> IsHex(tail[0]) && HexValue(b) == n
      {
        HexSpelled(b, n);
      }
      hide Spells;
      if IsHex(tail[0]) {
        assert b[..0] == [];
        assert HexValue(b) == HexDigit(tail[0]);
        assert Spells(b, HexDigit(tail[0]));
      }
    }
  }

  /** What is read of a text whose number is marked by positions. */
  lemma StrToUlIs(s: seq<Byte>, a: nat, b: nat, c: nat, d: nat, digits: seq<Byte>)
    requires a < |s| && (forall k :: 0 <= k < a ==> IsSpace(s[k])) && !IsSpace(s[a])
    requires b == if s[a] == 45 || s[a] == 43 then a + 1 else a
    requires c == if b + 2 < |s| && s[b] == 48 && (s[b + 1] == 120 || s[b + 1] == 88) && IsHex(s[b + 2]) then b + 2
                  else b
    requires c < d <= |s| && s[c..d] == digits && (d < |s| ==> !IsHex(s[d]))
    requires (forall k :: c <= k < d ==> IsHex(s[k])) && forall k :: 0 <= k < d - c ==> IsHex(digits[k])
    ensures var v := HexValue(digits);
            StrToUl(s) == Number(if v >= TWO32 then TWO32 - 1 else if s[a] == 45 && v > 0 then TWO32 - v else v)
  {
    SpacesPassed(s, 0, a);
    DigitsPassed(s, c, d);
    Negated(HexValue(digits));
    hide HexValue, IsHex, IsSpace, HexRun, SpaceRun;
  }

  lemma Negated(v: int)
    ensures 0 <= v < TWO32 ==> (-v) % TWO32 == if v > 0 then TWO32 - v else 0
  {
  }

  lemma {:induction false} DigitsPassed(s: seq<Byte>, i: nat, d: nat)
    requires i <= d <= |s| && (forall k :: i <= k < d ==> IsHex(s[k])) && (d < |s| ==> !IsHex(s[d]))
    ensures HexRun(s, i) == d
    decreases d - i
  {
    if i < d {
      DigitsPassed(s, i + 1, d);
    }
  }

  // --- a body on which the two ends differ ------------------------------------------------

  const ONE: seq<Byte> := [49]
  const MOST: seq<Byte> := [70, 70, 70, 70, 70, 70]

  /** A chunk of one byte, and one announced of all but one that the limit allows. */
  const LATE: seq<Byte> := [49, 13, 10, 120, 13, 10, 70, 70, 70, 70, 70, 70, 13, 10, 0]

  lemma LateSizes()
    ensures Sized(ONE, 1) && Sized(MOST, MAX - 1)
  {
    assert ONE[..0] == [];
    assert MOST[..5][..4] == MOST[..4] && MOST[..4][..3] == MOST[..3] && MOST[..3][..2] == MOST[..2];
    assert MOST[..2][..1] == MOST[..1] && MOST[..1][..0] == [];
    assert HexValue(MOST[..1]) == 15;
    assert HexValue(MOST[..2]) == 0xFF;
    assert HexValue(MOST[..3]) == 0xFFF;
    assert HexValue(MOST[..4]) == 0xFFFF;
    assert HexValue(MOST[..5]) == 0xFFFFF;
  }

  /**
   * The first request refused, the reader does not see that the second size passes
   * the limit, and reads on behind the place where it would have refused the body.
   */
  lemma LateWitness(grants: nat -> bool, call: nat)
    requires !grants(call)
    ensures Decoded(LATE, 0, []) == Oversized(14)
    ensures Reading(LATE, 0, [], grants, call) == Answer(-2, 15, [])
    ensures Overruns(LATE, 0, [], grants, call)
  {
    LateSizes();
    hide Sized, SizeAt, HexValue;
    assert LATE[0..3] == Line(ONE) && LATE[6..14] == Line(MOST);
    SizeReads(LATE, 0, ONE, 1, 0);
    SizeReads(LATE, 6, MOST, MAX - 1, 0);
    SizeTooBig(LATE, 6, MOST, MAX - 1, 1);
    LateByte();
  }

  lemma LateByte()
    ensures [] + LATE[3..4] == [120]
  {
    assert LATE[3] == 120;
    assert LATE[3..4] == [LATE[3]];
  }

  lemma ChunkStep(data: seq<Byte>, pos: nat, acc: seq<Byte>, piece: seq<Byte>, end: nat)
    requires pos <= |data| && |acc| + |piece| < MAX && piece != []
    requires SizeAt(data, pos, |acc|) == Chunk(end, |piece|) && end + |piece| + 2 <= |data|
    requires data[end..end + |piece|] == piece
    ensures Decoded(data, pos, acc) == Decoded(data, end + |piece| + 2, acc + piece)
  {
    hide SizeAt;
  }

  lemma CutFront(data: seq<Byte>, pos: nat, a: seq<Byte>, b: seq<Byte>)
    requires pos <= |data| && data[pos..] == a + b
    ensures pos + |a| <= |data| && data[pos..pos + |a|] == a && data[pos + |a|..] == b
  {
    assert data[pos..][..|a|] == a && data[pos..][|a|..] == b;
  }

  /** The first piece of what is left is decoded, and the rest is left. */
  lemma PieceStep(data: seq<Byte>, pos: nat, p: Piece, rest: seq<Byte>, acc: seq<Byte>)
    requires pos <= |data| && data[pos..] == Line(p.digits) + (p.data + ([CR, LF] + rest))
    requires p.data != [] && Sized(p.digits, |p.data|) && |acc| + |p.data| < MAX
    ensures var next := pos + |Line(p.digits)| + |p.data| + 2;
            && next <= |data| && data[next..] == rest
            && Decoded(data, pos, acc) == Decoded(data, next, acc + p.data)
  {
    hide SizeAt, Sized, Decoded;
    var line, crlf := Line(p.digits), [CR, LF];
    CutFront(data, pos, line, p.data + (crlf + rest));
    CutFront(data, pos + |line|, p.data, crlf + rest);
    CutFront(data, pos + |line| + |p.data|, crlf, rest);
    SizeReads(data, pos, p.digits, |p.data|, |acc|);
    ChunkStep(data, pos, acc, p.data, pos + |line|);
  }

  lemma LastStep(data: seq<Byte>, pos: nat, zero: seq<Byte>, after: seq<Byte>, acc: seq<Byte>)
    requires pos <= |data| && data[pos..] == Line(zero) + [CR, LF] + after
    requires Sized(zero, 0) && |acc| < MAX
    ensures Decoded(data, pos, acc) == Done(acc, pos + |Line(zero)| + 2)
  {
    hide SizeAt, Sized;
    assert Line(zero) + [CR, LF] + after == Line(zero) + ([CR, LF] + after);
    CutFront(data, pos, Line(zero), [CR, LF] + after);
    SizeReads(data, pos, zero, 0, |acc|);
  }

  /** Decoding undoes encoding, for every way of cutting a body below 16 MB into chunks. */
  lemma {:induction false} DecodeUndoesEncode(data: seq<Byte>, pos: nat, ps: seq<Piece>, zero: seq<Byte>,
      after: seq<Byte>, acc: seq<Byte>)
    requires Sendable(ps) && Sized(zero, 0) && |acc| + |Body(ps)| < MAX
    requires pos <= |data| && data[pos..] == Encoded(ps, zero) + after
    ensures Decoded(data, pos, acc) == Done(acc + Body(ps), pos + |Encoded(ps, zero)|)
    decreases |ps|
  {
    hide Decoded, Sized, Line;
    if ps == [] {
      LastStep(data, pos, zero, after, acc);
      assert acc + [] == acc;
    } else {
      var p, rest := ps[0], Encoded(ps[1..], zero) + after;
      PieceFirst(ps, zero, after);
      hide Encoded;
      PieceStep(data, pos, p, rest, acc);
      DecodeUndoesEncode(data, pos + |Line(p.digits)| + |p.data| + 2, ps[1..], zero, after, acc + p.data);
      assert acc + p.data + Body(ps[1..]) == acc + Body(ps);
    }
  }

  /** And a body of 16 MB or more is refused, however it is cut. */
  lemma {:induction false} LargeRefused(data: seq<Byte>, pos: nat, ps: seq<Piece>, zero: seq<Byte>,
      after: seq<Byte>, acc: seq<Byte>)
    requires Sendable(ps) && |acc| < 0x0100_0000 <= |acc| + |Body(ps)|
    requires pos <= |data| && data[pos..] == Encoded(ps, zero) + after
    ensures Decoded(data, pos, acc).Oversized?
    decreases |ps|
  {
    hide Decoded, Sized, Line, SizeAt;
    var p, rest := ps[0], Encoded(ps[1..], zero) + after;
    PieceFirst(ps, zero, after);
    hide Encoded;
    if |acc| + |p.data| < MAX {
      PieceStep(data, pos, p, rest, acc);
      LargeRefused(data, pos + |Line(p.digits)| + |p.data| + 2, ps[1..], zero, after, acc + p.data);
    } else {
      CutFront(data, pos, Line(p.digits), p.data + ([CR, LF] + rest));
      LineLength(p.digits);
      SizeTooBig(data, pos, p.digits, |p.data|, |acc|);
      DecodedAt(data, pos, acc);
    }
  }

  lemma LineLength(digits: seq<Byte>)
    ensures |Line(digits)| == |digits| + 2
  {
  }

  lemma PieceFirst(ps: seq<Piece>, zero: seq<Byte>, after: seq<Byte>)
    requires ps != []
    ensures var p := ps[0];
            && Encoded(ps, zero) + after == Line(p.digits) + (p.data + ([CR, LF] + (Encoded(ps[1..], zero) + after)))
            && |Encoded(ps, zero)| == |Line(p.digits)| + |p.data| + 2 + |Encoded(ps[1..], zero)|
  {
  }

  /** A chunked body and the same bytes under a Content-Length are read to the same content. */
  lemma ChunkedEqualsLength(ps: seq<Piece>, zero: seq<Byte>, after: seq<Byte>, header: seq<Byte>)
    requires Sendable(ps) && Sized(zero, 0) && |Body(ps)| < MAX
    requires Announced(header) == Number(|Body(ps)|)
    ensures Decoded(Encoded(ps, zero) + after, 0, []).Done?
    ensures Decoded(Encoded(ps, zero) + after, 0, []).body == (Body(ps) + after)[..Announced(header).value]
  {
    var data := Encoded(ps, zero) + after;
    assert data[0..] == data && [] + Body(ps) == Body(ps);
    DecodeUndoesEncode(data, 0, ps, zero, after, []);
  }

  // --- Content-Length -------------------------------------------------------------------------

  predicate IsDecimal(b: Byte) { 48 <= b <= 57 }

  /** The value of a run of decimal digits. */
  function DecimalValue(s: seq<Byte>): int
  {
    if s == [] then 0 else
    var digit: int := s[|s| - 1];
    DecimalValue(s[..|s| - 1]) * 10 + digit - 48
  }

  function BlankRun(s: seq<Byte>, i: nat): (j: nat)
    requires i <= |s|
    ensures i <= j <= |s| && (forall k :: i <= k < j ==> s[k] == 32) && (j < |s| ==> s[j] != 32)
    decreases |s| - i
  {
    if i < |s| && s[i] == 32 then BlankRun(s, i + 1) else i
  }

  function DecimalRun(s: seq<Byte>, i: nat): (j: nat)
    requires i <= |s|
    ensures i <= j <= |s| && (forall k :: i <= k < j ==> IsDecimal(s[k])) && (j < |s| ==> !IsDecimal(s[j]))
    decreases |s| - i
  {
    if i < |s| && IsDecimal(s[i]) then DecimalRun(s, i + 1) else i
  }

  /** The length a header announces: digits with blanks around them, of any number of digits. */
  function Announced(s: seq<Byte>): Parsed
  {
    var a := BlankRun(s, 0);
    var b := DecimalRun(s, a);
    DecimalNonNegative(s[a..b]);
    if a == b || BlankRun(s, b) < |s| then NoNumber else Number(DecimalValue(s[a..b]))
  }

  lemma {:induction false} DecimalNonNegative(s: seq<Byte>)
    requires forall k :: 0 <= k < |s| ==> IsDecimal(s[k])
    ensures DecimalValue(s) >= 0
  {
    if s != [] {
      DecimalNonNegative(s[..|s| - 1]);
    }
  }

  /** The decimal digits of n, with any leading zeros. */
  ghost predicate SpellsDecimal(digits: seq<Byte>, n: nat)
  {
    if digits == [] then n == 0 else
    digits[|digits| - 1] == "0123456789"[n % 10] as int && SpellsDecimal(digits[..|digits| - 1], n / 10)
  }

  lemma DecimalShown(b: Byte, d: nat)
    requires d < 10
    ensures b == "0123456789"[d] as int <==> b - 48 == d
  {
  }

  lemma {:induction false} DecimalSpelled(digits: seq<Byte>, n: nat)
    ensures SpellsDecimal(digits, n) <==>
              (forall k :: 0 <= k < |digits| ==> IsDecimal(digits[k])) && DecimalValue(digits) == n
    decreases |digits|
  {
    if digits != [] {
      var front, b := digits[..|digits| - 1], digits[|digits| - 1];
      DecimalShown(b, n % 10);
      DecimalSpelled(front, n / 10);
      assert digits == front + [b];
      if forall k :: 0 <= k < |digits| ==> IsDecimal(digits[k]) {
        assert forall k :: 0 <= k < |front| ==> front[k] == digits[k];
        DecimalNonNegative(front);
      }
    }
  }

  ghost predicate AllBlank(s: seq<Byte>) { forall i :: 0 <= i < |s| ==> s[i] == 32 }

  /** A header announces n exactly if it is n in decimal digits with blanks around it. */
  lemma LengthExact(s: seq<Byte>, n: nat)
    ensures Announced(s) == Number(n) <==>
              exists a: nat, b: nat :: a < b <= |s| && AllBlank(s[..a]) && SpellsDecimal(s[a..b], n) && AllBlank(s[b..])
  {
    hide DecimalValue, SpellsDecimal;
    if Announced(s) == Number(n) {
      var a := BlankRun(s, 0);
      var b := DecimalRun(s, a);
      DecimalSpelled(s[a..b], n);
      assert AllBlank(s[..a]) && AllBlank(s[b..]);
    }
    forall a: nat, b: nat | a < b <= |s| && AllBlank(s[..a]) && SpellsDecimal(s[a..b], n) && AllBlank(s[b..])
      ensures Announced(s) == Number(n)
    {
      DecimalSpelled(s[a..b], n);
      LengthAt(s, a, b);
    }
  }

  lemma LengthAt(s: seq<Byte>, a: nat, b: nat)
    requires a < b <= |s| && AllBlank(s[..a]) && AllBlank(s[b..])
    requires forall k :: 0 <= k < b - a ==> IsDecimal(s[a..b][k])
    ensures DecimalValue(s[a..b]) >= 0 && Announced(s) == Number(DecimalValue(s[a..b]))
  {
    hide DecimalValue;
    DecimalNonNegative(s[a..b]);
    assert forall k :: a <= k < b ==> s[k] == s[a..b][k - a];
    assert forall k :: 0 <= k < a ==> s[k] == s[..a][k];
    assert forall k :: b <= k < |s| ==> s[k] == s[b..][k - b];
    assert IsDecimal(s[a]) && BlankRun(s, 0) == a;
    DecimalsPassed(s, a, b);
    assert BlankRun(s, b) == |s|;
  }

  lemma {:induction false} DecimalsPassed(s: seq<Byte>, i: nat, b: nat)
    requires i <= b <= |s| && (forall k :: i <= k < b ==> IsDecimal(s[k])) && (b < |s| ==> !IsDecimal(s[b]))
    ensures DecimalRun(s, i) == b
    decreases b - i
  {
    if i < b {
      DecimalsPassed(s, i + 1, b);
    }
  }

  /** The digits' loop: exact below 16 MB, and at least 16 MB from there on. */
  method Accumulate(s: seq<Byte>, a: nat) returns (i: nat, v: int)
    requires a <= |s|
    ensures i == DecimalRun(s, a)
    ensures v >= 0 && (v == DecimalValue(s[a..i]) || MAX <= v <= DecimalValue(s[a..i]))
  {
    i, v := a, 0;
    while i < |s| && IsDecimal(s[i])
      invariant a <= i <= |s| && DecimalRun(s, a) == DecimalRun(s, i)
      invariant v >= 0 && (v == DecimalValue(s[a..i]) || MAX <= v <= DecimalValue(s[a..i]))
    {
      assert s[a..i + 1] == s[a..i] + [s[i]];
      if v < MAX {
        var digit: int := s[i];
        v := v * 10 + (digit - 48);
      }
      i := i + 1;
    }
  }

  /** parse_length(): the accumulation stops at 16 MB, and still the answer is exact. */
  method ParseLength(s: seq<Byte>) returns (rc: int, len: nat)
    ensures match Announced(s)
            case NoNumber => rc == -1
            case Number(n) => if n >= 0x0100_0000 then rc == -3 else rc == 0 && len == n
  {
    var i, v := 0, 0;
    while i < |s| && s[i] == 32
      invariant 0 <= i <= |s| && BlankRun(s, 0) == BlankRun(s, i)
    {
      i := i + 1;
    }
    var a := i;
    i, v := Accumulate(s, a);
    var b := i;
    while i < |s| && s[i] == 32
      invariant b <= i <= |s| && BlankRun(s, b) == BlankRun(s, i)
    {
      i := i + 1;
    }
    if a == b || i < |s| {
      return BAD, 0;
    }
    if v >= MAX {
      return TOO_LARGE, 0;
    }
    return OK, v;
  }

  /** read_length(): one block of the announced size; without it the body is drained. */
  method ReadLength(w: Wire, heap: Heap, header: seq<Byte>) returns (rc: int, content: array?<Byte>, size: nat)
    requires w.pos <= |w.data|
    modifies w`pos, heap
    ensures heap.live == if content != null then old(heap.live) + {content} else old(heap.live)
    ensures rc != 0 ==> content == null
    ensures match Announced(header)
            case NoNumber => rc == -1 && w.pos == old(w.pos)
            case Number(n) =>
              if n >= 0x0100_0000 then rc == -3 && w.pos == old(w.pos) else
              && w.pos == Least(old(w.pos) + n, |w.data|)
              && rc == (if !heap.grants(old(heap.calls)) then -2 else if old(w.pos) + n <= |w.data| then 0 else -1)
              && (rc == 0 ==>
                    && size == n && content != null && fresh(content) && content.Length == n + 1
                    && content[..n] == w.data[old(w.pos)..old(w.pos) + n] && content[n] == 0)
  {
    hide Announced;
    var len;
    rc, len := ParseLength(header);
    if rc != OK {
      return rc, null, 0;
    }
    content := heap.Alloc(len + 1);
    if content == null {
      heap.Report();
      var drained := Drain(w, len);
      return NOMEM, null, 0;
    }
    var read := ReadExact(w, content, 0, len);
    if read < 0 {
      heap.Release(content);
      return BAD, null, 0;
    }
    content[len] := 0;
    return OK, content, len;
  }
}
