// The body loops of datasetPutHandler() and memberPutHandler() in src/dsapi.c: from
// the bytes of the connection, in chunks and short reads, to the records of a data set.
module PutBody {
  import opened Bytes
  import opened Texts
  import opened Wrappers
  import opened Reclines
  import ReqBody

  const SIZE_MAX := 9

  /** How the body becomes records: text lines, or binary pieces the last of which is padded or not. */
  datatype Mode = Text(max: nat) | Binary(piece: nat, pad: bool)

  predicate Usable(mode: Mode)
  {
    if mode.Text? then mode.max > 0 else mode.piece > 0
  }

  // --- binary pieces ------------------------------------------------------------------

  function FullPieces(b: seq<Byte>, n: nat): seq<Record>
    requires n > 0
    decreases |b|
  {
    if |b| < n then [] else [b[..n]] + FullPieces(b[n..], n)
  }

  function LastPiece(b: seq<Byte>, n: nat): (r: Record)
    requires n > 0
    ensures |r| < n && |r| <= |b|
    decreases |b|
  {
    if |b| < n then b else LastPiece(b[n..], n)
  }

  function Padded(r: Record, n: nat): (p: Record)
    requires |r| <= n
    ensures |p| == n && r <= p && forall i :: |r| <= i < n ==> p[i] == 0
  {
    r + seq(n - |r|, i => 0)
  }

  /** The records written while b has been read and more may come. */
  function Written(mode: Mode, b: seq<Byte>): seq<Record>
    requires Usable(mode)
  {
    match mode
    case Text(max) => Emitted(START, b, max)
    case Binary(n, _) => FullPieces(b, n)
  }

  /** What the end of the body adds. */
  function Trailing(mode: Mode, b: seq<Byte>): seq<Record>
    requires Usable(mode)
  {
    match mode
    case Text(max) => var held := FedAll(START, b, max).held; if held == [] then [] else [held]
    case Binary(n, pad) =>
      var r := LastPiece(b, n);
      if r == [] then [] else [if pad then Padded(r, n) else r]
  }

  /** The records of a whole body. */
  function RecordsOf(mode: Mode, b: seq<Byte>): seq<Record>
    requires Usable(mode)
  {
    Written(mode, b) + Trailing(mode, b)
  }

  /** Text records are the lines of the body. */
  lemma TextRecords(b: seq<Byte>, max: nat)
    requires max > 0
    ensures RecordsOf(Text(max), b) == Records(b, max)
  {
    FramingExact(b, max);
  }

  function Joined(rs: seq<Record>): seq<Byte>
  {
    if rs == [] then [] else rs[0] + Joined(rs[1..])
  }

  lemma JoinedCons(r: Record, rs: seq<Record>)
    ensures Joined([r] + rs) == r + Joined(rs)
  {
    assert ([r] + rs)[1..] == rs;
  }

  /** Binary records are consecutive pieces: put together they are the body, but for the padding. */
  lemma {:induction false} BinaryRecords(b: seq<Byte>, n: nat)
    requires n > 0
    ensures Joined(FullPieces(b, n)) + LastPiece(b, n) == b
    ensures forall i :: 0 <= i < |FullPieces(b, n)| ==> |FullPieces(b, n)[i]| == n
    decreases |b|
  {
    PieceSizes(b, n);
    if |b| >= n {
      BinaryRecords(b[n..], n);
      var rest, last := FullPieces(b[n..], n), LastPiece(b[n..], n);
      assert FullPieces(b, n) == [b[..n]] + rest && LastPiece(b, n) == last;
      hide FullPieces, LastPiece;
      JoinedCons(b[..n], rest);
      Reassociated(b[..n], Joined(rest), last);
      hide Joined;
      assert b[..n] + b[n..] == b;
    }
  }

  lemma Reassociated(a: seq<Byte>, b: seq<Byte>, c: seq<Byte>)
    ensures (a + b) + c == a + (b + c)
  {
  }

  lemma {:induction false} PieceSizes(b: seq<Byte>, n: nat)
    requires n > 0
    ensures forall i :: 0 <= i < |FullPieces(b, n)| ==> |FullPieces(b, n)[i]| == n
    decreases |b|
  {
    if |b| >= n {
      PieceSizes(b[n..], n);
    }
  }

  /** The binary records of a body: all of the piece's size but the last, which is padded with zeros if it is to be. */
  lemma PaddedRecords(b: seq<Byte>, n: nat, pad: bool)
    requires n > 0
    ensures var rs, r := RecordsOf(Binary(n, pad), b), |b| % n;
            && |rs| == (if r == 0 then |b| / n else |b| / n + 1)
            && Joined(rs) == b + seq(if pad && r > 0 then n - r else 0, i => 0)
            && forall i :: 0 <= i < |rs| ==> |rs[i]| == if i == |b| / n && !pad then r else n
  {
    BinaryRecords(b, n);
    PieceCount(b, n);
    var full, last := FullPieces(b, n), LastPiece(b, n);
    var tail := Trailing(Binary(n, pad), b);
    hide FullPieces, LastPiece;
    JoinedSum(full, tail);
    if last == [] {
      assert tail == [] && Joined(tail) == [];
      assert b + seq(0, i => 0) == b;
      assert full + tail == full && Joined(full) + [] == b;
    } else {
      var stored := if pad then Padded(last, n) else last;
      var zeros := seq(if pad then n - |last| else 0, i => 0);
      assert tail == [stored] && tail[1..] == [];
      assert Joined(tail) == stored + [] == last + zeros;
      assert Joined(full) + (last + zeros) == (Joined(full) + last) + zeros;
    }
  }

  lemma {:induction false} PieceCount(b: seq<Byte>, n: nat)
    requires n > 0
    ensures |FullPieces(b, n)| == |b| / n && |LastPiece(b, n)| == |b| % n
    decreases |b|
  {
    if |b| >= n {
      PieceCount(b[n..], n);
      OneDivisionMore(|b|, n);
    } else {
      QuotientIs(|b|, n, 0, |b|);
    }
  }

  lemma OneDivisionMore(a: nat, n: nat)
    requires 0 < n <= a
    ensures a / n == (a - n) / n + 1 && a % n == (a - n) % n
  {
    var q, r := (a - n) / n, (a - n) % n;
    assert a - n == n * q + r;
    assert n * (q + 1) == n * q + n;
    QuotientIs(a, n, q + 1, r);
  }

  lemma QuotientIs(a: nat, n: nat, q: nat, r: nat)
    requires r < n && a == n * q + r
    ensures a / n == q && a % n == r
  {
    var d := q - a / n;
    assert n * q - n * (a / n) == n * d;
    Multiple(n, d);
  }

  lemma Multiple(n: nat, d: int)
    ensures (d >= 1 ==> n * d >= n) && (d <= -1 ==> n * d + n <= 0)
  {
  }

  lemma {:induction false} JoinedSum(a: seq<Record>, b: seq<Record>)
    ensures Joined(a + b) == Joined(a) + Joined(b)
    decreases |a|
  {
    if a == [] {
      assert a + b == b;
    } else {
      assert (a + b)[0] == a[0] && (a + b)[1..] == a[1..] + b;
      JoinedSum(a[1..], b);
      assert a[0] + (Joined(a[1..]) + Joined(b)) == (a[0] + Joined(a[1..])) + Joined(b);
    }
  }

  /** Bytes that stay within the piece being filled. */
  lemma {:induction false} MorePieces(b: seq<Byte>, c: seq<Byte>, n: nat)
    requires n > 0 && |LastPiece(b, n)| + |c| <= n
    ensures FullPieces(b + c, n) == FullPieces(b, n)
            + (if |LastPiece(b, n)| + |c| == n then [LastPiece(b, n) + c] else [])
    ensures LastPiece(b + c, n) == if |LastPiece(b, n)| + |c| == n then [] else LastPiece(b, n) + c
    decreases |b|
  {
    if |b| >= n {
      assert (b + c)[..n] == b[..n] && (b + c)[n..] == b[n..] + c;
      MorePieces(b[n..], c, n);
    } else if |b + c| == n {
      assert (b + c)[..n] == b + c && (b + c)[n..] == [];
    }
  }

  lemma {:induction false} PiecesGrow(b: seq<Byte>, c: seq<Byte>, n: nat)
    requires n > 0
    ensures FullPieces(b, n) <= FullPieces(b + c, n)
    decreases |b|
  {
    if |b| >= n {
      assert (b + c)[..n] == b[..n] && (b + c)[n..] == b[n..] + c;
      PiecesGrow(b[n..], c, n);
    }
  }

  /** What is written early is the beginning of what is written in the end. */
  lemma WrittenFirst(mode: Mode, b: seq<Byte>, c: seq<Byte>)
    requires Usable(mode)
    ensures Written(mode, b) <= Written(mode, b + c) <= RecordsOf(mode, b + c)
  {
    match mode {
      case Text(max) => FedInPieces(START, b, c, max);
      case Binary(n, _) => PiecesGrow(b, c, n);
    }
  }

  // --- the data set -------------------------------------------------------------------

  /** The target of a PUT: opening it for writing destroys what it held. */
  class Target {
    const canOpen: bool
    const accepts: nat -> bool
    /** How many records are left when closing cannot write the last block; none if it can. */
    const leaves: Option<nat>
    var isOpen: bool
    var content: seq<Record>

    constructor (canOpen: bool, accepts: nat -> bool, leaves: Option<nat>, content: seq<Record>)
      ensures !isOpen && this.content == content
    {
      this.canOpen, this.accepts, this.leaves, this.isOpen, this.content := canOpen, accepts, leaves, false, content;
    }

    /** Nothing on the way to the records fails. */
    ghost predicate Willing()
    {
      canOpen && leaves.None? && forall k :: accepts(k)
    }

    /** close_write_target(): the only report there is of a last block that does not fit. */
    method Finish() returns (ok: bool)
      modifies this`content
      ensures ok <==> leaves.None?
      ensures ok ==> content == old(content)
      ensures content <= old(content)
    {
      ok := leaves.None?;
      if !ok && leaves.value < |content| {
        content := content[..leaves.value];
      }
    }

    /** open_write_target(): lazily, and only once. */
    method Open() returns (ok: bool)
      modifies this
      ensures Willing() ==> ok
      ensures ok <==> isOpen
      ensures content == if isOpen && !old(isOpen) then [] else old(content)
      ensures isOpen <==> old(isOpen) || canOpen
    {
      if isOpen {
        return true;
      }
      if !canOpen {
        return false;
      }
      isOpen := true;
      content := [];
      return true;
    }

    /** write_record_open(): one record, the target opened for it if need be. */
    method Write(rec: Record) returns (ok: bool)
      modifies this
      ensures Willing() ==> ok
      ensures ok ==> isOpen && content == (if old(isOpen) then old(content) else []) + [rec]
      ensures !ok ==> content == if isOpen && !old(isOpen) then [] else old(content)
      ensures isOpen <==> old(isOpen) || canOpen
    {
      ok := Open();
      if !ok || !accepts(|content|) {
        return false;
      }
      content := content + [rec];
      return true;
    }
  }

  /** The connection: exact reads, and reads that may return less than is asked for. */
  class Socket {
    const data: seq<Byte>
    const shorts: nat -> nat
    var pos: nat

    constructor (data: seq<Byte>, shorts: nat -> nat)
      ensures this.data == data && pos == 0
    {
      this.data, this.shorts, pos := data, shorts, 0;
    }

    method Recv(n: nat) returns (got: seq<Byte>)
      requires pos <= |data|
      modifies this`pos
      ensures pos == (if old(pos) + n <= |data| then old(pos) + n else |data|)
      ensures old(pos) <= pos && got == data[old(pos)..pos]
    {
      var end := if pos + n <= |data| then pos + n else |data|;
      got := data[pos..end];
      pos := end;
    }

    /** receive_raw_some(): at least one byte while there is one, at most n. */
    method RecvSome(n: nat) returns (got: seq<Byte>)
      requires pos <= |data| && n > 0
      modifies this`pos
      ensures old(pos) <= pos <= |data| && pos <= old(pos) + n && got == data[old(pos)..pos]
      ensures got == [] <==> old(pos) == |data|
    {
      var k := if shorts(pos) == 0 then 1 else if shorts(pos) > n then n else shorts(pos);
      got := Recv(k);
    }
  }

  // --- the transport ----------------------------------------------------------------------

  /** The size line as these handlers read it: at most nine bytes, a CR among them or not. */
  function SizeLine(data: seq<Byte>, pos: nat, i: nat): (h: ReqBody.Header)
    requires pos + i <= |data| && i <= SIZE_MAX
    ensures pos + i <= h.end <= |data|
    ensures h.Header? ==> h.end > pos
    decreases SIZE_MAX - i
  {
    if i == SIZE_MAX then ReqBody.Header(data[pos..pos + i], pos + i)
    else if pos + i == |data| then ReqBody.NoHeader(pos + i)
    else if data[pos + i] == CR then
      ReqBody.Header(data[pos..pos + i], if pos + i + 2 <= |data| then pos + i + 2 else |data|)
    else SizeLine(data, pos, i + 1)
  }

  /** A line without a number counts as zero. */
  function SizeOf(line: seq<Byte>): nat
  {
    var p := ReqBody.StrToUl(line);
    if p.Number? then p.value else 0
  }

  /** The body the client sent: whole, without the CRLF behind the last chunk, or broken off. */
  datatype Sent = Whole(body: seq<Byte>) | Unended(body: seq<Byte>) | Broken(body: seq<Byte>)

  function Chunked(data: seq<Byte>, pos: nat, acc: seq<Byte>): (s: Sent)
    requires pos <= |data|
    ensures acc <= s.body
    decreases |data| - pos
  {
    var h := SizeLine(data, pos, 0);
    if h.NoHeader? then Broken(acc) else
    var n := SizeOf(h.line);
    var end := Least(h.end + n, |data|);
    if n == 0 then
      if h.end + 2 <= |data| && data[h.end..h.end + 2] == [CR, LF] then Whole(acc) else Unended(acc)
    else if h.end + n + 2 > |data| then
      Broken(acc + data[h.end..end])
    else
      Chunked(data, h.end + n + 2, acc + data[h.end..end])
  }

  function Counted(data: seq<Byte>, pos: nat, n: nat): Sent
    requires pos <= |data|
  {
    if pos + n <= |data| then Whole(data[pos..pos + n]) else Broken(data[pos..])
  }

  /** A counted body is whole as soon as its bytes are there. */
  lemma CountedIsBody(body: seq<Byte>, n: nat, after: seq<Byte>)
    ensures Counted(body + after, 0, |body|) == Whole(body)
    ensures n > |body| ==> Counted(body, 0, n) == Broken(body)
  {
    assert (body + after)[0..|body|] == body && body[0..] == body;
  }

  /** Nine bytes without a CR are a size line of their own, and one that shows no number ends the body. */
  lemma LongSizeLine(line: seq<Byte>, after: seq<Byte>)
    requires |line| == 9 && 13 !in line
    ensures SizeLine(line + after, 0, 0) == ReqBody.Header(line, 9)
    ensures ReqBody.StrToUl(line).NoNumber? ==>
              Chunked(line + after, 0, []) == if |after| >= 2 && after[..2] == [13, 10] then Whole([]) else Unended([])
  {
    var data := line + after;
    assert forall k :: 0 <= k < 9 ==> data[k] == line[k];
    PassesBytes(data, 9);
    assert data[0..9] == line;
    hide SizeLine;
    assert |after| >= 2 ==> data[9..9 + 2] == after[..2];
  }

  lemma {:induction false} PassesBytes(data: seq<Byte>, i: nat)
    requires i <= 9 <= |data| && forall k :: 0 <= k < 9 ==> data[k] != 13
    ensures SizeLine(data, 0, 9 - i) == SizeLine(data, 0, 9)
  {
    if i > 0 {
      PassesBytes(data, i - 1);
    }
  }

  // --- the upload -------------------------------------------------------------------------

  /** Nothing was written and the target is as it was, or it is open and holds rs. */
  ghost predicate Progress(t: Target, before: seq<Record>, rs: seq<Record>)
    reads t
  {
    if rs == [] then !t.isOpen && t.content == before else t.isOpen && t.canOpen && t.content == rs
  }

  /** After a failure: the target is untouched, or it holds the beginning of rs, which has a record. */
  ghost predicate Safe(t: Target, before: seq<Record>, rs: seq<Record>)
    reads t
  {
    (!t.isOpen && t.content == before) || (t.isOpen && t.canOpen && t.content <= rs && rs != [])
  }

  /** The body was read and its records handed over, but closing lost the end of them. */
  ghost predicate CutShort(t: Target, rs: seq<Record>)
    reads t
  {
    t.isOpen && t.canOpen && t.content <= rs && t.leaves.Some?
  }

  /** What a failed request leaves; whole: the body had been read to its end. */
  ghost predicate Failed(t: Target, before: seq<Record>, rs: seq<Record>, whole: bool)
    reads t
  {
    Safe(t, before, rs) || (whole && CutShort(t, rs))
  }

  /** What a body that breaks off behind b leaves: only the records completed by then can have touched the target. */
  ghost predicate BrokenOff(t: Target, before: seq<Record>, mode: Mode, b: seq<Byte>)
    requires Usable(mode)
    reads t
  {
    Safe(t, before, Written(mode, b)) && (t.Willing() ==> Progress(t, before, Written(mode, b)))
  }

  /** record_buffer, record_pos and the RECLINE of one request. */
  class Upload {
    const mode: Mode
    const buf: array<Byte>
    const rl: Recline
    const target: Target
    ghost const before: seq<Record>
    var recordPos: nat
    ghost var fed: seq<Byte>

    ghost predicate Valid()
      reads this, buf, rl
    {
      && Usable(mode) && rl.buf == buf && rl.Valid()
      && match mode
         case Text(max) => rl.contentMax == max && rl.View() == FedAll(START, fed, max)
         case Binary(n, _) => buf.Length == n && recordPos < n && buf[..recordPos] == LastPiece(fed, n)
    }

    ghost predicate Ready()
      reads this, buf, rl, target
    {
      Valid() && Progress(target, before, Written(mode, fed))
    }

    constructor (mode: Mode, buf: array<Byte>, contentMax: nat, target: Target)
      requires Usable(mode) && 0 < contentMax <= buf.Length && !target.isOpen
      requires if mode.Text? then mode.max == contentMax else mode.piece == buf.Length
      ensures Ready() && fed == [] && before == target.content && this.target == target && this.mode == mode
      ensures fresh(rl) && this.buf == buf
    {
      this.mode, this.buf, this.target := mode, buf, target;
      this.before, recordPos, fed := target.content, 0, [];
      rl := new Recline(buf, contentMax);
    }

    /** One more record. */
    method Emit(rec: Record, ghost rs: seq<Record>) returns (ok: bool)
      requires Progress(target, before, rs)
      modifies target
      ensures ok ==> Progress(target, before, rs + [rec])
      ensures !ok ==> Safe(target, before, rs + [rec])
      ensures target.Willing() ==> ok
    {
      assert [] + [rec] == [rec];
      ok := target.Write(rec);
    }

    /** The text loop's body. */
    method FeedByte(c: Byte) returns (ok: bool)
      requires Ready() && mode.Text?
      modifies this`fed, buf, rl, target
      ensures fed == old(fed) + [c]
      ensures ok ==> Ready()
      ensures !ok ==> Safe(target, before, Written(mode, fed))
      ensures target.Willing() ==> ok
    {
      ghost var was := fed;
      FedInPieces(START, fed, [c], mode.max);
      OneByte(FedAll(START, fed, mode.max), c, mode.max);
      var rec := rl.Put(c);
      fed := fed + [c];
      if rec.Some? {
        ok := Emit(rec.value, Written(mode, was));
      } else {
        assert Written(mode, fed) == Written(mode, was);
        ok := true;
      }
    }

    /** Bytes that fit the piece being filled, and a record when it is full. */
    method Place(got: seq<Byte>) returns (ok: bool)
      requires Ready() && mode.Binary? && recordPos + |got| <= mode.piece
      modifies this`fed, this`recordPos, buf, target
      ensures fed == old(fed) + got
      ensures ok ==> Ready()
      ensures !ok ==> Safe(target, before, Written(mode, fed))
      ensures target.Willing() ==> ok
    {
      hide FullPieces, LastPiece, FedAll, Emitted;
      ghost var was := fed;
      MorePieces(fed, got, mode.piece);
      Put(buf, recordPos, got);
      fed := fed + got;
      recordPos := recordPos + |got|;
      ok := true;
      if recordPos >= mode.piece {
        ok := Emit(buf[..recordPos], Written(mode, was));
        recordPos := 0;
      } else {
        assert Written(mode, fed) == Written(mode, was);
      }
    }

    /** The binary loop's body: one read of what the piece has room for. */
    method Gather(sock: Socket, want: nat) returns (ok: bool, n: nat)
      requires Ready() && mode.Binary? && want > 0 && sock.pos <= |sock.data|
      modifies this`fed, this`recordPos, buf, target, sock`pos
      ensures n <= want && sock.pos == old(sock.pos) + n <= |sock.data|
      ensures fed == old(fed) + sock.data[old(sock.pos)..sock.pos]
      ensures ok ==> Ready() && old(sock.pos) < sock.pos
      ensures !ok ==> Safe(target, before, Written(mode, fed))
      ensures target.Willing() && !ok ==> Ready() && sock.pos == |sock.data|
      ensures target.Willing() && old(sock.pos) < |sock.data| ==> ok
    {
      hide FullPieces, LastPiece, FedAll, Emitted, Written;
      var space := mode.piece - recordPos;
      var got := sock.RecvSome(if want > space then space else want);
      n := |got|;
      if n == 0 {
        return false, 0;
      }
      ok := Place(got);
    }

    /** count bytes of the body. */
    method Take(sock: Socket, count: nat) returns (ok: bool)
      requires Ready() && sock.pos <= |sock.data|
      modifies this, buf, rl, target, sock`pos
      ensures old(sock.pos) <= sock.pos <= |sock.data| && sock.pos <= old(sock.pos) + count
      ensures fed == old(fed) + sock.data[old(sock.pos)..sock.pos]
      ensures ok ==> Ready() && sock.pos == old(sock.pos) + count
      ensures !ok ==> Safe(target, before, Written(mode, fed))
      ensures target.Willing() && !ok ==> Ready() && sock.pos == |sock.data|
      ensures target.Willing() && old(sock.pos) + count <= |sock.data| ==> ok
    {
      hide Written, Usable, FedAll, Emitted, LastPiece, FullPieces;
      ghost var p0, was, data := sock.pos, fed, sock.data;
      var left := count;
      while left > 0
        invariant p0 <= sock.pos <= |data| && sock.pos + left == p0 + count
        invariant fed == was + data[p0..sock.pos]
        invariant Ready()
      {
        ghost var p1 := sock.pos;
        if mode.Binary? {
          var n;
          ok, n := Gather(sock, left);
          left := left - n;
        } else {
          var c := sock.Recv(1);
          if |c| != 1 {
            return false;
          }
          assert [c[0]] == c;
          ok := FeedByte(c[0]);
          left := left - 1;
        }
        assert data[p0..sock.pos] == data[p0..p1] + data[p1..sock.pos];
        if !ok {
          return;
        }
      }
      return true;
    }

    /** The end of the body: what is pending becomes the last record. */
    method Flush() returns (ok: bool)
      requires Ready()
      modifies this`recordPos, buf, rl, target
      ensures ok ==> Progress(target, before, RecordsOf(mode, fed))
      ensures !ok ==> Safe(target, before, RecordsOf(mode, fed))
      ensures rl.truncated == old(rl.truncated)
      ensures target.Willing() ==> ok
    {
      ok := true;
      assert Written(mode, fed) + [] == Written(mode, fed);
      match mode
      case Binary(n, pad) =>
        if recordPos > 0 {
          if pad {
            Clear(buf, recordPos);
            recordPos := n;
            assert buf[..n] == buf[..];
          }
          ok := Emit(buf[..recordPos], Written(mode, fed));
        }
      case Text(_) =>
        var rec := rl.Flush();
        if rec.Some? {
          ok := Emit(rec.value, Written(mode, fed));
        }
    }

    /** What both handlers do once the body has been read. */
    method Close() returns (ok: bool)
      requires Usable(mode) && Progress(target, before, RecordsOf(mode, fed))
      modifies target
      ensures ok ==> target.isOpen && target.canOpen && target.content == RecordsOf(mode, fed) && target.leaves.None?
      ensures !ok ==> (!target.isOpen && target.content == before) || CutShort(target, RecordsOf(mode, fed))
      ensures target.Willing() ==> ok
    {
      ok := target.Open();
      if ok {
        ok := target.Finish();
      }
    }

    /**
     * A chunked PUT. It succeeds only on a body read whole, whose records are then
     * what the target holds. If it fails, the target is untouched or holds the
     * beginning of those records. If it cannot be opened, or the client breaks off
     * before a record is complete, it is untouched.
     */
    method PutChunked(sock: Socket) returns (ok: bool)
      requires Ready() && fed == [] && sock.pos <= |sock.data|
      modifies this, buf, rl, target, sock`pos
      ensures var s := Chunked(sock.data, old(sock.pos), []);
              && Usable(mode)
              && (ok ==> s.Whole? && target.isOpen && target.content == RecordsOf(mode, s.body))
              && (ok && mode.Text? ==>
                    target.content == Records(s.body, mode.max) && (rl.truncated <==> Overlong(s.body, mode.max)))
              && (!ok ==> Failed(target, before, RecordsOf(mode, s.body), s.Whole?))
              && (s.Broken? ==> !ok && BrokenOff(target, before, mode, s.body))
              && (!target.canOpen || (s.Broken? && Written(mode, s.body) == []) ==>
                    !ok && !target.isOpen && target.content == before)
              && (target.Willing() && s.Whole? ==> ok)
    {
      hide Written, RecordsOf, SizeLine, SizeOf, Chunked, Progress, FedAll, Emitted, LastPiece, FullPieces,
           Overlong, Records;
      ghost var data := sock.data;
      ghost var s := Chunked(data, sock.pos, []);
      while true
        invariant sock.pos <= |data| && Ready() && fed <= s.body && s == Chunked(data, sock.pos, fed)
        decreases |data| - sock.pos
      {
        ghost var acc := fed;
        ChunkedAt(data, sock.pos, acc);
        Untroubled(target, before, mode, acc, s.body);
        var h := ReadSizeLine(sock);
        if h.NoHeader? {
          return false;
        }
        var n := SizeOf(h.line);
        if n == 0 {
          if mode.Text? {
            FramingExact(fed, mode.max);
            TextRecords(fed, mode.max);
          }
          ok := FinishChunked(sock);
          return;
        }
        ok := TakeChunk(sock, n, s);
        if !ok {
          return;
        }
      }
    }

    /** The data of one chunk and the two bytes behind it. */
    method TakeChunk(sock: Socket, n: nat, ghost s: Sent) returns (ok: bool)
      requires Ready() && n > 0 && sock.pos <= |sock.data|
      requires var acc := fed + sock.data[sock.pos..][..Least(n, |sock.data| - sock.pos)];
               && acc <= s.body
               && (if sock.pos + n + 2 > |sock.data| then s == Broken(acc)
                   else s == Chunked(sock.data, sock.pos + n + 2, acc))
      modifies this, buf, rl, target, sock`pos
      ensures ok ==> Ready() && old(sock.pos) < sock.pos <= |sock.data|
      ensures ok ==> fed <= s.body && s == Chunked(sock.data, sock.pos, fed)
      ensures !ok ==> Safe(target, before, RecordsOf(mode, s.body))
      ensures !ok && s.Broken? ==> BrokenOff(target, before, mode, s.body)
      ensures target.Willing() && !s.Broken? ==> ok
    {
      hide Written, RecordsOf, Chunked, FedAll, Emitted, LastPiece, FullPieces, Safe;
      ghost var p0, data := sock.pos, sock.data;
      ok := Take(sock, n);
      assert data[p0..sock.pos] == data[p0..][..sock.pos - p0];
      if !ok {
        PartTaken(data[p0..], sock.pos - p0, Least(n, |data| - p0));
        Troubled(target, before, mode, fed, s.body);
        return;
      }
      Untroubled(target, before, mode, fed, s.body);
      var crlf := sock.Recv(2);
      return |crlf| == 2;
    }

    /** Behind the last chunk: the pending record, the CRLF, and an empty target if there was no record. */
    method FinishChunked(sock: Socket) returns (ok: bool)
      requires Ready() && sock.pos <= |sock.data|
      modifies this, buf, rl, target, sock`pos
      ensures fed == old(fed) && rl.truncated == old(rl.truncated)
      ensures var whole := old(sock.pos) + 2 <= |sock.data| && sock.data[old(sock.pos)..old(sock.pos) + 2] == [CR, LF];
              && (ok ==> whole && target.isOpen && target.canOpen && target.content == RecordsOf(mode, fed))
              && (target.Willing() && whole ==> ok)
              && (!ok ==> Failed(target, before, RecordsOf(mode, fed), whole))
    {
      hide RecordsOf;
      ok := Flush();
      if !ok {
        return;
      }
      var crlf := sock.Recv(2);
      if crlf != [CR, LF] {
        return false;
      }
      ok := Close();
    }

    /** A PUT of n bytes under a Content-Length, with the same outcome. */
    method PutLength(sock: Socket, n: nat) returns (ok: bool)
      requires Ready() && fed == [] && sock.pos <= |sock.data|
      modifies this, buf, rl, target, sock`pos
      ensures var s := Counted(sock.data, old(sock.pos), n);
              && (ok ==> s.Whole? && target.isOpen && target.content == RecordsOf(mode, s.body))
              && (ok && mode.Text? ==>
                    target.content == Records(s.body, mode.max) && (rl.truncated <==> Overlong(s.body, mode.max)))
              && (!ok ==> Failed(target, before, RecordsOf(mode, s.body), s.Whole?))
              && (s.Broken? ==> !ok && BrokenOff(target, before, mode, s.body))
              && (!target.canOpen || (s.Broken? && Written(mode, s.body) == []) ==>
                    !ok && !target.isOpen && target.content == before)
              && (target.Willing() && s.Whole? ==> ok)
      ensures sock.pos <= old(sock.pos) + n
    {
      hide Written, RecordsOf, Progress, FedAll, Emitted, LastPiece, FullPieces;
      ghost var s := Counted(sock.data, sock.pos, n);
      ok := Take(sock, n);
      if !ok {
        PartTaken(sock.data[old(sock.pos)..], sock.pos - old(sock.pos), |s.body|);
        assert fed == sock.data[old(sock.pos)..][..sock.pos - old(sock.pos)];
        Troubled(target, before, mode, fed, s.body);
        assert target.Willing() ==> fed == s.body;
        return;
      }
      assert [] + s.body == s.body && fed == s.body;
      if mode.Text? {
        FramingExact(fed, mode.max);
        TextRecords(fed, mode.max);
      }
      ok := Flush();
      if ok {
        ok := Close();
      }
    }
  }

  lemma PartTaken(s: seq<Byte>, k: nat, n: nat)
    requires k <= n <= |s|
    ensures s[..k] <= s[..n]
  {
  }

  /** A failure between records is harmless to the target. */
  lemma Untroubled(t: Target, before: seq<Record>, mode: Mode, b: seq<Byte>, body: seq<Byte>)
    requires Usable(mode) && b <= body && Progress(t, before, Written(mode, b))
    ensures Safe(t, before, Written(mode, body)) && Safe(t, before, RecordsOf(mode, body))
  {
    hide Written, RecordsOf;
    assert b + body[|b|..] == body;
    WrittenFirst(mode, b, body[|b|..]);
  }

  lemma Troubled(t: Target, before: seq<Record>, mode: Mode, b: seq<Byte>, body: seq<Byte>)
    requires Usable(mode) && b <= body && Safe(t, before, Written(mode, b))
    ensures Safe(t, before, Written(mode, body)) && Safe(t, before, RecordsOf(mode, body))
  {
    hide Written, RecordsOf;
    assert b + body[|b|..] == body;
    WrittenFirst(mode, b, body[|b|..]);
  }

  /** What one byte adds. */
  lemma OneByte(f: Framer, c: Byte, max: nat)
    ensures var (g, r) := Fed(f, c, max);
            FedAll(f, [c], max) == g && Emitted(f, [c], max) == if r.Some? then [r.value] else []
  {
    assert [c][1..] == [];
    var (g, r) := Fed(f, c, max);
    assert FedAll(g, [], max) == g && Emitted(g, [], max) == [];
  }

  // --- the transport read -------------------------------------------------------------------

  method Clear(buf: array<Byte>, from: nat)
    requires from <= buf.Length
    modifies buf
    ensures buf[..] == Padded(old(buf[..from]), buf.Length)
  {
    for i := from to buf.Length
      invariant buf[..from] == old(buf[..from]) && forall k :: from <= k < i ==> buf[k] == 0
    {
      buf[i] := 0;
    }
  }

  /** The size line, byte by byte up to a CR or the ninth byte. */
  method ReadSizeLine(sock: Socket) returns (h: ReqBody.Header)
    requires sock.pos <= |sock.data|
    modifies sock`pos
    ensures h == SizeLine(sock.data, old(sock.pos), 0) && sock.pos == h.end
  {
    hide SizeLine;
    ghost var p0, data := sock.pos, sock.data;
    var i := 0;
    var line := [];
    while i < SIZE_MAX
      invariant 0 <= i <= SIZE_MAX && sock.pos == p0 + i <= |data| && line == data[p0..p0 + i]
      invariant SizeLine(data, p0, 0) == SizeLine(data, p0, i)
    {
      SizeLineAt(data, p0, i);
      var c := sock.Recv(1);
      if |c| != 1 {
        return ReqBody.NoHeader(sock.pos);
      }
      if c[0] == CR {
        var lf := sock.Recv(1);
        return ReqBody.Header(line, sock.pos);
      }
      assert data[p0..p0 + i] + c == data[p0..p0 + i + 1];
      line := line + c;
      i := i + 1;
    }
    SizeLineAt(data, p0, i);
    return ReqBody.Header(line, sock.pos);
  }

  lemma SizeLineAt(data: seq<Byte>, pos: nat, i: nat)
    requires pos + i <= |data| && i <= SIZE_MAX
    ensures SizeLine(data, pos, i) ==
      if i == SIZE_MAX then ReqBody.Header(data[pos..pos + i], pos + i)
      else if pos + i == |data| then ReqBody.NoHeader(pos + i)
      else if data[pos + i] == CR then ReqBody.Header(data[pos..pos + i], Least(pos + i + 2, |data|))
      else SizeLine(data, pos, i + 1)
  {
  }

  /** One chunk of the transport. */
  lemma ChunkedAt(data: seq<Byte>, pos: nat, acc: seq<Byte>)
    requires pos <= |data|
    ensures var s, h := Chunked(data, pos, acc), SizeLine(data, pos, 0);
            if h.NoHeader? then s == Broken(acc) else
            var n := SizeOf(h.line);
            if n == 0 then
              s == if h.end + 2 <= |data| && data[h.end..h.end + 2] == [CR, LF] then Whole(acc) else Unended(acc)
            else
              var piece := data[h.end..][..Least(n, |data| - h.end)];
              && acc + piece <= s.body
              && (if h.end + n + 2 > |data| then s == Broken(acc + piece)
                  else s == Chunked(data, h.end + n + 2, acc + piece))
  {
    hide SizeLine, SizeOf;
    var h := SizeLine(data, pos, 0);
    if h.Header? {
      var n := SizeOf(h.line);
      var end := Least(h.end + n, |data|);
      assert data[h.end..end] == data[h.end..][..Least(n, |data| - h.end)];
    }
  }

  // --- chunk boundaries leave no trace -----------------------------------------------------

  lemma {:induction false} SizeLineReads(data: seq<Byte>, pos: nat, digits: seq<Byte>, i: nat)
    requires i <= |digits| <= 8 && pos + |digits| + 2 <= |data|
    requires forall k :: 0 <= k < |digits| ==> ReqBody.IsHex(digits[k])
    requires data[pos..pos + |digits| + 2] == ReqBody.Line(digits)
    ensures SizeLine(data, pos, i) == ReqBody.Header(digits, pos + |digits| + 2)
    decreases |digits| - i
  {
    var line := data[pos..pos + |digits| + 2];
    assert data[pos + i] == line[i] == ReqBody.Line(digits)[i];
    if i < |digits| {
      assert ReqBody.Line(digits)[i] == digits[i];
      SizeLineReads(data, pos, digits, i + 1);
    } else {
      assert data[pos..pos + i] == line[..i] == digits;
    }
  }

  /** A well-formed size line is read as the number it is. */
  lemma SizeRead(data: seq<Byte>, pos: nat, digits: seq<Byte>, n: nat)
    requires ReqBody.Sized(digits, n) && pos + |digits| + 2 <= |data|
    requires data[pos..pos + |digits| + 2] == ReqBody.Line(digits)
    ensures SizeLine(data, pos, 0) == ReqBody.Header(digits, pos + |digits| + 2) && SizeOf(digits) == n
  {
    hide SizeLine, ReqBody.StrToUl;
    SizeLineReads(data, pos, digits, 0);
    ReqBody.StrToUlReads(digits, n);
  }

  /** The parts of a chunk. */
  lemma PieceCut(data: seq<Byte>, pos: nat, line: seq<Byte>, piece: seq<Byte>, rest: seq<Byte>)
    requires pos <= |data| && data[pos..] == line + (piece + ([CR, LF] + rest))
    ensures var at := pos + |line|;
            && at + |piece| + 2 <= |data|
            && data[pos..at] == line && data[at..][..|piece|] == piece && data[at + |piece| + 2..] == rest
  {
    var crlf := [CR, LF];
    ReqBody.CutFront(data, pos, line, piece + (crlf + rest));
    ReqBody.CutFront(data, pos + |line|, piece, crlf + rest);
    ReqBody.CutFront(data, pos + |line| + |piece|, crlf, rest);
  }

  /** The chunk at pos, and what is left behind it. */
  lemma PieceRead(data: seq<Byte>, pos: nat, p: ReqBody.Piece, rest: seq<Byte>, acc: seq<Byte>)
    requires pos <= |data| && data[pos..] == ReqBody.Line(p.digits) + (p.data + ([CR, LF] + rest))
    requires ReqBody.Sized(p.digits, |p.data|) && p.data != []
    ensures var next := pos + |ReqBody.Line(p.digits)| + |p.data| + 2;
            && next <= |data| && data[next..] == rest
            && Chunked(data, pos, acc) == Chunked(data, next, acc + p.data)
  {
    hide Chunked, SizeLine, SizeOf, ReqBody.Sized;
    PieceCut(data, pos, ReqBody.Line(p.digits), p.data, rest);
    SizeRead(data, pos, p.digits, |p.data|);
    ChunkedAt(data, pos, acc);
  }

  lemma LastRead(data: seq<Byte>, pos: nat, zero: seq<Byte>, after: seq<Byte>, acc: seq<Byte>)
    requires pos <= |data| && data[pos..] == ReqBody.Line(zero) + ([CR, LF] + after)
    requires ReqBody.Sized(zero, 0)
    ensures Chunked(data, pos, acc) == Whole(acc)
  {
    hide Chunked, SizeLine, SizeOf, ReqBody.Sized;
    ReqBody.CutFront(data, pos, ReqBody.Line(zero), [CR, LF] + after);
    ReqBody.CutFront(data, pos + |ReqBody.Line(zero)|, [CR, LF], after);
    SizeRead(data, pos, zero, 0);
    ChunkedAt(data, pos, acc);
  }

  /**
   * However a body is cut into chunks, the handlers read it whole: with PutChunked
   * and PutLength, the records depend only on the body.
   */
  lemma {:induction false} ChunkedIsBody(data: seq<Byte>, pos: nat, ps: seq<ReqBody.Piece>, zero: seq<Byte>,
      after: seq<Byte>, acc: seq<Byte>)
    requires ReqBody.Sendable(ps) && ReqBody.Sized(zero, 0)
    requires pos <= |data| && data[pos..] == ReqBody.Encoded(ps, zero) + after
    ensures Chunked(data, pos, acc) == Whole(acc + ReqBody.Body(ps))
    decreases |ps|
  {
    hide Chunked, ReqBody.Sized, ReqBody.Line;
    if ps == [] {
      assert ReqBody.Line(zero) + [CR, LF] + after == ReqBody.Line(zero) + ([CR, LF] + after);
      LastRead(data, pos, zero, after, acc);
      assert acc + [] == acc;
    } else {
      var p, rest := ps[0], ReqBody.Encoded(ps[1..], zero) + after;
      ReqBody.PieceFirst(ps, zero, after);
      hide ReqBody.Encoded;
      PieceRead(data, pos, p, rest, acc);
      ChunkedIsBody(data, pos + |ReqBody.Line(p.digits)| + |p.data| + 2, ps[1..], zero, after, acc + p.data);
      assert acc + p.data + ReqBody.Body(ps[1..]) == acc + ReqBody.Body(ps);
    }
  }
}
