// The version stamp of a resource (src/etag.c) and the sum over a member's text
// (src/textsum.c): what a change of one byte does to them.
module Checksums {
  import opened Bytes

  const POLY: bv32 := 0xEDB88320
  const ONES: bv32 := 0xFFFF_FFFF
  const TWO32 := 0x1_0000_0000

  // --- the CRC step ----------------------------------------------------------------------

  function Shifted(c: bv32): bv32 { if c & 1 != 0 then (c >> 1) ^ POLY else c >> 1 }

  /** A step can be undone: the top bit tells whether the polynomial was folded in. */
  lemma ShiftedInjective(c: bv32, d: bv32)
    requires Shifted(c) == Shifted(d)
    ensures c == d
  {
    assert Shifted(c) & 0x8000_0000 != 0 <==> c & 1 != 0;
    assert Shifted(d) & 0x8000_0000 != 0 <==> d & 1 != 0;
  }

  function Shifts(c: bv32, k: nat): bv32
    decreases k
  {
    if k == 0 then c else Shifts(Shifted(c), k - 1)
  }

  lemma {:induction false} ShiftsInjective(c: bv32, d: bv32, k: nat)
    requires Shifts(c, k) == Shifts(d, k)
    ensures c == d
    decreases k
  {
    hide Shifted;
    if k > 0 {
      ShiftsInjective(Shifted(c), Shifted(d), k - 1);
      ShiftedInjective(c, d);
    }
  }

  function Xor(a: bv32, b: bv32): bv32 { a ^ b }

  function Wide(b: bv8): bv32 { b as bv32 }

  function Step(crc: bv32, b: bv8): bv32 { Shifts(Xor(crc, Wide(b)), 8) }

  /** etag_byte() */
  method FoldByte(crc: bv32, b: bv8) returns (r: bv32)
    ensures r == Step(crc, b)
  {
    r := crc ^ (b as bv32);
    for k := 0 to 8
      invariant Shifts(r, 8 - k) == Step(crc, b)
    {
      r := if r & 1 != 0 then (r >> 1) ^ POLY else r >> 1;
    }
  }

  lemma XorTwice(a: bv32, c: bv32)
    ensures Xor(Xor(a, c), c) == a && Xor(a, c) == Xor(c, a)
  {
  }

  lemma XorCancels(a: bv32, b: bv32, c: bv32)
    requires Xor(a, c) == Xor(b, c)
    ensures a == b
  {
    hide Xor;
    XorTwice(a, c);
    XorTwice(b, c);
  }

  lemma Widened(a: bv8, b: bv8)
    requires Wide(a) == Wide(b)
    ensures a == b
  {
  }

  /** Injective in the state for every byte, and in the byte for every state. */
  lemma StepInjective(c: bv32, d: bv32, a: bv8, b: bv8)
    ensures Step(c, a) == Step(d, a) ==> c == d
    ensures Step(c, a) == Step(c, b) ==> a == b
  {
    hide Shifts, Xor, Wide;
    if Step(c, a) == Step(d, a) {
      ShiftsInjective(Xor(c, Wide(a)), Xor(d, Wide(a)), 8);
      XorCancels(c, d, Wide(a));
    }
    if Step(c, a) == Step(c, b) {
      ShiftsInjective(Xor(c, Wide(a)), Xor(c, Wide(b)), 8);
      SameByte(c, a, b);
    }
  }

  lemma SameByte(c: bv32, a: bv8, b: bv8)
    requires Xor(c, Wide(a)) == Xor(c, Wide(b))
    ensures a == b
  {
    hide Xor, Wide;
    XorTwice(Wide(a), c);
    XorTwice(Wide(b), c);
    Widened(a, b);
  }

  // --- one look-up a byte ----------------------------------------------------------------

  function Half(c: bv32): bv32 { c >> 1 }

  function Turned(c: bv32): bv32 { c ^ 0xEDB88320 }

  predicate Odd(c: bv32) { c & 1 != 0 }

  lemma ShiftedParts(c: bv32)
    ensures Shifted(c) == if Odd(c) then Turned(Half(c)) else Half(c)
  {
  }

  lemma HalfSum(c: bv32, d: bv32)
    ensures Half(Xor(c, d)) == Xor(Half(c), Half(d))
  {
    assert (c ^ d) >> 1 == (c >> 1) ^ (d >> 1);
  }

  lemma OddSum(c: bv32, d: bv32)
    ensures Odd(Xor(c, d)) <==> Odd(c) != Odd(d)
  {
    assert (c ^ d) & 1 == (c & 1) ^ (d & 1);
  }

  lemma TurnedSum(c: bv32, d: bv32)
    ensures Xor(Turned(c), d) == Turned(Xor(c, d))
  {
    assert (c ^ 0xEDB88320) ^ d == (c ^ d) ^ 0xEDB88320;
  }

  lemma TurnedBack(c: bv32, d: bv32)
    ensures Xor(c, d) == Xor(d, c) && Turned(Turned(c)) == c
  {
    assert (c ^ 0xEDB88320) ^ 0xEDB88320 == c;
    assert c ^ d == d ^ c;
  }

  lemma ShiftedSum(c: bv32, d: bv32)
    ensures Shifted(Xor(c, d)) == Xor(Shifted(c), Shifted(d))
  {
    hide Shifted, Xor, Half, Turned, Odd;
    ShiftedParts(c);
    ShiftedParts(d);
    ShiftedParts(Xor(c, d));
    HalfSum(c, d);
    OddSum(c, d);
    var x, y := Half(c), Half(d);
    TurnedSum(x, y);
    TurnedSum(x, Turned(y));
    TurnedSum(y, x);
    TurnedBack(x, y);
    TurnedBack(x, Turned(y));
    TurnedBack(Xor(x, y), y);
  }

  lemma {:induction false} ShiftsSum(c: bv32, d: bv32, k: nat)
    ensures Shifts(Xor(c, d), k) == Xor(Shifts(c, k), Shifts(d, k))
    decreases k
  {
    hide Shifted, Xor;
    if k > 0 {
      ShiftedSum(c, d);
      ShiftsSum(Shifted(c), Shifted(d), k - 1);
    }
  }

  function HighBytes(c: bv32): bv32 { c & 0xFFFF_FF00 }

  function LowByte(c: bv32): bv32 { c & 0xFF }

  /** A state whose lowest byte is empty only moves down. */
  lemma MovesDown(c: bv32)
    ensures Shifts(HighBytes(c), 8) == c >> 8
  {
    var h := HighBytes(c);
    LowEmpty(c);
    Undisturbed(h);
  }

  lemma LowEmpty(c: bv32)
    ensures HighBytes(c) & 0xFF == 0 && HighBytes(c) >> 8 == c >> 8
  {
    assert (c & 0xFFFF_FF00) & 0xFF == 0 && (c & 0xFFFF_FF00) >> 8 == c >> 8;
  }

  lemma Undisturbed(c: bv32)
    requires c & 0xFF == 0
    ensures Shifts(c, 8) == c >> 8
  {
  }

  lemma HighWithLow(c: bv32)
    ensures Xor(HighBytes(c), LowByte(c)) == c
  {
    assert (c & 0xFFFF_FF00) ^ (c & 0xFF) == c;
  }

  lemma XorAssociates(a: bv32, b: bv32, c: bv32)
    ensures Xor(Xor(a, b), c) == Xor(a, Xor(b, c))
  {
    assert (a ^ b) ^ c == a ^ (b ^ c);
  }

  /** One look-up a byte: the state moves down by eight bits, and the entry is that of the byte met. */
  lemma StepByTable(c: bv32, b: bv8)
    ensures Step(c, b) == Xor(c >> 8, Shifts(Xor(LowByte(c), Wide(b)), 8))
  {
    hide Shifts, Xor, Wide, HighBytes, LowByte;
    HighWithLow(c);
    XorAssociates(HighBytes(c), LowByte(c), Wide(b));
    ShiftsSum(HighBytes(c), Xor(LowByte(c), Wide(b)), 8);
    MovesDown(c);
  }

  /** The entries are sums of these eight. */
  lemma TableBits()
    ensures Shifts(0x01, 8) == 0x77073096 && Shifts(0x02, 8) == 0xEE0E612C
    ensures Shifts(0x04, 8) == 0x076DC419 && Shifts(0x08, 8) == 0x0EDB8832
    ensures Shifts(0x10, 8) == 0x1DB71064 && Shifts(0x20, 8) == 0x3B6E20C8
    ensures Shifts(0x40, 8) == 0x76DC4190 && Shifts(0x80, 8) == 0xEDB88320
  {
  }

  // --- the fold over bytes ---------------------------------------------------------------

  function Fold(c: bv32, s: seq<bv8>): bv32
    decreases |s|
  {
    if s == [] then c else Fold(Step(c, s[0]), s[1..])
  }

  lemma {:induction false} FoldInjective(c: bv32, d: bv32, s: seq<bv8>)
    requires Fold(c, s) == Fold(d, s)
    ensures c == d
    decreases |s|
  {
    hide Step;
    if s != [] {
      FoldInjective(Step(c, s[0]), Step(d, s[0]), s[1..]);
      StepInjective(c, d, s[0], s[0]);
    }
  }

  lemma {:induction false} FoldSum(c: bv32, a: seq<bv8>, b: seq<bv8>)
    ensures Fold(c, a + b) == Fold(Fold(c, a), b)
    decreases |a|
  {
    hide Step;
    if a == [] {
      assert a + b == b;
    } else {
      assert (a + b)[0] == a[0] && (a + b)[1..] == a[1..] + b;
      FoldSum(Step(c, a[0]), a[1..], b);
    }
  }

  /** The two differ in exactly the byte at k. */
  ghost predicate OneByteApart<T>(a: seq<T>, b: seq<T>, k: nat)
  {
    k < |a| == |b| && a[k] != b[k] && forall i :: 0 <= i < |a| && i != k ==> a[i] == b[i]
  }

  lemma {:induction false} OneByteFolds(c: bv32, a: seq<bv8>, b: seq<bv8>, k: nat)
    requires OneByteApart(a, b, k)
    ensures Fold(c, a) != Fold(c, b)
    decreases |a|
  {
    hide Step;
    if k > 0 {
      OneByteFolds(Step(c, a[0]), a[1..], b[1..], k - 1);
    } else {
      assert a[1..] == b[1..];
      StepInjective(c, c, a[0], b[0]);
      if Fold(c, a) == Fold(c, b) {
        FoldInjective(Step(c, a[0]), Step(c, b[0]), a[1..]);
      }
    }
  }

  // --- the stamp -------------------------------------------------------------------------

  /** An unsigned int. */
  type Word = n: nat | n < TWO32

  function Width(n: nat): Word { n % TWO32 }

  /** The four bytes of a length, the highest first. */
  function LengthBytes(n: Word): seq<bv8>
  {
    [ByteOf(n / 0x100_0000 % 256), ByteOf(n / 0x1_0000 % 256), ByteOf(n / 0x100 % 256), ByteOf(n % 256)]
  }

  function ByteOf(k: nat): bv8
    requires k < 256
  {
    k as bv8
  }

  function Framed(r: seq<bv8>): seq<bv8> { LengthBytes(Width(|r|)) + r }

  /** The bytes folded for a resource of records. */
  function Flat(rs: seq<seq<bv8>>): seq<bv8>
  {
    if rs == [] then [] else Framed(rs[0]) + Flat(rs[1..])
  }

  /** ETAGCTX */
  datatype Stamp = Stamp(crc: bv32, len: Word)

  const UNSTAMPED := Stamp(ONES, 0)

  function WithRecord(s: Stamp, r: seq<bv8>): Stamp { Stamp(Fold(s.crc, Framed(r)), Width(s.len + |r|)) }

  function WithRaw(s: Stamp, r: seq<bv8>): Stamp { Stamp(Fold(s.crc, r), Width(s.len + |r|)) }

  class Etag {
    var crc: bv32
    var len: Word

    function View(): Stamp
      reads this
    {
      Stamp(crc, len)
    }

    /** etag_init() */
    constructor ()
      ensures View() == UNSTAMPED
    {
      crc, len := ONES, 0;
    }

    method FoldAll(s: seq<bv8>)
      modifies this`crc
      ensures crc == Fold(old(crc), s)
    {
      hide Step;
      for i := 0 to |s|
        invariant Fold(crc, s[i..]) == Fold(old(crc), s)
      {
        crc := FoldByte(crc, s[i]);
      }
    }

    /** etag_update(): the length of the record, then its bytes. */
    method Update(r: seq<bv8>)
      modifies this
      ensures View() == WithRecord(old(View()), r)
    {
      hide Fold, LengthBytes;
      FoldSum(crc, LengthBytes(Width(|r|)), r);
      FoldAll(LengthBytes(Width(|r|)));
      FoldAll(r);
      len := Width(len + |r|);
    }

    /** etag_update_raw(): the bytes alone. */
    method UpdateRaw(r: seq<bv8>)
      modifies this
      ensures View() == WithRaw(old(View()), r)
    {
      hide Fold;
      FoldAll(r);
      len := Width(len + |r|);
    }
  }

  /** The stamp of a resource, record by record. */
  function Stamped(s: Stamp, rs: seq<seq<bv8>>): Stamp
    decreases |rs|
  {
    if rs == [] then s else Stamped(WithRecord(s, rs[0]), rs[1..])
  }

  /** The stamp of a byte stream, chunk by chunk. */
  function StampedRaw(s: Stamp, chunks: seq<seq<bv8>>): Stamp
    decreases |chunks|
  {
    if chunks == [] then s else StampedRaw(WithRaw(s, chunks[0]), chunks[1..])
  }

  function Concat(chunks: seq<seq<bv8>>): seq<bv8>
  {
    if chunks == [] then [] else chunks[0] + Concat(chunks[1..])
  }

  lemma WidthSum(a: nat, b: nat, c: nat)
    ensures Width(Width(a + b) + c) == Width(a + (b + c))
  {
  }

  /** However a stream is cut into chunks, its stamp is that of the whole. */
  lemma {:induction false} RawIgnoresChunks(s: Stamp, chunks: seq<seq<bv8>>)
    ensures StampedRaw(s, chunks) == WithRaw(s, Concat(chunks))
    decreases |chunks|
  {
    hide Fold, Width;
    if chunks == [] {
      FoldNone(s.crc);
      WidthSum(s.len, 0, 0);
      WidthOf(s.len);
    } else {
      var first, rest := chunks[0], Concat(chunks[1..]);
      RawIgnoresChunks(WithRaw(s, first), chunks[1..]);
      FoldSum(s.crc, first, rest);
      WidthSum(s.len, |first|, |rest|);
    }
  }

  lemma WidthOf(n: Word)
    ensures Width(n + 0) == n
  {
  }

  lemma FoldNone(c: bv32)
    ensures Fold(c, []) == c
  {
  }

  lemma {:induction false} StampedFolds(s: Stamp, rs: seq<seq<bv8>>)
    ensures Stamped(s, rs).crc == Fold(s.crc, Flat(rs))
    decreases |rs|
  {
    hide Fold, Framed;
    if rs == [] {
      FoldNone(s.crc);
    } else {
      StampedFolds(WithRecord(s, rs[0]), rs[1..]);
      FoldSum(s.crc, Framed(rs[0]), Flat(rs[1..]));
    }
  }

  /** The same records, but for one byte of one of them. */
  ghost predicate OneRecordApart(a: seq<seq<bv8>>, b: seq<seq<bv8>>, i: nat, k: nat)
  {
    i < |a| == |b| && OneByteApart(a[i], b[i], k) && forall j :: 0 <= j < |a| && j != i ==> a[j] == b[j]
  }

  lemma ApartIn(front: seq<bv8>, a: seq<bv8>, b: seq<bv8>, behind: seq<bv8>, k: nat)
    requires OneByteApart(a, b, k)
    ensures OneByteApart(front + a + behind, front + b + behind, |front| + k)
  {
  }

  lemma {:induction false} FlatApart(a: seq<seq<bv8>>, b: seq<seq<bv8>>, i: nat, k: nat) returns (at: nat)
    requires OneRecordApart(a, b, i, k)
    ensures OneByteApart(Flat(a), Flat(b), at)
    decreases |a|
  {
    if i == 0 {
      assert a[1..] == b[1..];
      var front := LengthBytes(Width(|a[0]|));
      hide LengthBytes;
      ApartIn(front, a[0], b[0], Flat(a[1..]), k);
      at := |front| + k;
    } else {
      hide Framed;
      var rest := FlatApart(a[1..], b[1..], i - 1, k);
      ApartIn(Framed(a[0]), Flat(a[1..]), Flat(b[1..]), [], rest);
      assert Framed(a[0]) + Flat(a[1..]) + [] == Flat(a);
      assert Framed(a[0]) + Flat(b[1..]) + [] == Flat(b);
      at := |Framed(a[0])| + rest;
    }
  }

  lemma NextByte(b: bv8)
    requires b != 255
    ensures (b + 1) as int == b as int + 1
  {
  }

  lemma {:induction false} SomeByte(k: nat) returns (b: bv8)
    requires k < 256
    ensures b as int == k
  {
    if k == 0 {
      b := 0;
    } else {
      var a := SomeByte(k - 1);
      b := a + 1;
      NextByte(a);
    }
  }

  lemma SameBack(b: bv8)
    ensures (b as int) as bv8 == b
  {
  }

  /** The byte of a number, and its number again. */
  lemma ByteBack(k: nat)
    requires k < 256
    ensures ByteOf(k) as int == k
  {
    var b := SomeByte(k);
    SameBack(b);
    assert ByteOf(b as int) == b;
  }

  lemma Base256(n: Word)
    ensures n == n / 0x100_0000 % 256 * 0x100_0000 + n / 0x1_0000 % 256 * 0x1_0000 + n / 0x100 % 256 * 0x100 + n % 256
  {
    var h, i, j := n / 0x100_0000, n / 0x1_0000, n / 0x100;
    assert h < 256 && i == 256 * h + i % 256 && j == 256 * i + j % 256 && n == 256 * j + n % 256;
  }

  /** The four bytes read as a number, the first the highest. */
  lemma LengthRead(n: Word)
    ensures var b := LengthBytes(n);
            |b| == 4 && b[0] as int * 0x100_0000 + b[1] as int * 0x1_0000 + b[2] as int * 0x100 + b[3] as int == n
  {
    hide ByteOf;
    Base256(n);
    var h, i, j, k := n / 0x100_0000 % 256, n / 0x1_0000 % 256, n / 0x100 % 256, n % 256;
    ByteBack(h);
    ByteBack(i);
    ByteBack(j);
    ByteBack(k);
    assert LengthBytes(n) == [ByteOf(h), ByteOf(i), ByteOf(j), ByteOf(k)];
  }

  lemma LengthInjective(m: Word, n: Word)
    ensures |LengthBytes(m)| == 4 && (LengthBytes(m) == LengthBytes(n) ==> m == n)
  {
    LengthRead(m);
    LengthRead(n);
    hide LengthBytes;
  }

  lemma FrameRead(r: seq<bv8>, s: seq<bv8>, behind: seq<bv8>, rest: seq<bv8>)
    requires |r| < TWO32 && |s| < TWO32 && Framed(r) + behind == Framed(s) + rest
    ensures r == s && behind == rest
  {
    hide LengthBytes;
    LengthInjective(|r|, |s|);
    LengthInjective(|s|, |r|);
    var x, y := LengthBytes(|r|), LengthBytes(|s|);
    assert x == (Framed(r) + behind)[..4] && y == (Framed(s) + rest)[..4];
    SameFront(r, s, behind, rest) by {
      assert r + behind == (Framed(r) + behind)[4..] && s + rest == (Framed(s) + rest)[4..];
    }
  }

  lemma SameFront(r: seq<bv8>, s: seq<bv8>, behind: seq<bv8>, rest: seq<bv8>)
    requires |r| == |s| && r + behind == s + rest
    ensures r == s && behind == rest
  {
    assert r == (r + behind)[..|r|] && s == (s + rest)[..|s|];
    assert behind == (r + behind)[|r|..] && rest == (s + rest)[|s|..];
  }

  /** What is folded tells the records apart, where they are split as well as what they hold. */
  lemma {:induction false} RecordsTold(a: seq<seq<bv8>>, b: seq<seq<bv8>>)
    requires forall i :: 0 <= i < |a| ==> |a[i]| < TWO32
    requires forall i :: 0 <= i < |b| ==> |b[i]| < TWO32
    ensures Flat(a) == Flat(b) <==> a == b
    decreases |a|
  {
    if Flat(a) == Flat(b) {
      if a == [] || b == [] {
        assert a == b;
      } else {
        hide Framed;
        FrameRead(a[0], b[0], Flat(a[1..]), Flat(b[1..]));
        RecordsTold(a[1..], b[1..]);
        assert a == [a[0]] + a[1..] && b == [b[0]] + b[1..];
      }
    }
  }

  // --- the value printed -----------------------------------------------------------------

  function HexChar(d: bv32): (c: char)
    ensures '0' <= c <= '9' || 'A' <= c <= 'F'
  {
    if d == 0 then '0' else if d == 1 then '1' else if d == 2 then '2' else if d == 3 then '3'
    else if d == 4 then '4' else if d == 5 then '5' else if d == 6 then '6' else if d == 7 then '7'
    else if d == 8 then '8' else if d == 9 then '9' else if d == 10 then 'A' else if d == 11 then 'B'
    else if d == 12 then 'C' else if d == 13 then 'D' else if d == 14 then 'E' else 'F'
  }

  function Nibble(v: bv32, k: bv32): bv32
    requires k < 8
  {
    (v >> (28 - 4 * k)) & 15
  }

  /** "%08X" */
  function Hex8(v: bv32): (s: string)
    ensures |s| == 8
  {
    [HexChar(Nibble(v, 0)), HexChar(Nibble(v, 1)), HexChar(Nibble(v, 2)), HexChar(Nibble(v, 3)),
     HexChar(Nibble(v, 4)), HexChar(Nibble(v, 5)), HexChar(Nibble(v, 6)), HexChar(Nibble(v, 7))]
  }

  /** etag_final() */
  function Printed(s: Stamp): string { Hex8(Xor(s.crc, ONES)) + HexOf(s.len, 8) }

  lemma NibbleShown(a: bv32, b: bv32)
    requires a < 16 && b < 16 && HexChar(a) == HexChar(b)
    ensures a == b
  {
  }

  lemma Nibbles(v: bv32, w: bv32)
    requires Nibble(v, 0) == Nibble(w, 0) && Nibble(v, 1) == Nibble(w, 1)
    requires Nibble(v, 2) == Nibble(w, 2) && Nibble(v, 3) == Nibble(w, 3)
    requires Nibble(v, 4) == Nibble(w, 4) && Nibble(v, 5) == Nibble(w, 5)
    requires Nibble(v, 6) == Nibble(w, 6) && Nibble(v, 7) == Nibble(w, 7)
    ensures v == w
  {
  }

  lemma HexShown(v: bv32, w: bv32)
    requires Hex8(v) == Hex8(w)
    ensures v == w
  {
    hide HexChar, Nibble;
    assert Hex8(v)[0] == Hex8(w)[0];
    DigitShown(v, w, 0);
    assert Hex8(v)[1] == Hex8(w)[1];
    DigitShown(v, w, 1);
    assert Hex8(v)[2] == Hex8(w)[2];
    DigitShown(v, w, 2);
    assert Hex8(v)[3] == Hex8(w)[3];
    DigitShown(v, w, 3);
    assert Hex8(v)[4] == Hex8(w)[4];
    DigitShown(v, w, 4);
    assert Hex8(v)[5] == Hex8(w)[5];
    DigitShown(v, w, 5);
    assert Hex8(v)[6] == Hex8(w)[6];
    DigitShown(v, w, 6);
    assert Hex8(v)[7] == Hex8(w)[7];
    DigitShown(v, w, 7);
    Nibbles(v, w);
  }

  lemma DigitShown(v: bv32, w: bv32, k: bv32)
    requires k < 8 && HexChar(Nibble(v, k)) == HexChar(Nibble(w, k))
    ensures Nibble(v, k) == Nibble(w, k)
  {
    NibbleShown(Nibble(v, k), Nibble(w, k));
  }

  /** The same for a number: the last digit of the first k. */
  function HexOf(n: nat, k: nat): (s: string)
    ensures |s| == k
  {
    if k == 0 then "" else HexOf(n / 16, k - 1) + ["0123456789ABCDEF"[n % 16]]
  }

  function Power16(k: nat): nat { if k == 0 then 1 else 16 * Power16(k - 1) }

  lemma {:induction false} NumberShown(m: nat, n: nat, k: nat)
    requires m < Power16(k) && n < Power16(k) && HexOf(m, k) == HexOf(n, k)
    ensures m == n
  {
    if k > 0 {
      assert HexOf(m, k)[..k - 1] == HexOf(m / 16, k - 1) && HexOf(n, k)[..k - 1] == HexOf(n / 16, k - 1);
      NumberShown(m / 16, n / 16, k - 1);
      assert HexOf(m, k)[k - 1] == HexOf(n, k)[k - 1];
      CharShown(m % 16, n % 16);
    }
  }

  lemma CharShown(a: nat, b: nat)
    requires a < 16 && b < 16 && "0123456789ABCDEF"[a] == "0123456789ABCDEF"[b]
    ensures a == b
  {
  }

  lemma WordFits()
    ensures Power16(8) == TWO32
  {
    assert Power16(2) == 256;
    assert Power16(4) == 65536;
    assert Power16(6) == 16777216;
  }

  // --- the value spelled -------------------------------------------------------------------

  lemma HexSpelled()
    ensures HexChar(0) == '0' && HexChar(1) == '1' && HexChar(2) == '2' && HexChar(3) == '3'
    ensures HexChar(4) == '4' && HexChar(5) == '5' && HexChar(6) == '6' && HexChar(7) == '7'
    ensures HexChar(8) == '8' && HexChar(9) == '9' && HexChar(10) == 'A' && HexChar(11) == 'B'
    ensures HexChar(12) == 'C' && HexChar(13) == 'D' && HexChar(14) == 'E' && HexChar(15) == 'F'
  {
  }

  /** The eight digits put together are the value, the first the highest. */
  lemma NibblesJoin(v: bv32)
    ensures v == (Nibble(v, 0) << 28) | (Nibble(v, 1) << 24) | (Nibble(v, 2) << 20) | (Nibble(v, 3) << 16)
                 | (Nibble(v, 4) << 12) | (Nibble(v, 5) << 8) | (Nibble(v, 6) << 4) | Nibble(v, 7)
  {
  }

  /** A digit from 0 to 9 or from A to F. */
  function Digit(c: char): int
  {
    if '0' <= c <= '9' then c as int - '0' as int else if 'A' <= c <= 'F' then c as int - 'A' as int + 10 else -1
  }

  function Value(s: string): int { if s == "" then 0 else 16 * Value(s[..|s| - 1]) + Digit(s[|s| - 1]) }

  lemma DigitRead(d: nat)
    requires d < 16
    ensures Digit("0123456789ABCDEF"[d]) == d
  {
  }

  lemma {:induction false} NumberRead(n: nat, k: nat)
    requires n < Power16(k)
    ensures Value(HexOf(n, k)) == n
  {
    if k > 0 {
      NumberRead(n / 16, k - 1);
      DigitRead(n % 16);
      assert HexOf(n, k)[..k - 1] == HexOf(n / 16, k - 1);
    }
  }

  const NINE: seq<bv8> := [0x31, 0x32, 0x33, 0x34, 0x35, 0x36, 0x37, 0x38, 0x39]

  lemma FoldOn(c: bv32, s: seq<bv8>, k: nat)
    requires k < |s|
    ensures Fold(c, s[k..]) == Fold(Step(c, s[k]), s[k + 1..])
  {
    hide Step;
    assert s[k..][1..] == s[k + 1..];
  }

  /** The nine bytes from '1' to '9', the customary check of this sum. */
  lemma CheckFolded()
    ensures Fold(ONES, NINE) == 0x340BC6D9
  {
    CheckSteps();
    hide Step, Fold;
    assert NINE[0..] == NINE;
    FoldOn(ONES, NINE, 0);
    FoldOn(0x7C231048, NINE, 1);
    FoldOn(0xB0ACBB32, NINE, 2);
    FoldOn(0x77B79C2D, NINE, 3);
    FoldOn(0x641C1F5C, NINE, 4);
    FoldOn(0x340AC5E3, NINE, 5);
    FoldOn(0xF68D2C9E, NINE, 6);
    FoldOn(0xAFFC9660, NINE, 7);
    FoldOn(0x651F2550, NINE, 8);
    FoldNone(0x340BC6D9);
    assert NINE[9..] == [];
  }

  lemma CheckSteps()
    ensures Step(ONES, 0x31) == 0x7C231048 && Step(0x7C231048, 0x32) == 0xB0ACBB32
    ensures Step(0xB0ACBB32, 0x33) == 0x77B79C2D && Step(0x77B79C2D, 0x34) == 0x641C1F5C
    ensures Step(0x641C1F5C, 0x35) == 0x340AC5E3 && Step(0x340AC5E3, 0x36) == 0xF68D2C9E
    ensures Step(0xF68D2C9E, 0x37) == 0xAFFC9660 && Step(0xAFFC9660, 0x38) == 0x651F2550
    ensures Step(0x651F2550, 0x39) == 0x340BC6D9
  {
  }

  lemma DigitsSpelled()
    ensures Hex8(0xCBF43926) == "CBF43926"
  {
    var v: bv32 := 0xCBF43926;
    assert Nibble(v, 0) == 12 && Nibble(v, 1) == 11 && Nibble(v, 2) == 15 && Nibble(v, 3) == 4;
    assert Nibble(v, 4) == 3 && Nibble(v, 5) == 9 && Nibble(v, 6) == 2 && Nibble(v, 7) == 6;
    HexSpelled();
    hide Nibble, HexChar;
  }

  lemma CountSpelled()
    ensures HexOf(9, 8) == "00000009"
  {
    assert HexOf(0, 3) == "000";
    assert HexOf(0, 7) == "0000000";
  }

  /** Its stamp: the sum inverted, and the number of bytes. */
  lemma CheckPrinted()
    ensures Printed(WithRaw(UNSTAMPED, NINE)) == "CBF4392600000009"
  {
    hide Fold, Hex8, HexOf;
    CheckFolded();
    DigitsSpelled();
    CountSpelled();
  }

  /** Equal stamps print alike, and only they do. */
  lemma PrintedInjective(s: Stamp, t: Stamp)
    ensures Printed(s) == Printed(t) <==> s == t
  {
    hide Hex8, HexOf, Power16, Xor;
    if Printed(s) == Printed(t) {
      assert Printed(s)[..8] == Hex8(Xor(s.crc, ONES)) && Printed(t)[..8] == Hex8(Xor(t.crc, ONES));
      assert Printed(s)[8..] == HexOf(s.len, 8) && Printed(t)[8..] == HexOf(t.len, 8);
      HexShown(Xor(s.crc, ONES), Xor(t.crc, ONES));
      WordFits();
      NumberShown(s.len, t.len, 8);
      XorCancels(s.crc, t.crc, ONES);
    }
  }

  /** A resource whose records differ in one byte never keeps its stamp. */
  lemma ChangeSeen(a: seq<seq<bv8>>, b: seq<seq<bv8>>, i: nat, k: nat)
    requires OneRecordApart(a, b, i, k)
    ensures Printed(Stamped(UNSTAMPED, a)) != Printed(Stamped(UNSTAMPED, b))
  {
    hide Flat, Fold, Stamped, OneRecordApart, OneByteApart;
    var at := FlatApart(a, b, i, k);
    StampedFolds(UNSTAMPED, a);
    StampedFolds(UNSTAMPED, b);
    OneByteFolds(ONES, Flat(a), Flat(b), at);
    PrintedInjective(Stamped(UNSTAMPED, a), Stamped(UNSTAMPED, b));
  }

  /** Nor does a byte stream, however the two are chunked. */
  lemma RawChangeSeen(a: seq<seq<bv8>>, b: seq<seq<bv8>>, k: nat)
    requires OneByteApart(Concat(a), Concat(b), k)
    ensures Printed(StampedRaw(UNSTAMPED, a)) != Printed(StampedRaw(UNSTAMPED, b))
  {
    hide Concat, Fold, StampedRaw;
    RawIgnoresChunks(UNSTAMPED, a);
    RawIgnoresChunks(UNSTAMPED, b);
    OneByteFolds(ONES, Concat(a), Concat(b), k);
    PrintedInjective(StampedRaw(UNSTAMPED, a), StampedRaw(UNSTAMPED, b));
  }

  // --- the sum over a text --------------------------------------------------------------------

  const BASIS: Word := 0x811C9DC5
  const PRIME := 0x01000193
  const INVERSE := 0x359C449B

  /** The exclusive or of the lower k bits. */
  function XorBits(a: nat, b: nat, k: nat): nat
    decreases k
  {
    if k == 0 then 0 else (a % 2 + b % 2) % 2 + 2 * XorBits(a / 2, b / 2, k - 1)
  }

  function Power2(k: nat): nat { if k == 0 then 1 else 2 * Power2(k - 1) }

  lemma {:induction false} XorBound(a: nat, b: nat, k: nat)
    ensures XorBits(a, b, k) < Power2(k) && XorBits(a, b, k) == XorBits(b, a, k)
    decreases k
  {
    if k > 0 {
      XorBound(a / 2, b / 2, k - 1);
    }
  }

  lemma {:induction false} XorBitsInjective(a: nat, b: nat, c: nat, k: nat)
    requires a < Power2(k) && b < Power2(k) && XorBits(a, c, k) == XorBits(b, c, k)
    ensures a == b
    decreases k
  {
    if k > 0 {
      SplitsInto(a, c, k);
      SplitsInto(b, c, k);
      hide XorBits, Power2;
      XorBitsInjective(a / 2, b / 2, c / 2, k - 1);
      SameParity(a, b, c);
    }
  }

  lemma SameParity(a: nat, b: nat, c: nat)
    ensures (a % 2 + c % 2) % 2 == (b % 2 + c % 2) % 2 && a / 2 == b / 2 ==> a == b
  {
  }

  /** The lowest bit and the others. */
  lemma SplitsInto(a: nat, c: nat, k: nat)
    requires k > 0 && a < Power2(k)
    ensures var x := XorBits(a, c, k);
            x / 2 == XorBits(a / 2, c / 2, k - 1) && x % 2 == (a % 2 + c % 2) % 2 && a / 2 < Power2(k - 1)
  {
  }

  lemma WordBits()
    ensures Power2(32) == TWO32
  {
    assert Power2(4) == 16;
    assert Power2(8) == 256;
    assert Power2(12) == 4096;
    assert Power2(16) == 65536;
    assert Power2(20) == 1048576;
    assert Power2(24) == 16777216;
    assert Power2(28) == 268435456;
  }

  /** The exclusive or of two words. */
  function XorWord(a: Word, b: Word): Word
  {
    WordBits();
    XorBound(a, b, 32);
    XorBits(a, b, 32)
  }

  function Times(h: Word): Word { h * PRIME % TWO32 }

  function Mixed(h: Word, b: Byte): Word { Times(XorWord(h, b)) }

  function SumFrom(h: Word, s: seq<Byte>): Word
    decreases |s|
  {
    if s == [] then h else SumFrom(Mixed(h, s[0]), s[1..])
  }

  /** text_sum() */
  method TextSum(s: seq<Byte>) returns (h: Word)
    ensures h == SumFrom(BASIS, s)
  {
    hide Times, XorWord;
    h := BASIS;
    for i := 0 to |s|
      invariant SumFrom(h, s[i..]) == SumFrom(BASIS, s)
    {
      h := XorWord(h, s[i]);
      h := Times(h);
    }
  }

  // --- the sum spelled ----------------------------------------------------------------------

  function Bit(n: nat, i: nat): nat
    decreases i
  {
    if i == 0 then n % 2 else Bit(n / 2, i - 1)
  }

  lemma XorSplit(a: nat, b: nat, k: nat)
    requires k > 0
    ensures XorBits(a, b, k) / 2 == XorBits(a / 2, b / 2, k - 1)
    ensures XorBits(a, b, k) % 2 == if a % 2 == b % 2 then 0 else 1
  {
  }

  /** Bit for bit, the exclusive or is one where the two differ. */
  lemma {:induction false} XorBit(a: nat, b: nat, k: nat, i: nat)
    requires i < k
    ensures Bit(XorBits(a, b, k), i) == if Bit(a, i) == Bit(b, i) then 0 else 1
    decreases k
  {
    XorSplit(a, b, k);
    hide XorBits;
    if i > 0 {
      XorBit(a / 2, b / 2, k - 1, i - 1);
    }
  }

  /** The sum of nothing, and one step of the sum. */
  lemma SumSpelled(h: Word, b: Byte)
    ensures SumFrom(BASIS, []) == 0x811C9DC5
    ensures SumFrom(h, [b]) == XorWord(h, b) * 0x01000193 % 0x1_0000_0000
  {
    hide XorWord;
    assert SumFrom(Mixed(h, b), []) == Mixed(h, b);
    assert SumFrom(h, [b]) == SumFrom(Mixed(h, b), [b][1..]);
  }

  lemma {:induction false} SumSplit(h: Word, a: seq<Byte>, b: seq<Byte>)
    ensures SumFrom(h, a + b) == SumFrom(SumFrom(h, a), b)
    decreases |a|
  {
    hide Mixed;
    if a == [] {
      assert a + b == b;
    } else {
      assert (a + b)[0] == a[0] && (a + b)[1..] == a[1..] + b;
      SumSplit(Mixed(h, a[0]), a[1..], b);
    }
  }

  /** The prime has an inverse modulo 2^32, so that multiplying by it loses nothing. */
  lemma TimesUndone(a: Word)
    ensures Times(a) * INVERSE % TWO32 == a
  {
    var x := a * PRIME;
    assert x == x / TWO32 * TWO32 + Times(a);
    assert x * INVERSE == TWO32 * (x / TWO32 * INVERSE) + Times(a) * INVERSE;
    assert PRIME * INVERSE == TWO32 * 0x359C99 + 1;
    assert x * INVERSE == TWO32 * (a * 0x359C99) + a;
    Multiple(x / TWO32 * INVERSE, Times(a) * INVERSE);
    Multiple(a * 0x359C99, a);
  }

  lemma Multiple(q: int, r: int)
    ensures (TWO32 * q + r) % TWO32 == r % TWO32
  {
  }

  lemma XorInjective(a: Word, b: Word, c: Word)
    requires XorWord(a, c) == XorWord(b, c)
    ensures a == b
  {
    WordBits();
    XorBitsInjective(a, b, c, 32);
  }

  lemma XorSymmetric(a: Word, b: Word)
    ensures XorWord(a, b) == XorWord(b, a)
  {
    XorBound(a, b, 32);
  }

  lemma MixedInjective(c: Word, d: Word, a: Byte, b: Byte)
    ensures Mixed(c, a) == Mixed(d, a) ==> c == d
    ensures Mixed(c, a) == Mixed(c, b) ==> a == b
  {
    hide XorWord, Times;
    TimesUndone(XorWord(c, a));
    TimesUndone(XorWord(d, a));
    TimesUndone(XorWord(c, b));
    if Mixed(c, a) == Mixed(d, a) {
      XorInjective(c, d, a);
    }
    if Mixed(c, a) == Mixed(c, b) {
      XorSymmetric(c, a);
      XorSymmetric(c, b);
      XorInjective(a, b, c);
    }
  }

  lemma {:induction false} SumInjective(c: Word, d: Word, s: seq<Byte>)
    requires SumFrom(c, s) == SumFrom(d, s)
    ensures c == d
    decreases |s|
  {
    hide Mixed;
    if s != [] {
      SumInjective(Mixed(c, s[0]), Mixed(d, s[0]), s[1..]);
      MixedInjective(c, d, s[0], s[0]);
    }
  }

  /** Two texts that differ in one byte never have the same sum. */
  lemma {:induction false} TextChangeSeen(h: Word, a: seq<Byte>, b: seq<Byte>, k: nat)
    requires OneByteApart(a, b, k)
    ensures SumFrom(h, a) != SumFrom(h, b)
    decreases |a|
  {
    hide Mixed;
    if k > 0 {
      TextChangeSeen(Mixed(h, a[0]), a[1..], b[1..], k - 1);
    } else {
      assert a[1..] == b[1..];
      MixedInjective(h, h, a[0], b[0]);
      if SumFrom(h, a) == SumFrom(h, b) {
        SumInjective(Mixed(h, a[0]), Mixed(h, b[0]), a[1..]);
      }
    }
  }
}
