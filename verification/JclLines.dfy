// Growing the table of JCL lines: src/jclines.c. A slot of the table refers to a
// place in the line buffer.
module JclLines {

  const STRIDE := 81
  const INT_MAX := 0x7FFF_FFFF

  /** A pointer into the line buffer, or an unset one. */
  datatype Ref = Unset | At(block: array<char>, offset: nat)

  /** The capacity after doubling, unless an int cannot hold it. */
  datatype Size = Overflow | Fits(capacity: nat)

  function Doubled(cap: nat, required: nat): (s: Size)
    requires 0 < cap <= INT_MAX
    ensures s.Fits? ==> required <= s.capacity <= INT_MAX && cap <= s.capacity
    decreases INT_MAX - cap
  {
    if cap >= required then Fits(cap) else if cap > INT_MAX / 2 then Overflow else Doubled(2 * cap, required)
  }

  function Power(k: nat): nat { if k == 0 then 1 else 2 * Power(k - 1) }

  /** It is the first doubling that is enough, and none only if that one is beyond an int. */
  lemma {:induction false} FirstDoubling(cap: nat, required: nat) returns (k: nat)
    requires 0 < cap <= INT_MAX
    ensures cap * Power(k) >= required && (k > 0 ==> cap * Power(k - 1) < required)
    ensures Doubled(cap, required) == if cap * Power(k) <= INT_MAX then Fits(cap * Power(k)) else Overflow
    decreases INT_MAX - cap
  {
    k := 0;
    assert cap * Power(0) == cap;
    if cap < required {
      if cap > INT_MAX / 2 {
        k := BigEnough(cap, required);
      } else {
        hide Power;
        k := FirstDoubling(2 * cap, required);
        PowerStep(cap, k);
        if k > 0 {
          PowerStep(cap, k - 1);
        } else {
          PowerNone(cap);
        }
        k := k + 1;
      }
    }
  }

  lemma PowerStep(cap: nat, k: nat)
    ensures cap * Power(k + 1) == 2 * cap * Power(k)
  {
  }

  lemma PowerNone(cap: nat)
    ensures cap * Power(0) == cap
  {
  }

  lemma {:induction false} BigEnough(cap: nat, required: nat) returns (k: nat)
    requires INT_MAX / 2 < cap < required
    ensures k > 0 && cap * Power(k) >= required && cap * Power(k - 1) < required
    ensures cap * Power(k) > INT_MAX
    decreases required - cap
  {
    PowerStep(cap, 0);
    PowerNone(cap);
    hide Power;
    k := 1;
    if 2 * cap < required {
      k := BigEnough(2 * cap, required);
      PowerStep(cap, k);
      PowerStep(cap, k - 1);
      k := k + 1;
    }
  }

  // --- the products of the C program -----------------------------------------------------

  /** The most slots whose offsets an int holds: 26,512,144. */
  const SLOTS := INT_MAX / STRIDE + 1

  const SIZE_MAX := 0xFFFF_FFFF

  function Offset(i: nat): nat { i * STRIDE }

  /**
   * Up to so many slots every offset is what the int product i * 81 gives, and beyond
   * it one is not; as long as they are, neither size requested wraps, pointers being of
   * four bytes and sizes of 32 bits.
   */
  lemma {:induction false} SlotsWithinInt(cap: nat)
    ensures (forall i: nat :: i < cap ==> Offset(i) <= INT_MAX) <==> cap <= 26512144
    ensures cap <= 26512144 ==> cap * STRIDE <= SIZE_MAX && cap * 4 <= SIZE_MAX
  {
    if cap > SLOTS {
      assert Offset(SLOTS) > INT_MAX;
    }
  }

  method Double(cap: nat, required: nat) returns (s: Size)
    requires 0 < cap <= INT_MAX
    ensures s == Doubled(cap, required)
  {
    var n := cap;
    while n < required
      invariant 0 < n <= INT_MAX && Doubled(n, required) == Doubled(cap, required)
      decreases INT_MAX - n
    {
      if n > INT_MAX / 2 {
        return Overflow;
      }
      n := n * 2;
    }
    return Fits(n);
  }

  /** The caller's table, and the storage it lives in. */
  class Table {
    var lines: array<Ref>
    var buf: array<char>
    var capacity: nat
    ghost var live: set<array<char>>

    /** Every slot below the capacity refers to its own 81 bytes of the live buffer. */
    ghost predicate Valid()
      reads this, lines
    {
      && 0 < capacity <= INT_MAX && capacity <= lines.Length && buf.Length == capacity * STRIDE
      && buf in live
      && forall i :: 0 <= i < capacity ==> lines[i] == At(buf, STRIDE * i)
    }

    constructor (capacity: nat)
      requires 0 < capacity <= INT_MAX
      ensures Valid() && this.capacity == capacity && fresh(lines) && fresh(buf)
    {
      this.capacity := capacity;
      var b := new char[capacity * STRIDE](i => '\0');
      buf, live := b, {b};
      lines := new Ref[capacity](i requires i >= 0 => At(b, STRIDE * i));
    }

    /** realloc() of the pointer array, which an earlier failure may have left longer: what is in use is kept. */
    method ResizeLines(n: nat) returns (r: array<Ref>)
      requires capacity <= n && capacity <= lines.Length
      ensures fresh(r) && r.Length == n && forall i :: 0 <= i < capacity ==> r[i] == lines[i]
    {
      var old_ := lines;
      r := new Ref[n](i reads old_ => if 0 <= i < old_.Length then old_[i] else Unset);
    }

    /** realloc() of the line buffer: the old block is gone once a new one is returned. */
    method ResizeBuf(n: nat) returns (r: array<char>)
      requires n >= buf.Length && buf in live
      modifies this`live
      ensures fresh(r) && r.Length == n && r[..buf.Length] == buf[..] && live == old(live) - {buf} + {r}
    {
      var old_ := buf;
      r := new char[n](i reads old_ => if 0 <= i < old_.Length then old_[i] else '?');
      live := live - {buf} + {r};
    }

    /** grow_lines_arrays(): linesOk and bufOk say what the two requests for storage are answered. */
    method Grow(required: nat, linesOk: bool, bufOk: bool) returns (rc: int)
      requires Valid()
      modifies this
      ensures Valid() && (rc == 0 || rc == -1)
      ensures rc == 0 <==> required <= old(capacity) || (Doubled(old(capacity), required).Fits? && linesOk && bufOk)
      ensures rc == 0 ==> capacity >= required && capacity >= old(capacity)
      ensures rc == 0 ==> buf[..old(buf.Length)] == old(buf[..])
      ensures rc == 0 ==> forall i :: old(buf.Length) <= i < buf.Length ==> buf[i] == '\0'
      ensures rc != 0 ==> capacity == old(capacity) && buf == old(buf) && buf[..] == old(buf[..]) && live == old(live)
      ensures live == old(live) - {old(buf)} + {buf}
    {
      if required <= capacity {
        return 0;
      }
      var size := Double(capacity, required);
      if size.Overflow? {
        return -1;
      }
      var n := size.capacity;
      if !linesOk {
        return -1;
      }
      var newLines := ResizeLines(n);
      if !bufOk {
        lines := newLines;
        return -1;
      }
      ghost var was := buf[..];
      var newBuf := ResizeBuf(n * STRIDE);
      Clear(newBuf, capacity * STRIDE);
      Refer(newLines, newBuf, n);
      buf, lines, capacity := newBuf, newLines, n;
      return 0;
    }
  }

  /** memset() of what was added. */
  method Clear(b: array<char>, from: nat)
    requires from <= b.Length
    modifies b
    ensures b[..from] == old(b[..from]) && forall i :: from <= i < b.Length ==> b[i] == '\0'
  {
    for i := from to b.Length
      invariant b[..from] == old(b[..from]) && forall k :: from <= k < i ==> b[k] == '\0'
    {
      b[i] := '\0';
    }
  }

  method Refer(lines: array<Ref>, b: array<char>, n: nat)
    requires n <= lines.Length
    modifies lines
    ensures forall i :: 0 <= i < n ==> lines[i] == At(b, STRIDE * i)
  {
    for i := 0 to n
      invariant forall k :: 0 <= k < i ==> lines[k] == At(b, STRIDE * k)
    {
      lines[i] := At(b, STRIDE * i);
    }
  }
}
