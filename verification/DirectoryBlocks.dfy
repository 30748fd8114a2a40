// The blocks of a library's directory as they are laid out, and that the walk of
// src/dsapi.c reads exactly the names put into them.
module DirectoryBlocks {
  import opened Paging

  /** An entry: its name, where the member stands, three more bits, and user data of so many halfwords. */
  datatype Member = Member(name: string, ttr: string, bits: nat, data: string)

  function HighName(): string { "\U{FF}\U{FF}\U{FF}\U{FF}\U{FF}\U{FF}\U{FF}\U{FF}" }

  predicate Proper(m: Member)
  {
    && |m.name| == 8 && m.name != HighName() && |m.ttr| == 3 && m.bits < 8
    && |m.data| % 2 == 0 && |m.data| <= 62
  }

  /** The twelfth byte tells the halfwords of user data in its low five bits. */
  function Printed(m: Member): (s: string)
    requires Proper(m)
    ensures |s| == 12 + |m.data|
  {
    m.name + m.ttr + [(m.bits * 32 + |m.data| / 2) as char] + m.data
  }

  ghost predicate AllProper(ms: seq<Member>) { forall i :: 0 <= i < |ms| ==> Proper(ms[i]) }

  function PrintedAll(ms: seq<Member>): string
    requires AllProper(ms)
  {
    if ms == [] then "" else Printed(ms[0]) + PrintedAll(ms[1..])
  }

  function NamesOf(ms: seq<Member>): seq<string>
  {
    if ms == [] then [] else [ms[0].name] + NamesOf(ms[1..])
  }

  /** A block: entries, what stands behind them within the length in use, and what lies behind that. */
  datatype Block = Block(members: seq<Member>, tail: string, rest: string)

  /** The end mark: a name of all ones, as long as an entry. */
  predicate Marked(tail: string) { |tail| >= 12 && tail[..8] == HighName() }

  /** Behind the entries stands the end mark, or less than an entry. */
  ghost predicate WellFormed(b: Block)
  {
    && AllProper(b.members) && (Marked(b.tail) || |b.tail| < 12)
    && 2 + |PrintedAll(b.members)| + |b.tail| < 0x1_0000
  }

  /** The first two bytes are the length in use. */
  function PrintedBlock(b: Block): string
    requires WellFormed(b)
  {
    var body := PrintedAll(b.members) + b.tail;
    var used := 2 + |body|;
    [(used / 256) as char, (used % 256) as char] + (body + b.rest)
  }

  /** The entry at pos, and what is read behind it. */
  lemma EntryRead(blk: string, pos: nat, m: Member, behind: string)
    requires Proper(m) && pos + 12 <= Used(blk) && blk[pos..Used(blk)] == Printed(m) + behind
    ensures !EndMark(blk, pos) && EntrySize(blk, pos) == |Printed(m)| && blk[pos..pos + 8] == m.name
    ensures pos + |Printed(m)| <= Used(blk) && blk[pos + |Printed(m)|..Used(blk)] == behind
  {
    hide Used, EndMark, EntrySize;
    var t := Printed(m) + behind;
    assert forall i :: 0 <= i < |t| ==> blk[pos + i] == t[i];
    PrintedParts(m, behind);
    IndicatorRead(m.bits, |m.data|);
    assert blk[pos..pos + 8] == t[..8];
    SizeRead(blk, pos, m);
    MarkRead(blk, pos, m.name);
  }

  lemma PrintedParts(m: Member, behind: string)
    requires Proper(m)
    ensures var t := Printed(m) + behind;
            t[..8] == m.name && t[11] == (m.bits * 32 + |m.data| / 2) as char && t[|Printed(m)|..] == behind
  {
  }

  /** The low five bits count halfwords. */
  lemma IndicatorRead(bits: nat, n: nat)
    requires bits < 8 && n % 2 == 0 && n <= 62
    ensures bits * 32 + n / 2 < 256 && (bits * 32 + n / 2) % 32 * 2 == n
  {
  }

  lemma SizeRead(blk: string, pos: nat, m: Member)
    requires Proper(m) && pos + 12 <= |blk| && blk[pos + 11] == (m.bits * 32 + |m.data| / 2) as char
    requires (m.bits * 32 + |m.data| / 2) % 32 * 2 == |m.data|
    ensures EntrySize(blk, pos) == 12 + |m.data|
  {
  }

  lemma MarkRead(blk: string, pos: nat, name: string)
    requires |name| == 8 && name != HighName() && pos + 8 <= |blk| && blk[pos..pos + 8] == name
    ensures !EndMark(blk, pos)
  {
    assert forall i :: 0 <= i < 8 ==> name[i] == blk[pos + i];
    assert EndMark(blk, pos) ==> name == HighName();
  }

  lemma {:induction false} EntriesRead(blk: string, pos: nat, ms: seq<Member>, tail: string)
    requires AllProper(ms) && (Marked(tail) || |tail| < 12)
    requires pos <= Used(blk) && blk[pos..Used(blk)] == PrintedAll(ms) + tail
    ensures EntriesFrom(blk, pos) == (NamesOf(ms), Marked(tail))
    decreases |ms|
  {
    hide Used, EndMark, EntrySize;
    if ms == [] {
      assert PrintedAll(ms) + tail == tail;
      TailRead(blk, pos, tail);
    } else {
      var behind := PrintedAll(ms[1..]) + tail;
      assert PrintedAll(ms) + tail == Printed(ms[0]) + behind;
      EntryRead(blk, pos, ms[0], behind);
      EntriesRead(blk, pos + |Printed(ms[0])|, ms[1..], tail);
    }
  }

  lemma TailRead(blk: string, pos: nat, tail: string)
    requires (Marked(tail) || |tail| < 12) && pos <= Used(blk) && blk[pos..Used(blk)] == tail
    ensures EntriesFrom(blk, pos) == ([], Marked(tail))
  {
    hide Used;
    if Marked(tail) {
      assert forall i :: 0 <= i < 8 ==> blk[pos + i] == tail[i] == tail[..8][i];
    }
  }

  /** The length in use is read from the first two bytes. */
  lemma UsedRead(b: Block)
    requires WellFormed(b)
    ensures var blk, body := PrintedBlock(b), PrintedAll(b.members) + b.tail;
            Used(blk) == 2 + |body| && blk[2..Used(blk)] == body
  {
  }

  /** Exactly the names put in are read, whatever the user data, the tail and the rest of the block. */
  lemma BlockRead(b: Block)
    requires WellFormed(b)
    ensures EntriesFrom(PrintedBlock(b), 2) == (NamesOf(b.members), Marked(b.tail))
  {
    UsedRead(b);
    EntriesRead(PrintedBlock(b), 2, b.members, b.tail);
  }

  ghost predicate AllWellFormed(bs: seq<Block>) { forall i :: 0 <= i < |bs| ==> WellFormed(bs[i]) }

  function PrintedBlocks(bs: seq<Block>): seq<string>
    requires AllWellFormed(bs)
  {
    if bs == [] then [] else [PrintedBlock(bs[0])] + PrintedBlocks(bs[1..])
  }

  /** The names of all blocks up to the one with the end mark. */
  function AllNames(bs: seq<Block>): seq<string>
  {
    if bs == [] then [] else NamesOf(bs[0].members) + if Marked(bs[0].tail) then [] else AllNames(bs[1..])
  }

  /** So the directory is its members, in order. */
  lemma {:induction false} DirectoryRead(bs: seq<Block>)
    requires AllWellFormed(bs)
    ensures Directory(PrintedBlocks(bs)) == AllNames(bs)
    decreases |bs|
  {
    if bs != [] {
      hide EntriesFrom, Marked, PrintedBlock, WellFormed;
      BlockRead(bs[0]);
      assert PrintedBlock(bs[0]) != [] by { UsedRead(bs[0]); }
      DirectoryRead(bs[1..]);
      assert PrintedBlocks(bs)[1..] == PrintedBlocks(bs[1..]);
    }
  }
}
