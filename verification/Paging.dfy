// The listings of src/dsapi.c: data sets from a sorted list, members from the
// blocks of a directory. Both answer the first page of the names at or after start=.
module Paging {
  import opened Texts
  import opened Wrappers
  import opened QueryKeys
  import Glob

  // --- pages of a list ---------------------------------------------------------------------

  /** The names a request selects, in order. */
  function Selected(ns: seq<string>, key: Option<Key>, want: string -> bool): seq<string>
  {
    if ns == [] then [] else
    (if InPage(ns[0], key) && want(ns[0]) then [ns[0]] else []) + Selected(ns[1..], key, want)
  }

  /** What goes out of them; 0 is no limit. */
  function Page(ms: seq<string>, max: nat): seq<string> { if max == 0 || |ms| <= max then ms else ms[..max] }

  predicate More(ms: seq<string>, max: nat) { max > 0 && |ms| > max }

  ghost predicate Ascending(ns: seq<string>) { forall i, j :: 0 <= i < j < |ns| ==> Before(ns[i], ns[j]) }

  lemma {:induction false} SelectedSum(a: seq<string>, b: seq<string>, key: Option<Key>, want: string -> bool)
    ensures Selected(a + b, key, want) == Selected(a, key, want) + Selected(b, key, want)
    decreases |a|
  {
    hide InPage;
    if a == [] {
      assert a + b == b;
    } else {
      assert (a + b)[0] == a[0] && (a + b)[1..] == a[1..] + b;
      SelectedSum(a[1..], b, key, want);
    }
  }

  // --- the list of data sets -------------------------------------------------------------------

  /** The array after qsort() with dslist_cmp(): by name, holes last. */
  ghost predicate Sorted(list: seq<Option<string>>)
  {
    forall i, j :: 0 <= i < j < |list| && list[j].Some? ==> list[i].Some? && !Before(list[j].value, list[i].value)
  }

  function Names(list: seq<Option<string>>): seq<string>
  {
    if list == [] then [] else (if list[0].Some? then [list[0].value] else []) + Names(list[1..])
  }

  lemma {:induction false} NamesSum(a: seq<Option<string>>, b: seq<Option<string>>)
    ensures Names(a + b) == Names(a) + Names(b)
    decreases |a|
  {
    if a == [] {
      assert a + b == b;
    } else {
      assert (a + b)[0] == a[0] && (a + b)[1..] == a[1..] + b;
      NamesSum(a[1..], b);
    }
  }

  lemma {:induction false} NameIn(list: seq<Option<string>>, k: nat) returns (j: nat)
    requires k < |Names(list)|
    ensures j < |list| && list[j] == Some(Names(list)[k])
  {
    if list[0].Some? && k == 0 {
      j := 0;
    } else {
      var i := NameIn(list[1..], if list[0].Some? then k - 1 else k);
      j := i + 1;
    }
  }

  /** Sorted, and each name catalogued once: the names ascend. */
  lemma {:induction false} SortedAscends(list: seq<Option<string>>)
    requires Sorted(list)
    requires forall i, j :: 0 <= i < j < |list| && list[i].Some? && list[j].Some? ==> list[i] != list[j]
    ensures Ascending(Names(list))
    decreases |list|
  {
    if list != [] {
      var rest := list[1..];
      SortedAscends(rest);
      var names := Names(list);
      forall k | 0 <= k < |Names(rest)|
        ensures list[0].Some? && Before(list[0].value, Names(rest)[k])
      {
        var j := NameIn(rest, k);
        assert list[j + 1] == rest[j];
        Trichotomy(list[0].value, Names(rest)[k]);
      }
      if list[0].Some? {
        assert names == [list[0].value] + Names(rest);
      }
    }
  }

  const ANY := (name: string) => true

  function Chosen(list: seq<Option<string>>, key: Option<Key>): seq<string>
  {
    Selected(Names(list), key, ANY)
  }

  /** One more entry of the array. */
  lemma ChosenStep(list: seq<Option<string>>, i: nat, key: Option<Key>)
    requires i < |list|
    ensures Chosen(list[..i + 1], key)
         == Chosen(list[..i], key) + if list[i].Some? && InPage(list[i].value, key) then [list[i].value] else []
    ensures Chosen(list[..i + 1], key) <= Chosen(list, key)
  {
    assert list[..i + 1] == list[..i] + [list[i]];
    NamesSum(list[..i], [list[i]]);
    var one := Names([list[i]]);
    assert [list[i]][1..] == [];
    assert one == if list[i].Some? then [list[i].value] else [];
    SelectedSum(Names(list[..i]), one, key, ANY);
    assert one != [] ==> one[1..] == [];
    assert list == list[..i + 1] + list[i + 1..];
    NamesSum(list[..i + 1], list[i + 1..]);
    SelectedSum(Names(list[..i + 1]), Names(list[i + 1..]), key, ANY);
  }

  /** The counting and the emitting loop of datasetListHandler(). */
  method ListDataSets(list: array<Option<string>>, key: Option<Key>, max: nat) returns (items: seq<string>, more: bool)
    ensures items == Page(Chosen(list[..], key), max)
    ensures more <==> More(Chosen(list[..], key), max)
  {
    hide Chosen, InPage;
    ghost var all := list[..];
    var eligible := 0;
    EmptyChosen(key);
    for i := 0 to list.Length
      invariant eligible == |Chosen(all[..i], key)|
    {
      ChosenStep(all, i, key);
      if list[i].Some? && InPage(list[i].value, key) {
        eligible := eligible + 1;
      }
    }
    assert all[..list.Length] == all;
    items := [];
    var i := 0;
    while i < list.Length
      invariant 0 <= i <= list.Length
      invariant items == Chosen(all[..i], key) && (max > 0 ==> |items| <= max)
    {
      ChosenStep(all, i, key);
      if list[i].None? || !InPage(list[i].value, key) {
        i := i + 1;
        continue;
      }
      if max > 0 && |items| >= max {
        break;
      }
      items := items + [list[i].value];
      i := i + 1;
    }
    more := |items| < eligible;
  }

  lemma EmptyChosen(key: Option<Key>)
    ensures forall list: seq<Option<string>> :: Chosen(list[..0], key) == []
  {
  }

  // --- the directory of a library --------------------------------------------------------------

  const NAME_LEN := 8
  const ENTRY_FIXED := 12
  const UDATA_MASK := 32
  const UINT_MAX := 0xFFFF_FFFF

  /** How much of a block is in use: never more than was read. */
  function Used(blk: string): (u: nat)
    ensures u <= |blk|
  {
    if |blk| < 2 then |blk| else
    var u := blk[0] as int * 256 + blk[1] as int;
    if u > |blk| then |blk| else u
  }

  predicate EndMark(blk: string, pos: nat)
    requires pos + NAME_LEN <= |blk|
  {
    forall i :: pos <= i < pos + NAME_LEN ==> blk[i] == 255 as char
  }

  function EntrySize(blk: string, pos: nat): (n: nat)
    requires pos + ENTRY_FIXED <= |blk|
    ensures n >= ENTRY_FIXED
  {
    ENTRY_FIXED + blk[pos + 11] as int % UDATA_MASK * 2
  }

  /** The names of a block from pos on, and whether the directory ends in it. */
  function EntriesFrom(blk: string, pos: nat): (r: (seq<string>, bool))
    ensures forall i :: 0 <= i < |r.0| ==> |r.0[i]| == NAME_LEN
    decreases |blk| - pos
  {
    if pos + ENTRY_FIXED > Used(blk) then ([], false)
    else if EndMark(blk, pos) then ([], true)
    else
      var rest := EntriesFrom(blk, pos + EntrySize(blk, pos));
      ([blk[pos..pos + NAME_LEN]] + rest.0, rest.1)
  }

  /** The names of a directory: as far as the end mark, or an empty block. */
  function Directory(blocks: seq<string>): (ns: seq<string>)
    ensures forall i :: 0 <= i < |ns| ==> |ns[i]| == NAME_LEN
  {
    if blocks == [] || blocks[0] == [] then [] else
    var (ns, end) := EntriesFrom(blocks[0], 2);
    ns + if end then [] else Directory(blocks[1..])
  }

  /** The key as the directory holds names. */
  function MemberKey(k: Option<Key>): Option<Key>
  {
    if k.None? then None else Some(Key(Padded(k.value.text, NAME_LEN), k.value.cut))
  }

  /** The pattern of a request, if any, on the name as the client sees it. */
  function Wanted(pattern: Option<string>): string -> bool
  {
    (name: string) => pattern.None? || Glob.Scan(pattern.value, 0, TrimRight(name), 0, Glob.NoStar)
  }

  /** The state of the walk: still before the start, matches seen, names written. */
  datatype Walk = Walk(skipping: bool, seen: nat, out: seq<string>)

  function Bound(page: nat): nat { if 0 < page < UINT_MAX then page + 1 else 0 }

  predicate Done(w: Walk, page: nat) { Bound(page) > 0 && w.seen >= Bound(page) }

  /** One entry: skip, filter, count, write. */
  function Entry(w: Walk, name: string, key: Option<Key>, want: string -> bool, page: nat): Walk
  {
    if w.skipping && !InPage(name, key) then w
    else if !want(name) then w.(skipping := false)
    else Walk(false, w.seen + 1, if page == 0 || w.seen + 1 <= page then w.out + [name] else w.out)
  }

  /** The walk over names, which stops once it has seen one match past the page. */
  function Walked(w: Walk, ns: seq<string>, key: Option<Key>, want: string -> bool, page: nat): Walk
    decreases |ns|
  {
    if ns == [] || Done(w, page) then w else Walked(Entry(w, ns[0], key, want, page), ns[1..], key, want, page)
  }

  lemma {:induction false} WalkedSum(w: Walk, a: seq<string>, b: seq<string>, key: Option<Key>,
      want: string -> bool, page: nat)
    ensures Walked(w, a + b, key, want, page) == Walked(Walked(w, a, key, want, page), b, key, want, page)
    decreases |a|
  {
    hide Entry, Done;
    if a == [] {
      assert a + b == b;
    } else if !Done(w, page) {
      assert (a + b)[0] == a[0] && (a + b)[1..] == a[1..] + b;
      WalkedSum(Entry(w, a[0], key, want, page), a[1..], b, key, want, page);
    }
  }

  method MatchName(name: string, pattern: Option<string>) returns (matched: bool)
    ensures matched == Wanted(pattern)(name)
  {
    matched := true;
    if pattern.Some? {
      matched := Glob.MemberMatch(TrimRight(name), pattern.value);
    }
  }

  /** member_scan() on one block: the walk goes on over its entries, until the mark or one past the page. */
  method ScanBlock(blk: string, w0: Walk, key: Option<Key>, pattern: Option<string>, page: nat)
      returns (w: Walk, end: bool)
    requires !Done(w0, page)
    ensures w == Walked(w0, EntriesFrom(blk, 2).0, key, Wanted(pattern), page)
    ensures end <==> Done(w, page) || EntriesFrom(blk, 2).1
  {
    hide Wanted, InPage, EndMark, Walked, EntriesFrom, Used;
    ghost var want := Wanted(pattern);
    var pos := 2;
    w := w0;
    while pos + ENTRY_FIXED <= Used(blk)
      invariant pos >= 2 && !Done(w, page)
      invariant Walked(w, EntriesFrom(blk, pos).0, key, want, page)
                == Walked(w0, EntriesFrom(blk, 2).0, key, want, page)
      invariant EntriesFrom(blk, pos).1 == EntriesFrom(blk, 2).1
      decreases |blk| - pos
    {
      if EndMark(blk, pos) {
        BlockEnd(blk, pos, w, key, want, page);
        return w, true;
      }
      var size := EntrySize(blk, pos);
      var name := blk[pos..pos + NAME_LEN];
      ghost var next := Entry(w, name, key, want, page);
      FirstEntry(blk, pos, w, key, want, page);
      if w.skipping {
        if !InPage(name, key) {
          pos := pos + size;
          continue;
        }
        w := w.(skipping := false);
      }
      var matched := MatchName(name, pattern);
      if !matched {
        pos := pos + size;
        continue;
      }
      w := w.(seen := w.seen + 1);
      if page == 0 || w.seen <= page {
        w := w.(out := w.out + [name]);
      }
      if Done(w, page) {
        WalkedStep(w, EntriesFrom(blk, pos + size).0, key, want, page);
        return w, true;
      }
      pos := pos + size;
    }
    BlockEnd(blk, pos, w, key, want, page);
    return w, false;
  }

  lemma BlockEnd(blk: string, pos: nat, w: Walk, key: Option<Key>, want: string -> bool, page: nat)
    requires pos + ENTRY_FIXED > Used(blk) || EndMark(blk, pos)
    ensures EntriesFrom(blk, pos).1 <==> pos + ENTRY_FIXED <= Used(blk)
    ensures Walked(w, EntriesFrom(blk, pos).0, key, want, page) == w
  {
    hide EndMark;
  }

  lemma FirstEntry(blk: string, pos: nat, w: Walk, key: Option<Key>, want: string -> bool, page: nat)
    requires pos + ENTRY_FIXED <= Used(blk) && !EndMark(blk, pos) && !Done(w, page)
    ensures var next := Entry(w, blk[pos..pos + NAME_LEN], key, want, page);
            && Walked(w, EntriesFrom(blk, pos).0, key, want, page)
                 == Walked(next, EntriesFrom(blk, pos + EntrySize(blk, pos)).0, key, want, page)
            && EntriesFrom(blk, pos).1 == EntriesFrom(blk, pos + EntrySize(blk, pos)).1
  {
    hide EndMark, Done, Entry;
    var names := EntriesFrom(blk, pos).0;
    assert names[0] == blk[pos..pos + NAME_LEN] && names[1..] == EntriesFrom(blk, pos + EntrySize(blk, pos)).0;
  }

  /** member_scan(): block by block. */
  method ScanMembers(blocks: seq<string>, key: Option<Key>, pattern: Option<string>, page: nat)
    returns (seen: nat, out: seq<string>)
    ensures var w := Walked(Walk(key.Some?, 0, []), Directory(blocks), key, Wanted(pattern), page);
            seen == w.seen && out == w.out
  {
    hide Wanted, Entry, EntriesFrom, Walked, Directory;
    WalkedStep(Walk(key.Some?, 0, []), [], key, Wanted(pattern), page);
    ghost var want := Wanted(pattern);
    ghost var all := Walked(Walk(key.Some?, 0, []), Directory(blocks), key, want, page);
    var w, i := Walk(key.Some?, 0, []), 0;
    while i < |blocks| && blocks[i] != []
      invariant 0 <= i <= |blocks| && !Done(w, page)
      invariant Walked(w, Directory(blocks[i..]), key, want, page) == all
    {
      NextBlock(blocks, i, w, key, want, page);
      ghost var was := w;
      var end;
      w, end := ScanBlock(blocks[i], w, key, pattern, page);
      if end {
        return w.seen, w.out;
      }
      i := i + 1;
    }
    DirectoryEnd(blocks, i);
    WalkedStep(w, [], key, want, page);
    return w.seen, w.out;
  }

  lemma DirectoryEnd(blocks: seq<string>, i: nat)
    requires i <= |blocks| && (i < |blocks| ==> blocks[i] == [])
    ensures Directory(blocks[i..]) == [] && blocks[0..] == blocks
  {
  }

  lemma NextBlock(blocks: seq<string>, i: nat, w: Walk, key: Option<Key>, want: string -> bool, page: nat)
    requires i < |blocks| && blocks[i] != []
    ensures var (ns, end) := EntriesFrom(blocks[i], 2);
            var next := Walked(w, ns, key, want, page);
            Walked(w, Directory(blocks[i..]), key, want, page)
              == if end || Done(next, page) then next else Walked(next, Directory(blocks[i + 1..]), key, want, page)
  {
    hide Entry, EntriesFrom, Done;
    var (ns, end) := EntriesFrom(blocks[i], 2);
    var rest := if end then [] else Directory(blocks[i + 1..]);
    assert blocks[i..][1..] == blocks[i + 1..];
    assert Directory(blocks[i..]) == ns + rest;
    WalkedSum(w, ns, rest, key, want, page);
  }

  // --- what the walk finds -----------------------------------------------------------------------

  /** Behind the start, the rest of an ascending directory is selected as it comes. */
  lemma {:induction false} AllBehind(h: string, ns: seq<string>, key: Option<Key>, want: string -> bool)
    requires InPage(h, key) && forall i :: 0 <= i < |ns| ==> Before(h, ns[i])
    ensures forall i :: 0 <= i < |ns| ==> InPage(ns[i], key)
  {
    forall i | 0 <= i < |ns|
      ensures InPage(ns[i], key)
    {
      if key.Some? {
        StaysInPage(h, ns[i], key.value);
      }
    }
  }

  lemma StaysInPage(h: string, n: string, key: Key)
    requires InPage(h, Some(key)) && Before(h, n)
    ensures InPage(n, Some(key)) && n != key.text
  {
    hide Before;
    Trichotomy(h, key.text);
    Trichotomy(n, key.text);
    Trichotomy(h, n);
    if Before(n, key.text) || n == key.text {
      Transitive(h, n, key.text);
    }
  }

  /** How many matches the walk sees of n. */
  function Seen(n: nat, page: nat): nat { if Bound(page) > 0 then Least(n, Bound(page)) else n }

  lemma PageSum(found: seq<string>, ms: seq<string>, page: nat)
    ensures page > 0 && |found| >= page ==> Page(found + ms, page) == Page(found, page)
    ensures page == 0 || |found| < page ==> Page(found, page) == found
  {
  }

  /** found are the matches so far, all of them seen and the page of them written. */
  ghost predicate Tally(w: Walk, found: seq<string>, page: nat)
  {
    w.seen == |found| && w.out == Page(found, page) && (Bound(page) > 0 ==> |found| <= Bound(page))
  }

  lemma EntryTallies(w: Walk, found: seq<string>, name: string, key: Option<Key>, want: string -> bool, page: nat)
    requires Tally(w, found, page) && !Done(w, page) && (page >= UINT_MAX ==> |found| < page)
    requires !w.skipping ==> InPage(name, key)
    ensures var next := Entry(w, name, key, want, page);
            && Tally(next, if InPage(name, key) && want(name) then found + [name] else found, page)
            && (!next.skipping ==> InPage(name, key))
  {
    hide InPage;
    PageSum(found, [name], page);
  }

  lemma TallyDone(w: Walk, found: seq<string>, ms: seq<string>, page: nat)
    requires Tally(w, found, page) && (Done(w, page) || ms == [])
    ensures w.seen == Seen(|found + ms|, page) && w.out == Page(found + ms, page)
  {
    assert ms == [] ==> found + ms == found;
    PageSum(found, ms, page);
  }

  /** From any state of the walk, with found the matches so far. */
  lemma {:induction false} WalkSelects(w: Walk, found: seq<string>, ns: seq<string>, key: Option<Key>,
      want: string -> bool, page: nat)
    requires Ascending(ns) && (!w.skipping ==> forall i :: 0 <= i < |ns| ==> InPage(ns[i], key))
    requires Tally(w, found, page) && (page >= UINT_MAX ==> |found| + |ns| <= page)
    ensures var r, ms := Walked(w, ns, key, want, page), Selected(ns, key, want);
            r.seen == Seen(|found + ms|, page) && r.out == Page(found + ms, page)
    decreases |ns|
  {
    hide InPage, Selected, Walked, Entry, Page, Tally, Done, Seen, Before;
    WalkedStep(w, ns, key, want, page);
    if ns == [] || Done(w, page) {
      TallyDone(w, found, Selected(ns, key, want), page);
    } else {
      var h, rest := ns[0], ns[1..];
      var next := Entry(w, h, key, want, page);
      var more := Selected(rest, key, want);
      AscendingRest(ns);
      if InPage(h, key) {
        AllBehind(h, rest, key, want);
      }
      EntryTallies(w, found, h, key, want, page);
      if InPage(h, key) && want(h) {
        WalkSelects(next, found + [h], rest, key, want, page);
        assert found + ([h] + more) == found + [h] + more;
      } else {
        WalkSelects(next, found, rest, key, want, page);
        assert [] + more == more;
      }
    }
  }

  lemma SelectedStep(ns: seq<string>, key: Option<Key>, want: string -> bool)
    requires ns != []
    ensures Selected(ns, key, want)
         == (if InPage(ns[0], key) && want(ns[0]) then [ns[0]] else []) + Selected(ns[1..], key, want)
  {
  }

  lemma WalkedStep(w: Walk, ns: seq<string>, key: Option<Key>, want: string -> bool, page: nat)
    ensures Walked(w, ns, key, want, page)
         == if ns == [] || Done(w, page) then w else Walked(Entry(w, ns[0], key, want, page), ns[1..], key, want, page)
    ensures Selected(ns, key, want)
         == if ns == [] then [] else
            (if InPage(ns[0], key) && want(ns[0]) then [ns[0]] else []) + Selected(ns[1..], key, want)
  {
  }

  /**
   * memberListHandler(): of an ascending directory the page is the first matches at or
   * after the start, and one match past it is seen exactly if there is one.
   */
  lemma ScanFindsPage(blocks: seq<string>, key: Option<Key>, pattern: Option<string>, page: nat)
    requires Ascending(Directory(blocks)) && (page >= UINT_MAX ==> |Directory(blocks)| <= page)
    ensures var w := Walked(Walk(key.Some?, 0, []), Directory(blocks), key, Wanted(pattern), page);
            var ms := Selected(Directory(blocks), key, Wanted(pattern));
            && w.out == Page(ms, page)
            && (page < UINT_MAX ==> (page > 0 && w.seen > page <==> More(ms, page)))
            && |w.out| == if page > 0 && w.seen > page then page else w.seen
  {
    hide Directory, Wanted, Selected, Walked;
    var ms := Selected(Directory(blocks), key, Wanted(pattern));
    assert [] + ms == ms;
    WalkSelects(Walk(key.Some?, 0, []), [], Directory(blocks), key, Wanted(pattern), page);
  }

  // --- the client ------------------------------------------------------------------------------

  /** What a client collects that asks again from the last name it got, as often as more is announced. */
  function Collected(ns: seq<string>, key: Option<Key>, want: string -> bool, max: nat,
      back: string -> Option<Key>): seq<string>
    requires Ascending(ns) && max >= 2 && Returns(ns, back)
    decreases |Selected(ns, key, want)|
  {
    var ms := Selected(ns, key, want);
    if !More(ms, max) then Page(ms, max) else
    NextPage(ns, key, want, max - 1);
    var last := Page(ms, max)[max - 1];
    SelectedIn(ns, key, want, max - 1);
    var rest := Collected(ns, back(last), want, max, back);
    Page(ms, max) + if rest == [] then [] else rest[1..]
  }

  /** A name a client got comes back as the key it is. */
  ghost predicate Returns(ns: seq<string>, back: string -> Option<Key>)
  {
    forall n :: n in ns ==> back(n) == Some(Key(n, false))
  }

  lemma {:induction false} SelectedIn(ns: seq<string>, key: Option<Key>, want: string -> bool, k: nat)
    requires k < |Selected(ns, key, want)|
    ensures Selected(ns, key, want)[k] in ns && InPage(Selected(ns, key, want)[k], key)
            && want(Selected(ns, key, want)[k])
    decreases |ns|
  {
    hide InPage;
    if InPage(ns[0], key) && want(ns[0]) {
      if k > 0 {
        SelectedIn(ns[1..], key, want, k - 1);
      }
    } else {
      SelectedIn(ns[1..], key, want, k);
    }
  }

  lemma {:induction false} SelectedAlike(ns: seq<string>, key: Option<Key>, other: Option<Key>, want: string -> bool)
    requires forall i :: 0 <= i < |ns| ==> InPage(ns[i], key) && InPage(ns[i], other)
    ensures Selected(ns, key, want) == Selected(ns, other, want)
    decreases |ns|
  {
    hide InPage;
    if ns != [] {
      SelectedAlike(ns[1..], key, other, want);
    }
  }

  /** Asked again from one of the names selected, the rest from it on is selected. */
  lemma {:induction false} NextPage(ns: seq<string>, key: Option<Key>, want: string -> bool, k: nat)
    requires Ascending(ns) && k < |Selected(ns, key, want)|
    ensures var ms := Selected(ns, key, want); Selected(ns, Some(Key(ms[k], false)), want) == ms[k..]
    decreases |ns|
  {
    hide InPage, Selected, Before;
    NotEmpty(ns, key, want);
    var ms := Selected(ns, key, want);
    var h, rest := ns[0], ns[1..];
    var from := Some(Key(ms[k], false));
    var more := Selected(rest, key, want);
    AscendingRest(ns);
    SelectedStep(ns, key, want);
    SelectedStep(ns, from, want);
    if InPage(h, key) && want(h) {
      AllBehind(h, rest, key, want);
      assert ms == [h] + more;
      if k == 0 {
        OwnPage(h);
        AllBehind(h, rest, from, want);
        SelectedAlike(rest, key, from, want);
        assert ms[0..] == ms;
      } else {
        assert ms[k] == more[k - 1];
        SelectedIn(rest, key, want, k - 1);
        NotYet(h, ms[k]);
        NextPage(rest, key, want, k - 1);
        assert ms[k..] == more[k - 1..];
        assert [] + Selected(rest, from, want) == Selected(rest, from, want);
      }
    } else {
      assert ms == [] + more == more;
      SelectedIn(rest, key, want, k);
      NotYet(h, ms[k]);
      NextPage(rest, key, want, k);
      assert [] + Selected(rest, from, want) == Selected(rest, from, want);
    }
  }

  lemma NotEmpty(ns: seq<string>, key: Option<Key>, want: string -> bool)
    requires Selected(ns, key, want) != []
    ensures ns != []
  {
  }

  lemma AscendingRest(ns: seq<string>)
    requires Ascending(ns) && ns != []
    ensures Ascending(ns[1..]) && forall i :: 0 <= i < |ns| - 1 ==> Before(ns[0], ns[1..][i])
  {
  }

  lemma OwnPage(h: string)
    ensures InPage(h, Some(Key(h, false)))
  {
    Trichotomy(h, h);
  }

  lemma NotYet(h: string, n: string)
    requires Before(h, n)
    ensures !InPage(h, Some(Key(n, false)))
  {
  }

  /** From two names a page on, paging loses nothing and repeats nothing. */
  lemma {:induction false} CollectsAll(ns: seq<string>, key: Option<Key>, want: string -> bool, max: nat,
      back: string -> Option<Key>)
    requires Ascending(ns) && max >= 2 && Returns(ns, back)
    ensures Collected(ns, key, want, max, back) == Selected(ns, key, want)
    decreases |Selected(ns, key, want)|
  {
    hide InPage, Selected;
    var ms := Selected(ns, key, want);
    if More(ms, max) {
      NextPage(ns, key, want, max - 1);
      SelectedIn(ns, key, want, max - 1);
      CollectsAll(ns, Some(Key(ms[max - 1], false)), want, max, back);
    }
  }

  /** With one name a page and more than one match, more is announced and the same page given for ever. */
  lemma StuckAtOne(ns: seq<string>, key: Option<Key>, want: string -> bool)
    requires Ascending(ns) && Selected(ns, key, want) != []
    ensures var ms := Selected(ns, key, want);
            && Selected(ns, Some(Key(Page(ms, 1)[0], false)), want) == ms
            && (More(ms, 1) <==> |ms| > 1)
  {
    NextPage(ns, key, want, 0);
  }

  /** What a client has collected once no more is announced, if it comes to that within so many requests. */
  function Asked(ns: seq<string>, key: Option<Key>, want: string -> bool, max: nat, back: string -> Option<Key>,
      requests: nat): Option<seq<string>>
    decreases requests
  {
    if requests == 0 then None else
    var ms := Selected(ns, key, want);
    if !More(ms, max) then Some(Page(ms, max)) else
    var rest := Asked(ns, back(Page(ms, max)[max - 1]), want, max, back, requests - 1);
    if rest.None? then None else Some(Page(ms, max) + if rest.value == [] then [] else rest.value[1..])
  }

  lemma {:induction false} AskedForEver(ns: seq<string>, key: Option<Key>, want: string -> bool,
      back: string -> Option<Key>, requests: nat)
    requires Ascending(ns) && Returns(ns, back) && |Selected(ns, key, want)| > 1
    ensures Asked(ns, key, want, 1, back, requests).None?
    decreases requests
  {
    hide InPage, Selected;
    if requests > 0 {
      StuckAtOne(ns, key, want);
      SelectedIn(ns, key, want, 0);
      AskedForEver(ns, Some(Key(Selected(ns, key, want)[0], false)), want, back, requests - 1);
    }
  }

  lemma {:induction false} AskedOften(ns: seq<string>, key: Option<Key>, want: string -> bool, max: nat,
      back: string -> Option<Key>)
    requires Ascending(ns) && Returns(ns, back) && (max != 1 || |Selected(ns, key, want)| <= 1)
    ensures Asked(ns, key, want, max, back, |Selected(ns, key, want)| + 1) == Some(Selected(ns, key, want))
    decreases |Selected(ns, key, want)|
  {
    hide InPage, Selected;
    var ms := Selected(ns, key, want);
    if More(ms, max) {
      NextPage(ns, key, want, max - 1);
      SelectedIn(ns, key, want, max - 1);
      var from := Some(Key(ms[max - 1], false));
      AskedOften(ns, from, want, max, back);
      AskedLonger(ns, from, want, max, back, |ms| - max + 2, |ms|);
      assert ms[..max] + ms[max - 1..][1..] == ms;
    }
  }

  lemma {:induction false} AskedLonger(ns: seq<string>, key: Option<Key>, want: string -> bool, max: nat,
      back: string -> Option<Key>, requests: nat, more: nat)
    requires requests <= more && Asked(ns, key, want, max, back, requests).Some?
    ensures Asked(ns, key, want, max, back, more) == Asked(ns, key, want, max, back, requests)
    decreases requests
  {
    hide Selected;
    var ms := Selected(ns, key, want);
    if More(ms, max) {
      AskedLonger(ns, back(Page(ms, max)[max - 1]), want, max, back, requests - 1, more - 1);
    }
  }

  /** Asking again from the last name received collects everything exactly unless pages of one cut a longer list. */
  lemma PagingExact(ns: seq<string>, key: Option<Key>, want: string -> bool, max: nat, back: string -> Option<Key>)
    requires Ascending(ns) && Returns(ns, back)
    ensures (exists requests: nat :: Asked(ns, key, want, max, back, requests) == Some(Selected(ns, key, want)))
       <==> max != 1 || |Selected(ns, key, want)| <= 1
  {
    hide Selected, Asked;
    if max != 1 || |Selected(ns, key, want)| <= 1 {
      AskedOften(ns, key, want, max, back);
    } else {
      forall requests: nat
        ensures Asked(ns, key, want, max, back, requests).None?
      {
        AskedForEver(ns, key, want, back, requests);
      }
    }
  }

  // --- the names come back -----------------------------------------------------------------------

  ghost predicate Upright(n: string, up: Upper) { forall i :: 0 <= i < |n| ==> up(n[i]) == n[i] }

  /** A name as the client got it is its own key exactly if it fits, ends in no blank and has no small letter. */
  lemma DataSetReturns(n: string, up: Upper)
    ensures QueryKey(Some(n), 44, up) == Some(Key(n, false))
       <==> n != [] && |n| <= 44 && n[|n| - 1] != BLANK && Upright(n, up)
  {
    var t := TrimRight(n);
    if n != [] && n[|n| - 1] != BLANK {
      assert t == n;
      assert Upright(n, up) ==> Folded(n, up) == n;
    }
  }

  lemma FoldedPads(n: string, t: string, f: string)
    requires |n| == NAME_LEN && t <= n && (forall i :: |t| <= i < |n| ==> n[i] == BLANK) && |f| == |t|
    ensures Padded(f, NAME_LEN) == n <==> f == t
  {
    var p := Padded(f, NAME_LEN);
    assert p[..|t|] == f && n[..|t|] == t;
    assert f == t ==> p == n;
  }

  lemma FoldedSame(t: string, up: Upper)
    ensures Folded(t, up) == t <==> Upright(t, up)
  {
    var f := Folded(t, up);
    if !Upright(t, up) {
      var i :| 0 <= i < |t| && up(t[i]) != t[i];
      assert f[i] != t[i];
    }
  }

  /** A member name, trimmed for the client, is padded again: exactly if it is not blank and has no small letter. */
  lemma MemberReturns(n: string, up: Upper)
    requires |n| == NAME_LEN
    ensures MemberKey(QueryKey(Some(TrimRight(n)), NAME_LEN, up)) == Some(Key(n, false))
       <==> TrimRight(n) != [] && Upright(TrimRight(n), up)
  {
    var t := TrimRight(n);
    assert TrimRight(t) == t;
    hide TrimRight, Padded, Folded, Upright;
    FoldedPads(n, t, Folded(t, up));
    FoldedSame(t, up);
  }

  /** What a client asks for behind a member it was given. */
  function Behind(up: Upper): string -> Option<Key>
  {
    (n: string) => MemberKey(QueryKey(Some(TrimRight(n)), NAME_LEN, up))
  }

  function Short(c: char): (n: string)
    ensures |n| == NAME_LEN && n[0] == c
  {
    [c] + Blanks(7)
  }

  lemma ShortTrimmed(c: char)
    requires c != BLANK
    ensures TrimRight(Short(c)) == [c] && TrimRight([c]) == [c]
  {
    hide TrimRight;
    var n := Short(c);
    var t := TrimRight(n);
    assert |t| > 0 && t[|t| - 1] == n[|t| - 1];
    assert t == n[..1] == [c];
  }

  lemma ShortBehind(c: char, up: Upper)
    requires c != BLANK
    ensures Behind(up)(Short(c)) == Some(Key(Short(up(c)), false))
  {
    ShortTrimmed(c);
    hide TrimRight, Blanks;
    assert Folded([c], up) == [up(c)];
    assert QueryKey(Some([c]), NAME_LEN, up) == Some(Key([up(c)], false));
  }

  lemma ShortBefore(c: char, d: char)
    requires c < d
    ensures Before(Short(c), Short(d)) && !InPage(Short(c), Some(Key(Short(d), false)))
  {
  }

  /** Members with small letters, 81 to 83 on the host, in pages of two: asked from the second the third is lost. */
  lemma SmallLetterWitness(up: Upper, all: string -> bool)
    requires up('\U{82}') == '\U{C2}' && forall n :: all(n)
    ensures var ns := [Short('\U{81}'), Short('\U{82}'), Short('\U{83}')];
            && Ascending(ns) && Selected(ns, None, all) == ns
            && Asked(ns, None, all, 2, Behind(up), 2) == Some(ns[..2])
  {
    hide Short, Behind, Before, Selected;
    var ns := [Short('\U{81}'), Short('\U{82}'), Short('\U{83}')];
    var key := Some(Key(Short('\U{C2}'), false));
    ShortBehind('\U{82}', up);
    ShortBefore('\U{81}', '\U{82}');
    ShortBefore('\U{81}', '\U{83}');
    ShortBefore('\U{82}', '\U{83}');
    ShortBefore('\U{81}', '\U{C2}');
    ShortBefore('\U{82}', '\U{C2}');
    ShortBefore('\U{83}', '\U{C2}');
    Kept(ns, None, all);
    Passed(ns, key, all);
    assert Page(ns, 2) == ns[..2];
    assert Behind(up)(ns[..2][1]) == key;
    assert Asked(ns, key, all, 2, Behind(up), 1) == Some([]);
    assert ns[..2] + [] == ns[..2];
  }

  lemma {:induction false} Kept(ns: seq<string>, key: Option<Key>, want: string -> bool)
    requires forall n :: n in ns ==> InPage(n, key) && want(n)
    ensures Selected(ns, key, want) == ns
    decreases |ns|
  {
    if ns != [] {
      Kept(ns[1..], key, want);
    }
  }

  lemma {:induction false} Passed(ns: seq<string>, key: Option<Key>, want: string -> bool)
    requires forall n :: n in ns ==> !InPage(n, key)
    ensures Selected(ns, key, want) == []
    decreases |ns|
  {
    if ns != [] {
      Passed(ns[1..], key, want);
    }
  }
}
