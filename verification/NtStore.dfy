// The persistent store of src/ntstore.c: 32 fixed slots, searched linearly, with
// a time to live and eviction of the least recently accessed name.
module NtStore {

  const SLOTS := 32
  const NAME_LEN := 16
  const VALUE_MAX := 192
  const TTL_TICKS := 300
  const TWO32 := 0x1_0000_0000

  type Byte = b: int | 0 <= b < 256
  type Name = n: seq<Byte> | |n| == NAME_LEN witness [0, 0, 0, 0, 0, 0, 0, 0, 0, 0, 0, 0, 0, 0, 0, 0]
  type Value = seq<Byte>

  /** last is the clock value of the latest access. */
  datatype Slot = Slot(name: Name, last: nat, value: Value)

  const NO_NAME: Name := [0, 0, 0, 0, 0, 0, 0, 0, 0, 0, 0, 0, 0, 0, 0, 0]
  const FREE_SLOT := Slot(NO_NAME, 0, [])

  /** name_free(): the all-zero name marks a free slot. */
  predicate IsFree(slot: Slot)
  {
    forall i :: 0 <= i < NAME_LEN ==> slot.name[i] == 0
  }

  lemma FreeMeansNoName(slot: Slot)
    ensures IsFree(slot) <==> slot.name == NO_NAME
  {
  }

  /** slot_expired(): the high words of the clock, subtracted as 32-bit unsigned numbers. */
  predicate Expired(last: nat, now: nat)
  {
    (now / TWO32 - last / TWO32) % TWO32 >= TTL_TICKS
  }

  /** A clock value the 64-bit clock can show, not before last: no difference wraps. */
  lemma ExpiryGrows(last: nat, now: nat, later: nat)
    requires last <= now <= later < TWO32 * TWO32
    ensures Expired(last, now) ==> Expired(last, later)
    ensures Expired(last, now) <==> now / TWO32 - last / TWO32 >= TTL_TICKS
  {
    DivMonotone(last, now);
    DivMonotone(now, later);
  }

  lemma DivMonotone(a: nat, b: nat)
    requires a <= b < TWO32 * TWO32
    ensures a / TWO32 <= b / TWO32 < TWO32
  {
  }

  function Cut(v: Value): (c: Value)
    ensures |c| <= VALUE_MAX && c <= v
  {
    if |v| > VALUE_MAX then v[..VALUE_MAX] else v
  }

  // --- the three searches ----------------------------------------------------------

  predicate Holds(slot: Slot, name: Name)
  {
    !IsFree(slot) && slot.name == name
  }

  /** The first slot from i on that holds the name; |slots| when none does. */
  function Named(slots: seq<Slot>, name: Name, i: nat): (k: nat)
    requires i <= |slots|
    ensures i <= k <= |slots| && (k < |slots| ==> Holds(slots[k], name))
    ensures forall j :: i <= j < k ==> !Holds(slots[j], name)
    decreases |slots| - i
  {
    if i == |slots| || Holds(slots[i], name) then i else Named(slots, name, i + 1)
  }

  predicate Reusable(slot: Slot, now: nat)
  {
    IsFree(slot) || Expired(slot.last, now)
  }

  /** The first slot from i on that is free or expired; |slots| when all are live. */
  function FirstReusable(slots: seq<Slot>, now: nat, i: nat): (k: nat)
    requires i <= |slots|
    ensures i <= k <= |slots| && (k < |slots| ==> Reusable(slots[k], now))
    ensures forall j :: i <= j < k ==> !Reusable(slots[j], now)
    decreases |slots| - i
  {
    if i == |slots| || Reusable(slots[i], now) then i else FirstReusable(slots, now, i + 1)
  }

  /** The first of the oldest accesses among the first k slots. */
  function Oldest(slots: seq<Slot>, k: nat): (o: nat)
    requires 1 <= k <= |slots|
    ensures o < k && forall j :: 0 <= j < k ==> slots[o].last <= slots[j].last
  {
    if k == 1 then 0 else
    var o := Oldest(slots, k - 1);
    if slots[k - 1].last < slots[o].last then k - 1 else o
  }

  /** The slot a name is stored into. */
  function Target(slots: seq<Slot>, name: Name, now: nat): (t: nat)
    requires slots != []
    ensures t < |slots|
  {
    var k := Named(slots, name, 0);
    if k < |slots| then k else
    var r := FirstReusable(slots, now, 0);
    if r < |slots| then r else Oldest(slots, |slots|)
  }

  /** The first live slot from i on that holds the name; |slots| when none does. */
  function Found(slots: seq<Slot>, name: Name, now: nat, i: nat): (k: nat)
    requires i <= |slots|
    ensures i <= k <= |slots| && (k < |slots| ==> Holds(slots[k], name) && !Expired(slots[k].last, now))
    ensures forall j :: i <= j < k ==> !(Holds(slots[j], name) && !Expired(slots[j].last, now))
    decreases |slots| - i
  {
    if i == |slots| || (Holds(slots[i], name) && !Expired(slots[i].last, now)) then i
    else Found(slots, name, now, i + 1)
  }

  // --- the operations ---------------------------------------------------------------

  function SetSlots(slots: seq<Slot>, name: Name, v: Value, now: nat): (t: seq<Slot>)
    requires slots != []
    ensures |t| == |slots|
  {
    slots[Target(slots, name, now) := Slot(name, now, Cut(v))]
  }

  function GetSlots(slots: seq<Slot>, name: Name, now: nat): (t: seq<Slot>)
    ensures |t| == |slots|
  {
    var k := Found(slots, name, now, 0);
    if k < |slots| then slots[k := slots[k].(last := now)] else slots
  }

  function DelSlots(slots: seq<Slot>, name: Name): (t: seq<Slot>)
    ensures |t| == |slots|
  {
    var k := Named(slots, name, 0);
    if k < |slots| then slots[k := FREE_SLOT] else slots
  }

  class Store {
    const slots: array<Slot>

    /** nt_store_init() */
    constructor ()
      ensures fresh(slots) && slots.Length == 32
      ensures Valid(slots[..], 0) && forall i :: 0 <= i < SLOTS ==> slots[i] == FREE_SLOT
    {
      slots := new Slot[SLOTS](i => FREE_SLOT);
    }

    /** nt_set() */
    method Set(name: Name, v: Value, now: nat)
      requires slots.Length == SLOTS
      modifies slots
      ensures slots[..] == SetSlots(old(slots[..]), name, v, now)
    {
      hide Expired;
      var target := SLOTS;
      var i := 0;
      while i < SLOTS && target == SLOTS
        invariant 0 <= i <= SLOTS
        invariant if target == SLOTS then Named(slots[..], name, 0) == Named(slots[..], name, i)
                  else target < SLOTS && Named(slots[..], name, 0) == target
      {
        if Holds(slots[i], name) {
          target := i;
        }
        i := i + 1;
      }
      if target == SLOTS {
        i := 0;
        while i < SLOTS && target == SLOTS
          invariant 0 <= i <= SLOTS
          invariant if target == SLOTS then FirstReusable(slots[..], now, 0) == FirstReusable(slots[..], now, i)
                    else target < SLOTS && FirstReusable(slots[..], now, 0) == target
        {
          if Reusable(slots[i], now) {
            target := i;
          }
          i := i + 1;
        }
      }
      if target == SLOTS {
        var lru, oldest := 0, slots[0].last;
        i := 1;
        while i < SLOTS
          invariant 1 <= i <= SLOTS && lru < i && lru == Oldest(slots[..], i) && oldest == slots[lru].last
        {
          if slots[i].last < oldest {
            oldest := slots[i].last;
            lru := i;
          }
          i := i + 1;
        }
        assert slots[..SLOTS] == slots[..];
        target := lru;
      }
      slots[target] := Slot(name, now, Cut(v));
    }

    /** nt_get(): rc 0 with the value cut to max, 4 on a miss. */
    method Get(name: Name, max: nat, now: nat) returns (rc: int, out: Value)
      requires slots.Length == SLOTS
      modifies slots
      ensures slots[..] == GetSlots(old(slots[..]), name, now)
      ensures var k := Found(old(slots[..]), name, now, 0);
              if k < SLOTS then
                && rc == 0
                && out == (if |old(slots[k]).value| > max then old(slots[k]).value[..max] else old(slots[k]).value)
              else rc == 4 && out == []
    {
      hide Expired;
      var i := 0;
      while i < SLOTS
        invariant 0 <= i <= SLOTS && slots[..] == old(slots[..])
        invariant Found(slots[..], name, now, 0) == Found(slots[..], name, now, i)
      {
        if Holds(slots[i], name) && !Expired(slots[i].last, now) {
          var n := |slots[i].value|;
          if n > max {
            n := max;
          }
          out := slots[i].value[..n];
          slots[i] := slots[i].(last := now);
          return 0, out;
        }
        i := i + 1;
      }
      return 4, [];
    }

    /** nt_del(): rc 0 when something was deleted, 4 otherwise. */
    method Del(name: Name) returns (rc: int)
      requires slots.Length == SLOTS
      modifies slots
      ensures slots[..] == DelSlots(old(slots[..]), name)
      ensures rc == if Named(old(slots[..]), name, 0) < SLOTS then 0 else 4
    {
      var i := 0;
      while i < SLOTS
        invariant 0 <= i <= SLOTS && slots[..] == old(slots[..])
        invariant Named(slots[..], name, 0) == Named(slots[..], name, i)
      {
        if Holds(slots[i], name) {
          slots[i] := FREE_SLOT;
          return 0;
        }
        i := i + 1;
      }
      return 4;
    }
  }

  // --- the map the slots stand for --------------------------------------------------------

  /** Unique names, distinct accesses, none later than the clock. */
  ghost predicate Valid(slots: seq<Slot>, clock: nat)
  {
    && |slots| == SLOTS && clock < TWO32 * TWO32
    && (forall i, j :: 0 <= i < j < SLOTS && !IsFree(slots[i]) && !IsFree(slots[j]) ==>
          slots[i].name != slots[j].name && slots[i].last != slots[j].last)
    && (forall i :: 0 <= i < SLOTS && !IsFree(slots[i]) ==> slots[i].last <= clock)
  }

  predicate LiveAt(slots: seq<Slot>, i: nat, now: nat)
    requires i < |slots|
  {
    !IsFree(slots[i]) && !Expired(slots[i].last, now)
  }

  /** name has the value v at the time now. */
  ghost predicate Maps(slots: seq<Slot>, now: nat, name: Name, v: Value)
  {
    exists i :: 0 <= i < |slots| && LiveAt(slots, i, now) && slots[i].name == name && slots[i].value == v
  }

  ghost predicate Bound(slots: seq<Slot>, now: nat, name: Name)
  {
    exists i :: 0 <= i < |slots| && LiveAt(slots, i, now) && slots[i].name == name
  }

  /** The slots stand for a map: a name has one value at most. */
  lemma MapsIsFunction(slots: seq<Slot>, clock: nat, now: nat, name: Name, v: Value, w: Value)
    requires Valid(slots, clock) && Maps(slots, now, name, v) && Maps(slots, now, name, w)
    ensures v == w
  {
  }

  /** All slots are live and none holds the name: only then does storing it cost another one. */
  ghost predicate MustEvict(slots: seq<Slot>, name: Name, now: nat)
  {
    && (forall i :: 0 <= i < |slots| ==> LiveAt(slots, i, now))
    && (forall i :: 0 <= i < |slots| ==> slots[i].name != name)
  }

  lemma FreshIsLive(now: nat)
    ensures !Expired(now, now)
  {
  }

  /** Storing falls through to eviction exactly when it must. */
  lemma NotReusable(slots: seq<Slot>, name: Name, now: nat)
    requires |slots| == SLOTS && name != NO_NAME
    ensures MustEvict(slots, name, now) <==> Named(slots, name, 0) == SLOTS && FirstReusable(slots, now, 0) == SLOTS
  {
    hide Expired;
    var n, r := Named(slots, name, 0), FirstReusable(slots, now, 0);
    var live := r < SLOTS && LiveAt(slots, r, now);
    if n == SLOTS && r == SLOTS {
      forall i | 0 <= i < SLOTS
        ensures LiveAt(slots, i, now) && slots[i].name != name
      {
        assert !Reusable(slots[i], now) && !Holds(slots[i], name);
      }
    }
  }

  /** The slot stored into is the name's own, or not live, or the oldest of a full table. */
  lemma TargetKinds(slots: seq<Slot>, clock: nat, name: Name, now: nat)
    requires Valid(slots, clock) && name != NO_NAME
    ensures var k := Target(slots, name, now);
            && (forall i :: 0 <= i < SLOTS && i != k ==> !Holds(slots[i], name))
            && (MustEvict(slots, name, now) ==> k == Oldest(slots, SLOTS) && LiveAt(slots, k, now))
            && (!MustEvict(slots, name, now) && LiveAt(slots, k, now) ==> slots[k].name == name)
  {
    hide Expired, Oldest;
    NotReusable(slots, name, now);
    var n := Named(slots, name, 0);
    if n < SLOTS {
      forall i | 0 <= i < SLOTS && i != n
        ensures !Holds(slots[i], name)
      {
      }
    }
  }

  /** Overwriting one slot: its old name, if it was live, is the only one lost. */
  lemma Overwritten(slots: seq<Slot>, k: nat, name: Name, v: Value, now: nat, other: Name, w: Value)
    requires k < |slots| && name != NO_NAME && other != name
    ensures var t := slots[k := Slot(name, now, v)];
            && Maps(t, now, name, v)
            && (Maps(t, now, other, w) <==>
                  exists i :: 0 <= i < |slots| && i != k && LiveAt(slots, i, now) && slots[i].name == other
                      && slots[i].value == w)
  {
    hide Expired;
    var t := slots[k := Slot(name, now, v)];
    FreeMeansNoName(t[k]);
    FreshIsLive(now);
    assert LiveAt(t, k, now) && t[k].value == v;
    if Maps(t, now, other, w) {
      var i :| 0 <= i < |t| && LiveAt(t, i, now) && t[i].name == other && t[i].value == w;
      assert i != k && LiveAt(slots, i, now);
    }
    if i :| 0 <= i < |slots| && i != k && LiveAt(slots, i, now) && slots[i].name == other && slots[i].value == w {
      assert LiveAt(t, i, now);
    }
  }

  /**
   * nt_set() is a map update. It costs another live name exactly when all 32 slots
   * are live and none has the name, and then the least recently accessed one.
   */
  lemma SetRefines(slots: seq<Slot>, clock: nat, name: Name, v: Value, now: nat, other: Name, w: Value)
    requires Valid(slots, clock) && clock < now < TWO32 * TWO32 && name != NO_NAME && other != name
    ensures var t := SetSlots(slots, name, v, now);
            && Maps(t, now, name, Cut(v))
            && (Maps(t, now, other, w) <==>
                  Maps(slots, now, other, w) && !(MustEvict(slots, name, now)
                      && other == slots[Oldest(slots, SLOTS)].name))
  {
    hide Expired, Target, Oldest, MustEvict, Cut;
    var k := Target(slots, name, now);
    TargetKinds(slots, clock, name, now);
    Overwritten(slots, k, name, Cut(v), now, other, w);
    if Maps(slots, now, other, w) {
      var i :| 0 <= i < |slots| && LiveAt(slots, i, now) && slots[i].name == other && slots[i].value == w;
      if MustEvict(slots, name, now) && slots[k].name == other {
        assert forall j :: 0 <= j < SLOTS && j != k && LiveAt(slots, j, now) ==> slots[j].name != other;
      }
    }
  }

  /** Storing keeps the table valid, and the slot evicted is strictly the oldest. */
  lemma SetKeepsValid(slots: seq<Slot>, clock: nat, name: Name, v: Value, now: nat)
    requires Valid(slots, clock) && clock < now < TWO32 * TWO32 && name != NO_NAME
    ensures Valid(SetSlots(slots, name, v, now), now)
    ensures MustEvict(slots, name, now) ==>
              forall i :: 0 <= i < SLOTS && i != Oldest(slots, SLOTS) ==>
                  slots[Oldest(slots, SLOTS)].last < slots[i].last
  {
    hide Expired, Target;
    TargetKinds(slots, clock, name, now);
    if MustEvict(slots, name, now) {
      var o := Oldest(slots, SLOTS);
      forall i | 0 <= i < SLOTS && i != o
        ensures slots[o].last < slots[i].last
      {
        assert LiveAt(slots, i, now) && LiveAt(slots, o, now);
        assert i < o || o < i;
      }
    }
  }

  /** nt_get() answers from the map, and only marks the name as accessed. */
  lemma GetRefines(slots: seq<Slot>, clock: nat, name: Name, now: nat, other: Name, w: Value)
    requires Valid(slots, clock) && clock < now < TWO32 * TWO32
    ensures var k := Found(slots, name, now, 0);
            && (k < SLOTS <==> Bound(slots, now, name))
            && (k < SLOTS ==> Maps(slots, now, name, slots[k].value))
    ensures var t := GetSlots(slots, name, now);
            Valid(t, now) && (Maps(t, now, other, w) <==> Maps(slots, now, other, w))
  {
    hide Expired;
    var k := Found(slots, name, now, 0);
    var t := GetSlots(slots, name, now);
    if Bound(slots, now, name) {
      var i :| 0 <= i < |slots| && LiveAt(slots, i, now) && slots[i].name == name;
      assert Holds(slots[i], name);
    }
    if k < SLOTS {
      FreshIsLive(now);
      assert LiveAt(slots, k, now) && LiveAt(t, k, now);
      assert forall i :: 0 <= i < SLOTS && i != k ==> LiveAt(t, i, now) == LiveAt(slots, i, now);
    }
  }

  /** nt_del() removes the name and nothing else. */
  lemma DelRefines(slots: seq<Slot>, clock: nat, name: Name, now: nat, other: Name, w: Value)
    requires Valid(slots, clock) && name != NO_NAME
    ensures var t := DelSlots(slots, name);
            && Valid(t, clock)
            && (Maps(t, now, other, w) <==> Maps(slots, now, other, w) && other != name)
  {
    hide Expired;
    var k := Named(slots, name, 0);
    var t := DelSlots(slots, name);
    forall i | 0 <= i < SLOTS && slots[i].name == name
      ensures i == k
    {
      FreeMeansNoName(slots[i]);
      assert Holds(slots[i], name);
    }
    if k < SLOTS {
      assert !LiveAt(t, k, now);
      assert forall i :: 0 <= i < SLOTS && i != k ==> LiveAt(t, i, now) == LiveAt(slots, i, now);
    }
  }

  // --- survival ---------------------------------------------------------------------------

  datatype Op = Set(name: Name, v: Value) | Get(name: Name) | Del(name: Name)

  /** An operation with the clock value it read. */
  datatype Timed = Timed(op: Op, now: nat)

  function Applied(slots: seq<Slot>, t: Timed): (after: seq<Slot>)
    requires slots != []
    ensures |after| == |slots|
  {
    match t.op
    case Set(name, v) => SetSlots(slots, name, v, t.now)
    case Get(name) => GetSlots(slots, name, t.now)
    case Del(name) => DelSlots(slots, name)
  }

  function AppliedAll(slots: seq<Slot>, run: seq<Timed>): seq<Slot>
    requires slots != []
    decreases |run|
  {
    if run == [] then slots else AppliedAll(Applied(slots, run[0]), run[1..])
  }

  /** The clock is read in the order of the operations, and no name is all zero. */
  ghost predicate Ticks(clock: nat, run: seq<Timed>)
    decreases |run|
  {
    run == [] ||
    (clock < run[0].now < TWO32 * TWO32 && run[0].op.name != NO_NAME && Ticks(run[0].now, run[1..]))
  }

  function Touched(run: seq<Timed>): set<Name>
  {
    set i | 0 <= i < |run| :: run[i].op.name
  }

  /** The key's slot is as it was at t0, and everything accessed since carries a name of others. */
  ghost predicate Kept(slots: seq<Slot>, k: nat, key: Name, v: Value, t0: nat, others: set<Name>)
  {
    && k < |slots| && !IsFree(slots[k]) && slots[k] == Slot(key, t0, v)
    && key !in others
    && forall i :: 0 <= i < |slots| && !IsFree(slots[i]) && slots[i].last > t0 ==> slots[i].name in others
  }

  /** 32 slots that are all newer than the key, but for its own, take 31 names. */
  lemma {:induction false} NamesOf(slots: seq<Slot>, clock: nat, k: nat, n: nat) returns (names: set<Name>)
    requires Valid(slots, clock) && k < n <= SLOTS && forall i :: 0 <= i < SLOTS ==> !IsFree(slots[i])
    ensures |names| == n - 1
    ensures forall x :: x in names ==> exists i :: 0 <= i < n && i != k && slots[i].name == x
    decreases n
  {
    if n == k + 1 {
      names := FrontNames(slots, clock, k);
    } else {
      names := NamesOf(slots, clock, k, n - 1);
      names := names + {slots[n - 1].name};
    }
  }

  lemma {:induction false} FrontNames(slots: seq<Slot>, clock: nat, n: nat) returns (names: set<Name>)
    requires Valid(slots, clock) && n <= SLOTS && forall i :: 0 <= i < SLOTS ==> !IsFree(slots[i])
    ensures |names| == n
    ensures forall x :: x in names ==> exists i :: 0 <= i < n && slots[i].name == x
    decreases n
  {
    if n == 0 {
      names := {};
    } else {
      names := FrontNames(slots, clock, n - 1);
      names := names + {slots[n - 1].name};
    }
  }

  lemma SubsetCount(a: set<Name>, b: set<Name>)
    requires a <= b
    ensures |a| <= |b|
  {
    assert b == a + (b - a);
  }

  /** A full table whose oldest slot is the key's has seen 31 other names, and the new one is the 32nd. */
  lemma EvictionNeedsMany(slots: seq<Slot>, clock: nat, k: nat, key: Name, v: Value, t0: nat, others: set<Name>,
                          name: Name, now: nat)
    requires Valid(slots, clock) && clock < now < TWO32 * TWO32 && name != NO_NAME
    requires Kept(slots, k, key, v, t0, others) && name in others
    requires MustEvict(slots, name, now) && Oldest(slots, SLOTS) == k
    ensures |others| >= SLOTS
  {
    hide Expired, Oldest;
    SetKeepsValid(slots, clock, name, v, now);
    forall i | 0 <= i < SLOTS
      ensures !IsFree(slots[i])
    {
      assert LiveAt(slots, i, now);
    }
    var names := NamesOf(slots, clock, k, SLOTS);
    forall x | x in names
      ensures x in others && x != name
    {
      var i :| 0 <= i < SLOTS && i != k && slots[i].name == x;
      assert slots[k].last < slots[i].last;
    }
    SubsetCount(names + {name}, others);
  }

  lemma SetKeeps(slots: seq<Slot>, clock: nat, k: nat, key: Name, v: Value, t0: nat, others: set<Name>,
                 name: Name, v': Value, now: nat)
    requires Valid(slots, clock) && clock < now < TWO32 * TWO32 && name != NO_NAME
    requires Kept(slots, k, key, v, t0, others) && |others| < SLOTS && name in others
    requires !Expired(t0, now)
    ensures Kept(SetSlots(slots, name, v', now), k, key, v, t0, others)
  {
    hide Expired, Oldest, Target, MustEvict;
    TargetKinds(slots, clock, name, now);
    if Target(slots, name, now) == k {
      assert LiveAt(slots, k, now);
      EvictionNeedsMany(slots, clock, k, key, v, t0, others, name, now);
      assert false;
    }
  }

  lemma GetKeeps(slots: seq<Slot>, k: nat, key: Name, v: Value, t0: nat, others: set<Name>, name: Name, now: nat)
    requires Kept(slots, k, key, v, t0, others) && name in others
    ensures Kept(GetSlots(slots, name, now), k, key, v, t0, others)
  {
    hide Expired;
    assert Found(slots, name, now, 0) != k;
  }

  lemma DelKeeps(slots: seq<Slot>, k: nat, key: Name, v: Value, t0: nat, others: set<Name>, name: Name)
    requires Kept(slots, k, key, v, t0, others) && name in others
    ensures Kept(DelSlots(slots, name), k, key, v, t0, others)
  {
    assert Named(slots, name, 0) != k;
  }

  /** One operation on another name does not cost the key its slot. */
  lemma StepKeeps(slots: seq<Slot>, clock: nat, k: nat, key: Name, v: Value, t0: nat, others: set<Name>, t: Timed)
    requires Valid(slots, clock) && clock < t.now < TWO32 * TWO32 && t.op.name != NO_NAME
    requires Kept(slots, k, key, v, t0, others) && |others| < SLOTS && t.op.name in others
    requires !Expired(t0, t.now)
    ensures Valid(Applied(slots, t), t.now)
    ensures Kept(Applied(slots, t), k, key, v, t0, others)
  {
    hide Expired, Kept, SetSlots, GetSlots, DelSlots, Oldest, MustEvict;
    match t.op {
      case Set(name, v') =>
        SetKeepsValid(slots, clock, name, v', t.now);
        SetKeeps(slots, clock, k, key, v, t0, others, name, v', t.now);
      case Get(name) =>
        GetRefines(slots, clock, name, t.now, name, v);
        GetKeeps(slots, k, key, v, t0, others, name, t.now);
      case Del(name) =>
        DelRefines(slots, clock, name, t.now, name, v);
        DelKeeps(slots, k, key, v, t0, others, name);
    }
  }

  lemma {:induction false} RunKeeps(slots: seq<Slot>, clock: nat, k: nat, key: Name, v: Value, t0: nat,
                                    others: set<Name>, run: seq<Timed>, later: nat)
    requires Valid(slots, clock) && t0 <= clock && Ticks(clock, run)
    requires Kept(slots, k, key, v, t0, others) && |others| < SLOTS && Touched(run) <= others
    requires forall i :: 0 <= i < |run| ==> run[i].now <= later
    requires later < TWO32 * TWO32 && !Expired(t0, later)
    ensures Kept(AppliedAll(slots, run), k, key, v, t0, others)
    decreases |run|
  {
    assert slots != [];
    hide Applied, Kept, Valid, Expired;
    if run != [] {
      assert run[0].op.name in Touched(run);
      assert Touched(run[1..]) <= Touched(run) by {
        forall x | x in Touched(run[1..])
          ensures x in Touched(run)
        {
          var i :| 0 <= i < |run[1..]| && run[1..][i].op.name == x;
          assert run[i + 1].op.name == x;
        }
      }
      ExpiryGrows(t0, run[0].now, later);
      StepKeeps(slots, clock, k, key, v, t0, others, run[0]);
      forall i | 0 <= i < |run[1..]|
        ensures run[1..][i].now <= later
      {
        assert run[1..][i] == run[i + 1];
      }
      RunKeeps(Applied(slots, run[0]), run[0].now, k, key, v, t0, others, run[1..], later);
    }
  }

  /**
   * Survival: a key accessed at t0 is still found, with its value, at any later time
   * within its time to live -- whatever operations came between, if fewer than 32
   * other names were accessed by them.
   */
  lemma Survives(slots: seq<Slot>, t0: nat, k: nat, key: Name, v: Value, run: seq<Timed>, later: nat)
    requires Valid(slots, t0) && k < SLOTS && slots[k] == Slot(key, t0, v) && key != NO_NAME
    requires Ticks(t0, run) && key !in Touched(run) && |Touched(run)| < SLOTS
    requires t0 <= later < TWO32 * TWO32 && (forall i :: 0 <= i < |run| ==> run[i].now <= later)
    requires !Expired(t0, later)
    ensures Maps(AppliedAll(slots, run), later, key, v)
  {
    hide Expired;
    FreeMeansNoName(slots[k]);
    RunKeeps(slots, t0, k, key, v, t0, Touched(run), run, later);
    assert LiveAt(AppliedAll(slots, run), k, later);
  }

  // --- from the operations alone ---------------------------------------------------------------

  /** Clock ticks, of which a key lives 300 from its last use on. */
  function Ticked(clock: nat): nat { clock / 0x1_0000_0000 }

  /** Within the clock's range, a slot is expired from the 300th tick on. */
  lemma ExpiredAt(last: nat, now: nat)
    requires last <= now < TWO32 * TWO32
    ensures Expired(last, now) <==> Ticked(now) - Ticked(last) >= 300
  {
    ExpiryGrows(last, now, now);
  }

  /** A use of the key: it is stored, or it is asked for and found. What it is bound to from then on. */
  ghost predicate Uses(slots: seq<Slot>, t: Timed, key: Name, v: Value)
  {
    match t.op
    case Set(name, w) => name == key && v == (if |w| <= 192 then w else w[..192])
    case Get(name) => name == key && Maps(slots, t.now, key, v)
    case Del(_) => false
  }

  /** A use marks the key's slot with its time. */
  lemma UseMarks(slots: seq<Slot>, clock: nat, t: Timed, key: Name, v: Value) returns (k: nat)
    requires Valid(slots, clock) && clock < t.now < TWO32 * TWO32 && key != NO_NAME && Uses(slots, t, key, v)
    ensures Valid(Applied(slots, t), t.now)
    ensures k < SLOTS && Applied(slots, t)[k] == Slot(key, t.now, v)
  {
    hide Expired, Oldest, Named, FirstReusable;
    match t.op {
      case Set(_, w) =>
        SetKeepsValid(slots, clock, key, w, t.now);
        k := Target(slots, key, t.now);
      case Get(_) =>
        GetRefines(slots, clock, key, t.now, key, v);
        k := Found(slots, key, t.now, 0);
        MapsIsFunction(slots, clock, t.now, key, v, slots[k].value);
    }
  }

  /** No slot of the key is newer than its last use. */
  ghost predicate NoneNewer(slots: seq<Slot>, key: Name, t0: nat)
  {
    forall i :: 0 <= i < |slots| && slots[i].name == key ==> slots[i].last <= t0
  }

  lemma {:induction false} StaysOld(slots: seq<Slot>, key: Name, t0: nat, run: seq<Timed>)
    requires slots != [] && key != NO_NAME && NoneNewer(slots, key, t0) && key !in Touched(run)
    ensures NoneNewer(AppliedAll(slots, run), key, t0)
    decreases |run|
  {
    if run != [] {
      assert run[0].op.name in Touched(run);
      forall x | x in Touched(run[1..])
        ensures x in Touched(run)
      {
        var i :| 0 <= i < |run[1..]| && run[1..][i].op.name == x;
        assert run[i + 1].op.name == x;
      }
      hide Expired, Oldest, Touched;
      assert NoneNewer(Applied(slots, run[0]), key, t0);
      StaysOld(Applied(slots, run[0]), key, t0, run[1..]);
    }
  }

  /**
   * A key stored, or asked for and found, at t.now is found at a later time, with its
   * value, if and only if that is less than 300 ticks later -- whatever operations came
   * between, on fewer than 32 other names.
   */
  lemma FoundFromUse(slots: seq<Slot>, clock: nat, t: Timed, key: Name, v: Value, run: seq<Timed>, later: nat)
    requires Valid(slots, clock) && clock < t.now && key != NO_NAME && Uses(slots, t, key, v)
    requires Ticks(t.now, run) && key !in Touched(run) && |Touched(run)| < 32
    requires t.now <= later < TWO32 * TWO32 && (forall i :: 0 <= i < |run| ==> run[i].now <= later)
    ensures var after := AppliedAll(Applied(slots, t), run);
            && (Ticked(later) - Ticked(t.now) < 300 ==> Maps(after, later, key, v))
            && (Bound(after, later, key) <==> Ticked(later) - Ticked(t.now) < 300)
  {
    hide Expired, Applied;
    var k := UseMarks(slots, clock, t, key, v);
    var marked := Applied(slots, t);
    ExpiredAt(t.now, later);
    if Ticked(later) - Ticked(t.now) < 300 {
      Survives(marked, t.now, k, key, v, run, later);
    } else {
      FreeMeansNoName(marked[k]);
      assert NoneNewer(marked, key, t.now);
      StaysOld(marked, key, t.now, run);
      forall i | 0 <= i < |AppliedAll(marked, run)| && AppliedAll(marked, run)[i].name == key
        ensures Expired(AppliedAll(marked, run)[i].last, later)
      {
        OldExpired(AppliedAll(marked, run)[i].last, t.now, later);
      }
    }
  }

  lemma OldExpired(last: nat, t0: nat, later: nat)
    requires last <= t0 <= later < TWO32 * TWO32 && Ticked(later) - Ticked(t0) >= 300
    ensures Expired(last, later)
  {
    DivMonotone(last, t0);
    ExpiredAt(last, later);
  }

  // --- who is evicted ------------------------------------------------------------------------

  /** A new store. */
  function NewSlots(n: nat): (slots: seq<Slot>)
    ensures |slots| == n && forall i :: 0 <= i < n ==> slots[i] == FREE_SLOT
  {
    if n == 0 then [] else NewSlots(n - 1) + [FREE_SLOT]
  }

  /** The table after the first n operations of a run on a new store. */
  function After(run: seq<Timed>, n: nat): (slots: seq<Slot>)
    requires n <= |run|
    ensures |slots| == SLOTS
  {
    if n == 0 then NewSlots(SLOTS) else Applied(After(run, n - 1), run[n - 1])
  }

  /** The last of n operations that stored the name or asked for it and found it; -1 if none, or deleted since. */
  ghost function LastUse(run: seq<Timed>, n: nat, name: Name): (u: int)
    requires n <= |run|
    ensures -1 <= u < n
    ensures u >= 0 ==> run[u].op.name == name
  {
    if n == 0 then -1 else
    var t := run[n - 1];
    if t.op.name != name then LastUse(run, n - 1, name)
    else if t.op.Del? then -1
    else if t.op.Set? || Bound(After(run, n - 1), t.now, name) then n - 1
    else LastUse(run, n - 1, name)
  }

  /** Times go up over the run. */
  ghost predicate InOrder(run: seq<Timed>)
  {
    && (forall i :: 0 <= i < |run| ==> 0 < run[i].now < TWO32 * TWO32 && run[i].op.name != NO_NAME)
    && forall i, j :: 0 <= i < j < |run| ==> run[i].now < run[j].now
  }

  function ClockAt(run: seq<Timed>, n: nat): nat
    requires n <= |run|
  {
    if n == 0 then 0 else run[n - 1].now
  }

  /** The slot was marked by the last use of its name. */
  ghost predicate MarkedBy(run: seq<Timed>, n: nat, slot: Slot)
    requires n <= |run|
  {
    var u := LastUse(run, n, slot.name);
    u >= 0 && slot.last == run[u].now
  }

  ghost predicate Marked(run: seq<Timed>, n: nat)
    requires n <= |run|
  {
    forall i :: 0 <= i < SLOTS && !IsFree(After(run, n)[i]) ==> MarkedBy(run, n, After(run, n)[i])
  }

  lemma {:induction false} LastUseMarks(run: seq<Timed>, n: nat)
    requires n <= |run| && InOrder(run)
    ensures Valid(After(run, n), ClockAt(run, n)) && Marked(run, n)
    decreases n
  {
    hide Applied, Expired;
    if n > 0 {
      LastUseMarks(run, n - 1);
      MarkStep(run, n);
    } else {
      FreeMeansNoName(FREE_SLOT);
    }
  }

  /** A slot the operation leaves alone, of another name, is marked as before. */
  lemma StillMarked(run: seq<Timed>, n: nat, slot: Slot)
    requires 0 < n <= |run| && MarkedBy(run, n - 1, slot) && slot.name != run[n - 1].op.name
    ensures MarkedBy(run, n, slot)
  {
  }

  /** So is one whose name was asked for and not found. */
  lemma MissLeavesMark(run: seq<Timed>, n: nat, slot: Slot)
    requires 0 < n <= |run| && MarkedBy(run, n - 1, slot) && run[n - 1].op.Get?
    requires !Bound(After(run, n - 1), run[n - 1].now, run[n - 1].op.name)
    ensures MarkedBy(run, n, slot)
  {
  }

  /** The slot an operation marks. */
  lemma NewlyMarked(run: seq<Timed>, n: nat, slot: Slot)
    requires 0 < n <= |run| && slot.name == run[n - 1].op.name && slot.last == run[n - 1].now
    requires run[n - 1].op.Set? || (run[n - 1].op.Get? && Bound(After(run, n - 1), run[n - 1].now, slot.name))
    ensures MarkedBy(run, n, slot)
  {
  }

  /** The one slot an operation changes, if any, and what it makes of it. */
  lemma Touches(slots: seq<Slot>, clock: nat, t: Timed) returns (k: nat)
    requires Valid(slots, clock) && clock < t.now < TWO32 * TWO32 && t.op.name != NO_NAME
    ensures Valid(Applied(slots, t), t.now)
    ensures forall i :: 0 <= i < SLOTS && i != k ==> Applied(slots, t)[i] == slots[i]
    ensures (k < SLOTS || !t.op.Get?) ==>
              forall i :: 0 <= i < SLOTS && i != k && !IsFree(slots[i]) ==> slots[i].name != t.op.name
    ensures k >= SLOTS && t.op.Get? ==> !Bound(slots, t.now, t.op.name)
    ensures k < SLOTS ==>
              var slot := Applied(slots, t)[k];
              || IsFree(slot)
              || (slot.name == t.op.name && slot.last == t.now
                  && (t.op.Set? || (t.op.Get? && Bound(slots, t.now, t.op.name))))
  {
    hide Expired, Oldest, Named, FirstReusable, Found, Target, IsFree;
    match t.op {
      case Set(name, v) =>
        SetKeepsValid(slots, clock, name, v, t.now);
        TargetKinds(slots, clock, name, t.now);
        k := Target(slots, name, t.now);
      case Get(name) =>
        GetRefines(slots, clock, name, t.now, name, []);
        FoundIsOnly(slots, clock, name, t.now);
        k := Found(slots, name, t.now, 0);
      case Del(name) =>
        DelRefines(slots, clock, name, t.now, name, []);
        NamedIsOnly(slots, clock, name);
        k := Named(slots, name, 0);
    }
  }

  lemma MarkStep(run: seq<Timed>, n: nat)
    requires 0 < n <= |run| && InOrder(run) && Valid(After(run, n - 1), ClockAt(run, n - 1)) && Marked(run, n - 1)
    ensures Valid(After(run, n), ClockAt(run, n)) && Marked(run, n)
  {
    hide Expired, MarkedBy, LastUse, IsFree, Applied, Bound, Valid;
    var slots, t := After(run, n - 1), run[n - 1];
    var k := Touches(slots, ClockAt(run, n - 1), t);
    forall i | 0 <= i < SLOTS && !IsFree(After(run, n)[i])
      ensures MarkedBy(run, n, After(run, n)[i])
    {
      if i == k {
        NewlyMarked(run, n, After(run, n)[k]);
      } else if t.op.Get? && k >= SLOTS {
        MissLeavesMark(run, n, slots[i]);
      } else {
        StillMarked(run, n, slots[i]);
      }
    }
  }

  lemma FoundIsOnly(slots: seq<Slot>, clock: nat, name: Name, now: nat)
    requires Valid(slots, clock) && name != NO_NAME
    ensures var k := Found(slots, name, now, 0);
            && (k < SLOTS ==> forall i :: 0 <= i < SLOTS && i != k ==> slots[i].name != name)
            && (k < SLOTS ==> slots[k].name == name)
  {
    hide Expired;
    forall i | 0 <= i < SLOTS
      ensures IsFree(slots[i]) ==> slots[i].name != name
    {
      FreeMeansNoName(slots[i]);
    }
  }

  lemma NamedIsOnly(slots: seq<Slot>, clock: nat, name: Name)
    requires Valid(slots, clock) && name != NO_NAME
    ensures forall i :: 0 <= i < SLOTS && i != Named(slots, name, 0) ==> slots[i].name != name
    ensures IsFree(FREE_SLOT)
  {
    forall i | 0 <= i < SLOTS
      ensures slots[i].name == name ==> Holds(slots[i], name)
    {
      FreeMeansNoName(slots[i]);
    }
  }

  /** A bound name's slot, and when it was marked. */
  lemma SlotOf(run: seq<Timed>, n: nat, now: nat, name: Name) returns (i: nat)
    requires n <= |run| && InOrder(run) && Bound(After(run, n), now, name)
    ensures i < SLOTS && LiveAt(After(run, n), i, now) && After(run, n)[i].name == name
    ensures LastUse(run, n, name) >= 0 && After(run, n)[i].last == run[LastUse(run, n, name)].now
  {
    hide Expired;
    LastUseMarks(run, n);
    i :| 0 <= i < SLOTS && LiveAt(After(run, n), i, now) && After(run, n)[i].name == name;
    assert MarkedBy(run, n, After(run, n)[i]);
  }

  /** The order of marks is the order of last uses. */
  lemma UseOrder(run: seq<Timed>, n: nat, now: nat, x: Name, y: Name, i: nat, j: nat)
    requires n <= |run| && InOrder(run) && i < SLOTS && j < SLOTS
    requires LastUse(run, n, x) >= 0 && After(run, n)[i].last == run[LastUse(run, n, x)].now
    requires LastUse(run, n, y) >= 0 && After(run, n)[j].last == run[LastUse(run, n, y)].now
    ensures After(run, n)[i].last < After(run, n)[j].last <==> LastUse(run, n, x) < LastUse(run, n, y)
  {
  }

  /** What a set costs, told from the slots. */
  lemma Costs(slots: seq<Slot>, clock: nat, name: Name, v: Value, now: nat, x: Name)
    requires Valid(slots, clock) && clock < now < TWO32 * TWO32 && name != NO_NAME && x != name && Bound(slots, now, x)
    ensures !Bound(SetSlots(slots, name, v, now), now, x) <==>
            MustEvict(slots, name, now) && x == slots[Oldest(slots, SLOTS)].name
  {
    hide Expired, SetSlots, MustEvict, Oldest;
    var after := SetSlots(slots, name, v, now);
    var i :| 0 <= i < SLOTS && LiveAt(slots, i, now) && slots[i].name == x;
    SetRefines(slots, clock, name, v, now, x, slots[i].value);
    if Bound(after, now, x) {
      var k :| 0 <= k < |after| && LiveAt(after, k, now) && after[k].name == x;
      SetRefines(slots, clock, name, v, now, x, after[k].value);
      assert Maps(after, now, x, after[k].value);
    }
  }

  /**
   * Over any run on a new store: a set takes another name's place exactly if all 32 slots
   * are live and none has the name it stores, and then that name's whose last use, a set or
   * a get that found it, is the longest ago.
   */
  lemma EvictsLeastUsed(run: seq<Timed>, n: nat, x: Name)
    requires InOrder(run) && n < |run| && run[n].op.Set?
    requires x != run[n].op.name && Bound(After(run, n), run[n].now, x)
    ensures !Bound(After(run, n + 1), run[n].now, x) <==>
            && MustEvict(After(run, n), run[n].op.name, run[n].now)
            && forall y :: y != x && Bound(After(run, n), run[n].now, y) ==> LastUse(run, n, x) < LastUse(run, n, y)
  {
    hide Expired, Oldest, MustEvict, LastUse, SetSlots;
    var slots, name, now := After(run, n), run[n].op.name, run[n].now;
    LastUseMarks(run, n);
    assert ClockAt(run, n) < now;
    Costs(slots, ClockAt(run, n), name, run[n].op.v, now, x);
    if MustEvict(slots, name, now) {
      LeastUsed(run, n, name, now, x);
    }
  }

  lemma LeastUsed(run: seq<Timed>, n: nat, name: Name, now: nat, x: Name)
    requires InOrder(run) && n < |run| && name != NO_NAME && ClockAt(run, n) < now < TWO32 * TWO32
    requires Bound(After(run, n), now, x) && MustEvict(After(run, n), name, now)
    ensures var o := After(run, n)[Oldest(After(run, n), SLOTS)].name;
            x == o <==>
            forall y :: y != x && Bound(After(run, n), now, y) ==> LastUse(run, n, x) < LastUse(run, n, y)
  {
    hide Expired, LastUse, SetSlots;
    var slots := After(run, n);
    var k := Oldest(slots, SLOTS);
    LastUseMarks(run, n);
    SetKeepsValid(slots, ClockAt(run, n), name, [], now);
    assert LiveAt(slots, k, now);
    hide Oldest, MustEvict;
    var o := slots[k].name;
    assert Bound(slots, now, o);
    var i := SlotOf(run, n, now, x);
    assert MarkedBy(run, n, slots[k]);
    if x == o {
      forall y | y != x && Bound(slots, now, y)
        ensures LastUse(run, n, x) < LastUse(run, n, y)
      {
        var j := SlotOf(run, n, now, y);
        UseOrder(run, n, now, x, y, k, j);
      }
    } else {
      UseOrder(run, n, now, o, x, k, i);
    }
  }

  // --- a clock read before the latch ---------------------------------------------------------

  /** How far the clock an operation has read is behind a slot another one marked meanwhile, in ticks. */
  function TicksLate(slot: Slot, now: nat): int
  {
    slot.last / TWO32 - now / TWO32
  }

  /** The late operation takes a live slot for expired exactly if a tick lies between, and not nearly all the clock. */
  lemma LateIsExpired(slot: Slot, now: nat)
    requires now <= slot.last < TWO32 * TWO32
    ensures Expired(slot.last, now) <==> 0 < TicksLate(slot, now) <= TWO32 - TTL_TICKS
  {
    DivMonotone(now, slot.last);
    var d := TicksLate(slot, now);
    assert 0 <= d < TWO32;
    if d > 0 {
      assert (-d) % TWO32 == TWO32 - d;
    }
  }

  /**
   * The clock is read before the latch: an operation that waits while the key is
   * accessed and a tick passes does not find the key, and a set of another name
   * may be given its slot.
   */
  lemma LateMisses(slots: seq<Slot>, clock: nat, k: nat, now: nat, name: Name, v: Value)
    requires Valid(slots, clock) && k < SLOTS && !IsFree(slots[k]) && now <= slots[k].last
    ensures Bound(slots, now, slots[k].name) <==> !(0 < TicksLate(slots[k], now) <= TWO32 - TTL_TICKS)
    ensures 0 < TicksLate(slots[k], now) <= TWO32 - TTL_TICKS && Named(slots, name, 0) == SLOTS
            && (forall j :: 0 <= j < k ==> !Reusable(slots[j], now)) ==>
              SetSlots(slots, name, v, now) == slots[k := Slot(name, now, Cut(v))]
  {
    LateIsExpired(slots[k], now);
    hide Expired;
    assert !Expired(slots[k].last, now) ==> LiveAt(slots, k, now);
  }

  /** A key accessed at tick 5 is missed by the one who read the clock just before the tick. */
  lemma LateWitness(name: Name)
    requires name != NO_NAME
    ensures var slots := [Slot(name, 5 * TWO32, [])] + seq(SLOTS - 1, i => FREE_SLOT);
            && Valid(slots, 5 * TWO32)
            && Bound(slots, 5 * TWO32, name) && !Bound(slots, 5 * TWO32 - 1, name)
  {
    var slots := [Slot(name, 5 * TWO32, [])] + seq(SLOTS - 1, i => FREE_SLOT);
    FreeMeansNoName(slots[0]);
    LateMisses(slots, 5 * TWO32, 0, 5 * TWO32, name, []);
    LateMisses(slots, 5 * TWO32, 0, 5 * TWO32 - 1, name, []);
  }
}
