// The clock of the Master Trace Table has whole seconds and no date, and the table
// is a window: entries are appended at its end and evicted from its front. This is
// what the anchor and the count of src/mttsnap.c make of it, entry by entry.
module WindowClock {

  const DAY := 86400
  const HALF_DAY := 43200

  /** Where a table ended: the second of its newest stamped entry (-1: none), and
      the matches carrying exactly that second. */
  datatype Anchor = Anchor(secs: int, same: nat)

  /** What a detection sees of an entry: its second of the day (-1: none), and whether it matches. */
  datatype Mark = Mark(stamp: int, hit: bool)

  /** The time in force after entries lo..k: an unstamped entry takes the one before it. */
  function Current(w: seq<Mark>, lo: nat, k: nat): (s: int)
    requires lo <= k <= |w|
    ensures s >= -1
  {
    if k == lo then -1 else if w[k - 1].stamp >= 0 then w[k - 1].stamp else Current(w, lo, k - 1)
  }

  /** Matches of the second in force, since that second began. */
  function SameSecond(w: seq<Mark>, lo: nat, k: nat): nat
    requires lo <= k <= |w|
  {
    if k == lo then 0 else
    var s := w[k - 1].stamp;
    var before := if s >= 0 && s != Current(w, lo, k - 1) then 0 else SameSecond(w, lo, k - 1);
    before + (if Current(w, lo, k) >= 0 && w[k - 1].hit then 1 else 0)
  }

  function AnchorOf(w: seq<Mark>): Anchor
  {
    Anchor(Current(w, 0, |w|), SameSecond(w, 0, |w|))
  }

  /** How far a second lies behind the anchor's, going forward round the clock. */
  function Ahead(cur: int, secs: int): int
  {
    if cur >= secs then cur - secs else cur - secs + DAY
  }

  /** Matches of the anchor's own second among the entries lo..k. */
  function OwnSecond(w: seq<Mark>, lo: nat, k: nat, secs: int): nat
    requires lo <= k <= |w|
  {
    if k == lo then 0 else
    OwnSecond(w, lo, k - 1, secs) +
    (if Current(w, lo, k) >= 0 && w[k - 1].hit && Ahead(Current(w, lo, k), secs) == 0 then 1 else 0)
  }

  /** The entry at j is a match that a walk from lo on takes for new. */
  predicate Fresh(w: seq<Mark>, lo: nat, j: nat, anchor: Anchor)
    requires lo <= j < |w|
  {
    && Current(w, lo, j + 1) >= 0
    && w[j].hit
    && (anchor.secs >= 0 ==>
          var d := Ahead(Current(w, lo, j + 1), anchor.secs);
          if d == 0 then OwnSecond(w, lo, j + 1, anchor.secs) > anchor.same else d < HALF_DAY)
  }

  /** The matches among the first k entries that are taken for new. */
  function FreshCount(w: seq<Mark>, k: nat, anchor: Anchor): nat
    requires k <= |w|
  {
    if k == 0 then 0 else FreshCount(w, k - 1, anchor) + (if Fresh(w, 0, k - 1, anchor) then 1 else 0)
  }

  /** The newest of the first k entries that is taken for new, or -1. */
  function NewestFresh(marks: seq<Mark>, k: nat, anchor: Anchor): (j: int)
    requires k <= |marks|
    ensures -1 <= j < k
  {
    if k == 0 then -1 else if Fresh(marks, 0, k - 1, anchor) then k - 1 else NewestFresh(marks, k - 1, anchor)
  }

  // --- a window of the history -------------------------------------------------

  /** A walk over the window h[lo..hi] is a walk over the history from lo on. */
  lemma {:induction false} WindowWalk(h: seq<Mark>, lo: nat, hi: nat, k: nat, secs: int)
    requires lo <= k <= hi <= |h|
    ensures Current(h[lo..hi], 0, k - lo) == Current(h, lo, k)
    ensures SameSecond(h[lo..hi], 0, k - lo) == SameSecond(h, lo, k)
    ensures OwnSecond(h[lo..hi], 0, k - lo, secs) == OwnSecond(h, lo, k, secs)
    decreases k
  {
    if lo < k {
      assert h[lo..hi][k - lo - 1] == h[k - 1];
      WindowWalk(h, lo, hi, k - 1, secs);
    }
  }

  lemma WindowFresh(h: seq<Mark>, lo: nat, hi: nat, j: nat, anchor: Anchor)
    requires lo <= j < hi <= |h|
    ensures Fresh(h[lo..hi], 0, j - lo, anchor) == Fresh(h, lo, j, anchor)
  {
    WindowWalk(h, lo, hi, j + 1, anchor.secs);
  }

  // --- the history ---------------------------------------------------------------

  /** The true second of a stamped entry, from the day it was written on. */
  function Time(h: seq<Mark>, day: seq<nat>, i: nat): int
    requires i < |h| == |day|
  {
    day[i] * DAY + h[i].stamp
  }

  /** Everything ever written: stamps are times of day, and stamped entries are in time order. */
  ghost predicate History(h: seq<Mark>, day: seq<nat>)
  {
    && |h| == |day|
    && (forall i :: 0 <= i < |h| ==> -1 <= h[i].stamp < DAY)
    && (forall i, j :: 0 <= i <= j < |h| && h[i].stamp >= 0 && h[j].stamp >= 0 ==> Time(h, day, i) <= Time(h, day, j))
  }

  /** The anchor is taken from h[lo0..hi0]; later the table is h[lo1..hi1]. */
  ghost predicate Slid(h: seq<Mark>, day: seq<nat>, lo0: nat, hi0: nat, lo1: nat, hi1: nat)
  {
    lo0 <= hi0 <= hi1 <= |h| && lo0 <= lo1 <= hi1 && History(h, day)
  }

  /** z is the newest stamped entry of h[lo..hi]. */
  ghost predicate Newest(h: seq<Mark>, lo: nat, hi: nat, z: nat)
    requires lo <= hi <= |h|
  {
    lo <= z < hi && h[z].stamp >= 0 && forall i :: z < i < hi ==> h[i].stamp < 0
  }

  /** Every stamped entry of either window is less than half a day from the anchor's. */
  ghost predicate Near(h: seq<Mark>, day: seq<nat>, lo0: nat, hi1: nat, z: nat)
    requires lo0 <= hi1 <= |h| && |h| == |day| && z < |h|
  {
    forall i :: lo0 <= i < hi1 && h[i].stamp >= 0 ==>
      -HALF_DAY < Time(h, day, i) - Time(h, day, z) < HALF_DAY
  }

  /** The time in force is the stamp of the newest stamped entry read so far, if there is one. */
  lemma {:induction false} CurrentIs(h: seq<Mark>, lo: nat, k: nat) returns (g: int)
    requires lo <= k <= |h|
    ensures g == -1 || (g >= 0 && Newest(h, lo, k, g))
    ensures g == -1 ==> Current(h, lo, k) == -1 && forall i :: lo <= i < k ==> h[i].stamp < 0
    ensures g >= 0 ==> Current(h, lo, k) == h[g].stamp
    decreases k
  {
    if lo == k {
      g := -1;
    } else if h[k - 1].stamp >= 0 {
      g := k - 1;
    } else {
      g := CurrentIs(h, lo, k - 1);
    }
  }

  /** Clock arithmetic: within half a day the forward distance tells before, same and after. */
  lemma ClockTells(h: seq<Mark>, day: seq<nat>, i: nat, z: nat)
    requires i < |h| == |day| && z < |h|
    requires 0 <= h[i].stamp < DAY && 0 <= h[z].stamp < DAY
    requires -HALF_DAY < Time(h, day, i) - Time(h, day, z) < HALF_DAY
    ensures var d := Ahead(h[i].stamp, h[z].stamp);
            && (d == 0 <==> Time(h, day, i) == Time(h, day, z))
            && (0 < d < HALF_DAY <==> Time(h, day, i) > Time(h, day, z))
            && (h[i].stamp == h[z].stamp <==> d == 0)
  {
  }

  /** The later window reads the same time at an entry, unless it has lost the stamp. */
  lemma {:induction false} CurrentAgrees(h: seq<Mark>, lo0: nat, lo1: nat, j: nat)
    requires lo0 <= lo1 <= j <= |h|
    ensures Current(h, lo1, j) == -1 || Current(h, lo1, j) == Current(h, lo0, j)
    decreases j
  {
    if lo1 < j && h[j - 1].stamp < 0 {
      CurrentAgrees(h, lo0, lo1, j - 1);
    }
  }

  /** Once the anchor's second has begun, nothing else is stamped to the end of its window. */
  lemma SecondLasts(h: seq<Mark>, day: seq<nat>, lo0: nat, hi0: nat, z: nat, j: nat)
    requires lo0 <= j < hi0 <= |h| && History(h, day)
    requires Newest(h, lo0, hi0, z) && Near(h, day, lo0, hi0, z)
    requires Current(h, lo0, j) == h[z].stamp && h[j].stamp >= 0
    ensures h[j].stamp == h[z].stamp
  {
    var g := CurrentIs(h, lo0, j);
    ClockTells(h, day, g, z);
    ClockTells(h, day, j, z);
    assert Time(h, day, g) <= Time(h, day, j) <= Time(h, day, z);
  }

  /**
   * The old matches of the anchor's second that the later window still holds are
   * among those the anchor counted: no reset of its count loses one of them.
   */
  lemma {:induction false} OldOnesWereCounted(h: seq<Mark>, day: seq<nat>, lo0: nat, hi0: nat, lo1: nat, z: nat, j: nat)
    requires lo0 <= lo1 <= j <= hi0 <= |h| && History(h, day)
    requires Newest(h, lo0, hi0, z) && Near(h, day, lo0, hi0, z)
    ensures OwnSecond(h, lo1, j, h[z].stamp)
         <= if Current(h, lo0, j) == h[z].stamp then SameSecond(h, lo0, j) else 0
    decreases j
  {
    if lo1 < j {
      OldOnesWereCounted(h, day, lo0, hi0, lo1, z, j - 1);
      CurrentAgrees(h, lo0, lo1, j);
      if h[j - 1].stamp >= 0 && Current(h, lo0, j - 1) == h[z].stamp {
        SecondLasts(h, day, lo0, hi0, z, j - 1);
      }
    }
  }

  lemma {:induction false} OwnSecondGrows(w: seq<Mark>, lo: nat, k: nat, m: nat, secs: int)
    requires lo <= k <= m <= |w|
    ensures OwnSecond(w, lo, k, secs) <= OwnSecond(w, lo, m, secs)
    decreases m
  {
    if k < m {
      OwnSecondGrows(w, lo, k, m - 1, secs);
    }
  }

  /**
   * Soundness: every entry a detection counts was appended after its anchor was
   * taken -- over midnight, after a partial eviction of the anchor's own second,
   * and from an anchor with nothing stamped.
   */
  lemma CountedIsNew(h: seq<Mark>, day: seq<nat>, lo0: nat, hi0: nat, lo1: nat, hi1: nat, j: nat)
    requires Slid(h, day, lo0, hi0, lo1, hi1)
    requires forall z :: Newest(h, lo0, hi0, z) ==> Near(h, day, lo0, hi1, z)
    requires lo1 <= j < hi1
    requires Fresh(h[lo1..hi1], 0, j - lo1, AnchorOf(h[lo0..hi0]))
    ensures j >= hi0
  {
    hide SameSecond, Current, OwnSecond;
    var anchor := AnchorOf(h[lo0..hi0]);
    WindowWalk(h, lo0, hi0, hi0, 0);
    WindowFresh(h, lo1, hi1, j, anchor);
    var z := CurrentIs(h, lo0, hi0);
    var g := CurrentIs(h, lo1, j + 1);
    if j < hi0 {
      assert Time(h, day, g) <= Time(h, day, z);
      ClockTells(h, day, g, z);
      OldOnesWereCounted(h, day, lo0, hi0, lo1, z, hi0);
      OwnSecondGrows(h, lo1, j + 1, hi0, anchor.secs);
      assert false;
    }
  }

  /**
   * Completeness: a match whose time, its own or that of the line it continues, is
   * still in the table and later than the anchor's second is counted.
   */
  lemma LaterIsCounted(h: seq<Mark>, day: seq<nat>, lo0: nat, hi0: nat, lo1: nat, hi1: nat, j: nat, g: nat)
    requires Slid(h, day, lo0, hi0, lo1, hi1)
    requires lo1 <= j < hi1 && h[j].hit && Newest(h, lo1, j + 1, g)
    requires forall z :: Newest(h, lo0, hi0, z) ==> Near(h, day, lo0, hi1, z) && Time(h, day, g) > Time(h, day, z)
    ensures Fresh(h[lo1..hi1], 0, j - lo1, AnchorOf(h[lo0..hi0]))
  {
    var anchor := AnchorOf(h[lo0..hi0]);
    WindowWalk(h, lo0, hi0, hi0, 0);
    WindowFresh(h, lo1, hi1, j, anchor);
    var z := CurrentIs(h, lo0, hi0);
    var g' := CurrentIs(h, lo1, j + 1);
    assert g == g';
    if z >= 0 {
      ClockTells(h, day, g, z);
    }
  }

  /** Nothing of the anchor's own second has been evicted. */
  ghost predicate OwnSecondKept(h: seq<Mark>, lo0: nat, hi0: nat, lo1: nat)
    requires lo0 <= hi0 <= |h|
  {
    lo1 <= hi0 && forall k :: lo0 < k <= lo1 ==> Current(h, lo0, k) != Current(h, lo0, hi0)
  }

  /** As long as the anchor's second is all there, its old matches are counted again in full. */
  lemma {:induction false} OldOnesAreAllThere(h: seq<Mark>, lo0: nat, hi0: nat, lo1: nat, j: nat)
    requires lo0 <= lo1 <= j <= hi0 <= |h| && OwnSecondKept(h, lo0, hi0, lo1)
    requires Current(h, lo0, hi0) >= 0 && Current(h, lo0, j) == Current(h, lo0, hi0)
    ensures lo1 < j && Current(h, lo1, j) == Current(h, lo0, hi0)
    ensures OwnSecond(h, lo1, j, Current(h, lo0, hi0)) >= SameSecond(h, lo0, j)
    decreases j
  {
    var secs := Current(h, lo0, hi0);
    if Current(h, lo0, j - 1) == secs {
      OldOnesAreAllThere(h, lo0, hi0, lo1, j - 1);
    }
  }

  /** With the anchor's second still whole, a detection counts exactly the matches that came since. */
  lemma CountedExactly(h: seq<Mark>, day: seq<nat>, lo0: nat, hi0: nat, lo1: nat, hi1: nat, z: nat, j: nat)
    requires Slid(h, day, lo0, hi0, lo1, hi1) && OwnSecondKept(h, lo0, hi0, lo1)
    requires Newest(h, lo0, hi0, z) && Near(h, day, lo0, hi1, z)
    requires lo1 <= j < hi1
    ensures Fresh(h[lo1..hi1], 0, j - lo1, AnchorOf(h[lo0..hi0])) <==> j >= hi0 && h[j].hit
  {
    var anchor := AnchorOf(h[lo0..hi0]);
    WindowWalk(h, lo0, hi0, hi0, 0);
    WindowFresh(h, lo1, hi1, j, anchor);
    var z' := CurrentIs(h, lo0, hi0);
    assert z' == z;
    if Fresh(h, lo1, j, anchor) {
      CountedIsNew(h, day, lo0, hi0, lo1, hi1, j);
    } else if j >= hi0 && h[j].hit {
      OldOnesAreAllThere(h, lo0, hi0, lo1, hi0);
      var y := CurrentIs(h, lo1, hi0);
      var g := CurrentIs(h, lo1, j + 1);
      assert y == z;
      assert z <= g;
      ClockTells(h, day, g, z);
      if Time(h, day, g) == Time(h, day, z) {
        OwnSecondGrows(h, lo1, hi0, j, anchor.secs);
      }
      assert false;
    }
  }

  lemma {:induction false} NewestFreshIs(marks: seq<Mark>, k: nat, anchor: Anchor)
    requires k <= |marks|
    ensures var j := NewestFresh(marks, k, anchor);
            && (j >= 0 <==> FreshCount(marks, k, anchor) > 0)
            && (j >= 0 ==> Fresh(marks, 0, j, anchor))
            && forall i :: j < i < k ==> !Fresh(marks, 0, i, anchor)
  {
    if k > 0 {
      NewestFreshIs(marks, k - 1, anchor);
    }
  }

  /** "detected" is never an old line: the one reported is a match that came in after the anchor. */
  lemma DetectedMeansNew(h: seq<Mark>, day: seq<nat>, lo0: nat, hi0: nat, lo1: nat, hi1: nat)
    requires Slid(h, day, lo0, hi0, lo1, hi1)
    requires forall z :: Newest(h, lo0, hi0, z) ==> Near(h, day, lo0, hi1, z)
    requires FreshCount(h[lo1..hi1], hi1 - lo1, AnchorOf(h[lo0..hi0])) > 0
    ensures var j := lo1 + NewestFresh(h[lo1..hi1], hi1 - lo1, AnchorOf(h[lo0..hi0]));
            hi0 <= j < hi1 && h[j].hit
  {
    hide SameSecond, Current, OwnSecond, AnchorOf;
    var anchor := AnchorOf(h[lo0..hi0]);
    var j := NewestFresh(h[lo1..hi1], hi1 - lo1, anchor);
    NewestFreshIs(h[lo1..hi1], hi1 - lo1, anchor);
    CountedIsNew(h, day, lo0, hi0, lo1, hi1, lo1 + j);
    assert h[lo1..hi1][j] == h[lo1 + j];
  }

  function Hits(marks: seq<Mark>, lo: nat, hi: nat): nat
    requires lo <= hi <= |marks|
  {
    if lo == hi then 0 else Hits(marks, lo, hi - 1) + (if marks[hi - 1].hit then 1 else 0)
  }

  lemma {:induction false} FreshAreHits(h: seq<Mark>, day: seq<nat>, lo0: nat, hi0: nat, lo1: nat, hi1: nat,
      z: nat, k: nat)
    requires Slid(h, day, lo0, hi0, lo1, hi1) && OwnSecondKept(h, lo0, hi0, lo1)
    requires Newest(h, lo0, hi0, z) && Near(h, day, lo0, hi1, z)
    requires lo1 <= hi0 && lo1 <= k <= hi1
    ensures FreshCount(h[lo1..hi1], k - lo1, AnchorOf(h[lo0..hi0])) == if k <= hi0 then 0 else Hits(h, hi0, k)
    decreases k
  {
    if lo1 < k {
      CountedExactly(h, day, lo0, hi0, lo1, hi1, z, k - 1);
      FreshAreHits(h, day, lo0, hi0, lo1, hi1, z, k - 1);
    }
  }

  /** While nothing of the anchor's second has been evicted, the count is the number of matches since. */
  lemma CountWhileWhole(h: seq<Mark>, day: seq<nat>, lo0: nat, hi0: nat, lo1: nat, hi1: nat, z: nat)
    requires Slid(h, day, lo0, hi0, lo1, hi1) && OwnSecondKept(h, lo0, hi0, lo1)
    requires Newest(h, lo0, hi0, z) && Near(h, day, lo0, hi1, z)
    ensures FreshCount(h[lo1..hi1], hi1 - lo1, AnchorOf(h[lo0..hi0])) == Hits(h, hi0, hi1)
  {
    FreshAreHits(h, day, lo0, hi0, lo1, hi1, z, hi1);
  }

  // --- the exact count ------------------------------------------------------------

  /** Where the later table's share of what came in since the anchor begins. */
  function Since(hi0: nat, lo1: nat): nat
  {
    if lo1 <= hi0 then hi0 else lo1
  }

  /** Matches among the entries from..k that a walk from lo on reads without a time. */
  function Untimed(w: seq<Mark>, lo: nat, from: nat, k: nat): nat
    requires lo <= from <= k <= |w|
  {
    if k == from then 0 else
    Untimed(w, lo, from, k - 1) + (if w[k - 1].hit && Current(w, lo, k) < 0 then 1 else 0)
  }

  /** New matches in the anchor's own second, up to k. */
  function NewOwn(h: seq<Mark>, hi0: nat, lo1: nat, k: nat, secs: int): int
    requires lo1 <= Since(hi0, lo1) <= k <= |h|
  {
    OwnSecond(h, lo1, k, secs) - OwnSecond(h, lo1, Since(hi0, lo1), secs)
  }

  /** Matches the anchor counted in its second that the later table has lost, or lost the time of. */
  function OldGone(h: seq<Mark>, lo0: nat, hi0: nat, lo1: nat, secs: int): int
    requires lo0 <= hi0 <= |h| && lo1 <= |h|
  {
    SameSecond(h, lo0, hi0) - OwnSecond(h, lo1, Since(hi0, lo1), secs)
  }

  function Fewer(a: int, b: int): int
  {
    if a <= b then a else b
  }

  /** Before anything is stamped no second is anybody's own. */
  lemma {:induction false} NoOwnSecond(h: seq<Mark>, lo: nat, k: nat)
    requires lo <= k <= |h|
    ensures OwnSecond(h, lo, k, -1) == 0
    ensures Current(h, lo, k) == -1 ==> SameSecond(h, lo, k) == 0
    decreases k
  {
    if lo < k {
      NoOwnSecond(h, lo, k - 1);
    }
  }

  lemma OldGoneSome(h: seq<Mark>, day: seq<nat>, lo0: nat, hi0: nat, lo1: nat, hi1: nat)
    requires Slid(h, day, lo0, hi0, lo1, hi1)
    requires forall z :: Newest(h, lo0, hi0, z) ==> Near(h, day, lo0, hi1, z)
    ensures OldGone(h, lo0, hi0, lo1, Current(h, lo0, hi0)) >= 0
  {
    var z := CurrentIs(h, lo0, hi0);
    if z < 0 {
      NoOwnSecond(h, lo1, Since(hi0, lo1));
    } else if lo1 <= hi0 {
      OldOnesWereCounted(h, day, lo0, hi0, lo1, z, hi0);
    }
  }

  /** What came in since has, if any, a time less than half a day ahead of the anchor's. */
  lemma NewIsAhead(h: seq<Mark>, day: seq<nat>, lo0: nat, hi0: nat, lo1: nat, hi1: nat, j: nat)
    requires Slid(h, day, lo0, hi0, lo1, hi1)
    requires forall z :: Newest(h, lo0, hi0, z) ==> Near(h, day, lo0, hi1, z)
    requires Since(hi0, lo1) <= j < hi1
    ensures Current(h, lo0, hi0) >= 0 && Current(h, lo1, j + 1) >= 0 ==>
              Ahead(Current(h, lo1, j + 1), Current(h, lo0, hi0)) < HALF_DAY
  {
    hide Current;
    var z := CurrentIs(h, lo0, hi0);
    var g := CurrentIs(h, lo1, j + 1);
    if z >= 0 && g >= 0 {
      assert z <= g;
      ClockTells(h, day, g, z);
    }
  }

  /** Of what came in since, a match with a time is counted unless taken for an old one of the anchor's second. */
  lemma NewIsFresh(h: seq<Mark>, day: seq<nat>, lo0: nat, hi0: nat, lo1: nat, hi1: nat, j: nat)
    requires Slid(h, day, lo0, hi0, lo1, hi1)
    requires forall z :: Newest(h, lo0, hi0, z) ==> Near(h, day, lo0, hi1, z)
    requires Since(hi0, lo1) <= j < hi1
    ensures var secs := Current(h, lo0, hi0);
            Fresh(h[lo1..hi1], 0, j - lo1, AnchorOf(h[lo0..hi0])) <==>
            && h[j].hit && Current(h, lo1, j + 1) >= 0
            && (secs >= 0 && Ahead(Current(h, lo1, j + 1), secs) == 0 ==>
                  OwnSecond(h, lo1, j + 1, secs) > SameSecond(h, lo0, hi0))
  {
    hide Near, Newest, History, Current, SameSecond, OwnSecond, Ahead;
    WindowWalk(h, lo0, hi0, hi0, 0);
    WindowFresh(h, lo1, hi1, j, AnchorOf(h[lo0..hi0]));
    NewIsAhead(h, day, lo0, hi0, lo1, hi1, j);
  }

  lemma {:induction false} CountSoFar(h: seq<Mark>, day: seq<nat>, lo0: nat, hi0: nat, lo1: nat, hi1: nat, k: nat)
    requires Slid(h, day, lo0, hi0, lo1, hi1)
    requires forall z :: Newest(h, lo0, hi0, z) ==> Near(h, day, lo0, hi1, z)
    requires lo1 <= k <= hi1
    ensures var from, secs := Since(hi0, lo1), Current(h, lo0, hi0);
            FreshCount(h[lo1..hi1], k - lo1, AnchorOf(h[lo0..hi0])) ==
            if k <= from then 0 else
            Hits(h, from, k) - Untimed(h, lo1, from, k)
            - Fewer(NewOwn(h, hi0, lo1, k, secs), OldGone(h, lo0, hi0, lo1, secs))
    decreases k
  {
    hide Fresh, AnchorOf, SameSecond, History, Near, Newest;
    if lo1 < k {
      var from, anchor := Since(hi0, lo1), AnchorOf(h[lo0..hi0]);
      OldGoneSome(h, day, lo0, hi0, lo1, hi1);
      CountSoFar(h, day, lo0, hi0, lo1, hi1, k - 1);
      if k <= from {
        if Fresh(h[lo1..hi1], 0, k - 1 - lo1, anchor) {
          CountedIsNew(h, day, lo0, hi0, lo1, hi1, k - 1);
        }
      } else {
        NewIsFresh(h, day, lo0, hi0, lo1, hi1, k - 1);
        NoOwnSecond(h, lo1, k);
      }
    }
  }

  /**
   * How far the count falls short of the matches since the anchor: by those evicted,
   * those whose time was evicted, and the new ones in the anchor's own second as far
   * as old ones of that second are gone, for which they are taken.
   */
  lemma CountFallsShort(h: seq<Mark>, day: seq<nat>, lo0: nat, hi0: nat, lo1: nat, hi1: nat)
    requires Slid(h, day, lo0, hi0, lo1, hi1)
    requires forall z :: Newest(h, lo0, hi0, z) ==> Near(h, day, lo0, hi1, z)
    ensures var from, secs := Since(hi0, lo1), Current(h, lo0, hi0);
            FreshCount(h[lo1..hi1], hi1 - lo1, AnchorOf(h[lo0..hi0])) ==
            Hits(h, hi0, hi1) - Hits(h, hi0, from) - Untimed(h, lo1, from, hi1)
            - Fewer(NewOwn(h, hi0, lo1, hi1, secs), OldGone(h, lo0, hi0, lo1, secs))
  {
    CountSoFar(h, day, lo0, hi0, lo1, hi1, hi1);
    HitsJoin(h, hi0, Since(hi0, lo1), hi1);
    OldGoneSome(h, day, lo0, hi0, lo1, hi1);
  }

  lemma {:induction false} HitsJoin(h: seq<Mark>, lo: nat, mid: nat, hi: nat)
    requires lo <= mid <= hi <= |h|
    ensures Hits(h, lo, hi) == Hits(h, lo, mid) + Hits(h, mid, hi)
    decreases hi
  {
    if mid < hi {
      HitsJoin(h, lo, mid, hi - 1);
    }
  }

  /** No new match is evicted, without its time, or taken for an old one of the anchor's second. */
  predicate CountHolds(h: seq<Mark>, lo0: nat, hi0: nat, lo1: nat, hi1: nat)
    requires lo0 <= hi0 <= hi1 <= |h| && lo1 <= hi1
  {
    var from, secs := Since(hi0, lo1), Current(h, lo0, hi0);
    && Hits(h, hi0, from) == 0
    && Untimed(h, lo1, from, hi1) == 0
    && (NewOwn(h, hi0, lo1, hi1, secs) == 0 || OldGone(h, lo0, hi0, lo1, secs) == 0)
  }

  /**
   * The count is the number of matches since the anchor, from any anchor, exactly if
   * none of those is evicted or has lost its time, and either none of them fell into
   * the anchor's own second or no old match of that second is gone.
   */
  lemma CountIsExact(h: seq<Mark>, day: seq<nat>, lo0: nat, hi0: nat, lo1: nat, hi1: nat)
    requires Slid(h, day, lo0, hi0, lo1, hi1)
    requires forall z :: Newest(h, lo0, hi0, z) ==> Near(h, day, lo0, hi1, z)
    ensures FreshCount(h[lo1..hi1], hi1 - lo1, AnchorOf(h[lo0..hi0])) == Hits(h, hi0, hi1)
            <==> CountHolds(h, lo0, hi0, lo1, hi1)
  {
    var from, secs := Since(hi0, lo1), Current(h, lo0, hi0);
    CountFallsShort(h, day, lo0, hi0, lo1, hi1);
    OldGoneSome(h, day, lo0, hi0, lo1, hi1);
    OwnSecondGrows(h, lo1, from, hi1, secs);
  }

  /** While the anchor's newest stamp is in the table, its own second alone decides. */
  lemma {:induction false} NothingUntimed(h: seq<Mark>, lo0: nat, hi0: nat, lo1: nat, k: nat, z: nat)
    requires lo0 <= hi0 <= k <= |h| && lo1 <= z && Newest(h, lo0, hi0, z)
    ensures Since(hi0, lo1) == hi0 && Current(h, lo1, k) >= 0 && Untimed(h, lo1, hi0, k) == 0
    decreases k
  {
    var g := CurrentIs(h, lo1, k);
    if hi0 < k {
      NothingUntimed(h, lo0, hi0, lo1, k - 1, z);
    }
  }

  lemma OwnSecondDecides(h: seq<Mark>, day: seq<nat>, lo0: nat, hi0: nat, lo1: nat, hi1: nat, z: nat)
    requires Slid(h, day, lo0, hi0, lo1, hi1)
    requires lo1 <= z && Newest(h, lo0, hi0, z) && Near(h, day, lo0, hi1, z)
    ensures var secs := h[z].stamp;
            FreshCount(h[lo1..hi1], hi1 - lo1, AnchorOf(h[lo0..hi0])) == Hits(h, hi0, hi1) <==>
            || OwnSecond(h, lo1, hi0, secs) == SameSecond(h, lo0, hi0)
            || OwnSecond(h, lo1, hi1, secs) == OwnSecond(h, lo1, hi0, secs)
  {
    var z' := CurrentIs(h, lo0, hi0);
    assert z' == z;
    NothingUntimed(h, lo0, hi0, lo1, hi1, z);
    CountIsExact(h, day, lo0, hi0, lo1, hi1);
  }

  /** One second, an old match evicted and a new one come in: nothing is detected. */
  lemma TakenForOldWitness()
    ensures var h := [Mark(5, true), Mark(5, false), Mark(5, true)];
            && Slid(h, [0, 0, 0], 0, 2, 1, 3) && Newest(h, 0, 2, 1) && Near(h, [0, 0, 0], 0, 3, 1)
            && Hits(h, 2, 3) == 1
            && FreshCount(h[1..3], 2, AnchorOf(h[0..2])) == 0
  {
    var h := [Mark(5, true), Mark(5, false), Mark(5, true)];
    assert h[0..2] == [Mark(5, true), Mark(5, false)] && h[1..3] == [Mark(5, false), Mark(5, true)];
    var w, anchor := [Mark(5, false), Mark(5, true)], Anchor(5, 1);
    assert AnchorOf([Mark(5, true), Mark(5, false)]) == anchor by {
      assert SameSecond([Mark(5, true), Mark(5, false)], 0, 1) == 1;
    }
    assert FreshCount(w, 2, anchor) == 0 by {
      assert OwnSecond(w, 0, 1, 5) == 0 && OwnSecond(w, 0, 2, 5) == 1;
      assert !Fresh(w, 0, 0, anchor) && !Fresh(w, 0, 1, anchor);
    }
    assert Hits(h, 2, 2) == 0;
  }
}
