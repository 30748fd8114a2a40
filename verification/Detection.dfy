// The anchor and the count of new matches of src/mttsnap.c, over a table that is
// a window: entries are appended at its end and evicted from its front, and its
// clock has whole seconds and no date.
module Detection {
  import opened Texts
  import opened TraceTable
  import opened WindowClock

  const SNAP_FAILED := -1
  const SCAN_MAX := 199

  function Upper(s: string): (u: string)
    ensures |u| == |s|
  {
    seq(|s|, i requires 0 <= i < |s| => if 'a' <= s[i] <= 'z' then (s[i] as int - 32) as char else s[i])
  }

  predicate OccursAt(s: string, t: string, i: nat)
  {
    i + |t| <= |s| && s[i..i + |t|] == t
  }

  /** mtt_entry_has(): the upper-cased text of the entry contains the keyword. */
  predicate Has(e: Entry, keyword: string)
  {
    e.Line? && exists i: nat :: i <= |e.dat| && OccursAt(Upper(Scanned(e.dat)), keyword, i)
  }

  /** What of a line the search sees. */
  function Scanned(dat: string): string { if |dat| > SCAN_MAX then dat[..SCAN_MAX] else dat }

  const SMALL := "abcdefghijklmnopqrstuvwxyz"
  const CAPITAL := "ABCDEFGHIJKLMNOPQRSTUVWXYZ"

  /** c is a small letter and u its capital, or c is none and u is c. */
  ghost predicate Raised(c: char, u: char)
  {
    if c in SMALL then exists n :: 0 <= n < 26 && SMALL[n] == c && CAPITAL[n] == u else u == c
  }

  lemma Letters(n: nat)
    requires n < 26
    ensures SMALL[n] as int == 97 + n && CAPITAL[n] as int == 65 + n
  {
  }

  lemma IsSmall(c: char)
    ensures c in SMALL <==> 'a' <= c <= 'z'
  {
    if 'a' <= c <= 'z' {
      Letters(c as int - 97);
      assert SMALL[c as int - 97] == c;
    } else if c in SMALL {
      var n :| 0 <= n < 26 && SMALL[n] == c;
      Letters(n);
    }
  }

  lemma RaisedExact(c: char, u: char)
    ensures Raised(c, u) <==> Upper([c]) == [u]
  {
    assert Upper([c])[0] == if 'a' <= c <= 'z' then (c as int - 32) as char else c;
    IsSmall(c);
    if c in SMALL {
      var n := c as int - 97;
      Letters(n);
      forall m: nat | m < 26 && SMALL[m] == c
        ensures m == n
      {
        Letters(m);
      }
    }
  }

  /** From i on, the text shows the keyword, small letters for its capitals too. */
  ghost predicate Shows(dat: string, keyword: string, i: nat)
  {
    i + |keyword| <= |dat| && forall k :: 0 <= k < |keyword| ==> Raised(dat[i + k], keyword[k])
  }

  /** A line is marked exactly if its first 199 characters show the keyword; an empty slot never is. */
  lemma HasExact(e: Entry, keyword: string)
    ensures Has(e, keyword) <==>
            e.Line? && exists i: nat :: i + |keyword| <= 199 && Shows(e.dat, keyword, i)
  {
    if e.Line? {
      var scan := Scanned(e.dat);
      forall i: nat
        ensures i + |keyword| <= 199 && Shows(e.dat, keyword, i) <==> i <= |e.dat| && OccursAt(Upper(scan), keyword, i)
      {
        ShownAt(scan, keyword, i);
        hide Raised, Upper;
      }
      hide Shows, OccursAt, Upper;
    }
  }

  lemma ShownAt(dat: string, keyword: string, i: nat)
    ensures Shows(dat, keyword, i) <==> OccursAt(Upper(dat), keyword, i)
  {
    if i + |keyword| <= |dat| {
      var up := Upper(dat);
      forall k | 0 <= k < |keyword|
        ensures Raised(dat[i + k], keyword[k]) <==> up[i + k] == keyword[k]
      {
        RaisedExact(dat[i + k], keyword[k]);
        assert Upper([dat[i + k]])[0] == up[i + k];
      }
      hide Raised;
      SameText(up[i..i + |keyword|], keyword);
    }
  }

  lemma SameText(a: string, b: string)
    requires |a| == |b|
    ensures a == b <==> forall k :: 0 <= k < |b| ==> a[k] == b[k]
  {
  }

  function MarkOf(e: Entry, keyword: string): Mark
  {
    Mark(Stamp(e), Has(e, keyword))
  }

  /** What the detection sees of a whole table. */
  function Marks(w: seq<Entry>, keyword: string): (ms: seq<Mark>)
    ensures |ms| == |w| && forall i :: 0 <= i < |w| ==> ms[i] == MarkOf(w[i], keyword)
  {
    seq(|w|, i requires 0 <= i < |w| => MarkOf(w[i], keyword))
  }

  /** mtt_detect_anchor() */
  method TakeAnchor(snap: Snapshot, keyword: string) returns (rc: int, anchor: Anchor)
    ensures rc == if snap.Failed? then -1 else 0
    ensures snap.Table? ==> anchor == AnchorOf(Marks(snap.entries, keyword))
  {
    if snap.Failed? {
      return SNAP_FAILED, Anchor(-1, 0);
    }
    var w := snap.entries;
    ghost var marks := Marks(w, keyword);
    var cur: int, same: nat := -1, 0;
    for i := 0 to |w|
      invariant cur == Current(marks, 0, i) && same == SameSecond(marks, 0, i)
    {
      assert marks[i] == MarkOf(w[i], keyword);
      if w[i].Line? {
        var s := ReadSecsOfDay(w[i].dat);
        if s >= 0 && s != cur {
          cur := s;
          same := 0;
        }
        if cur >= 0 && Has(w[i], keyword) {
          same := same + 1;
        }
      }
    }
    return 0, Anchor(cur, same);
  }

  /** The message text of a line, without prefix and surrounding blanks, cut to the buffer. */
  function MessageText(dat: string, size: nat): string
    requires size > 0
  {
    var off := BlanksEnd(dat, if |dat| > MSG_OFF then MSG_OFF else 0);
    var m := TrimRight(dat[off..]);
    if |m| > size - 1 then m[..size - 1] else m
  }

  /**
   * Behind 24 characters of prefix stand blanks, the message and blanks: the message is
   * reported, cut to the buffer. A line of 24 characters or less is all message.
   */
  lemma MessageShown(short: bool, prefix: string, front: string, text: string, behind: string, size: nat)
    requires |prefix| == (if short then 0 else 24) && size > 0
    requires if short then |front + text + behind| <= 24 else front + text + behind != ""
    requires forall i :: 0 <= i < |front| ==> front[i] == ' '
    requires forall i :: 0 <= i < |behind| ==> behind[i] == ' '
    requires text == "" || (text[0] != ' ' && text[|text| - 1] != ' ')
    ensures MessageText(prefix + front + text + behind, size) == if |text| < size then text else text[..size - 1]
  {
    var dat := prefix + front + text + behind;
    var p := |prefix|;
    assert |prefix + front| == p + |front| && dat == (prefix + front) + (text + behind);
    assert forall k :: p <= k < p + |front| ==> dat[k] == front[k - p];
    var off := BlanksEnd(dat, p);
    if text != "" {
      assert dat[p + |front|] == text[0];
      assert off == p + |front|;
      assert dat[off..] == text + behind;
      TrimmedOff(text, behind);
    } else {
      assert forall k :: p + |front| <= k < |dat| ==> dat[k] == behind[k - p - |front|];
      assert off == |dat| && dat[off..] == "";
      assert TrimRight("") == "";
    }
  }

  /** The copy into the caller's buffer: skip the prefix, strip, cut. */
  method CutMessage(dat: string, size: nat) returns (text: string)
    requires size > 0
    ensures text == MessageText(dat, size)
  {
    var off := if |dat| > MSG_OFF then MSG_OFF else 0;
    ghost var from := off;
    while off < |dat| && dat[off] == ' '
      invariant from <= off <= |dat| && BlanksEnd(dat, from) == BlanksEnd(dat, off)
    {
      off := off + 1;
    }
    var mlen := TrimmedLength(dat[off..]);
    if mlen > size - 1 {
      mlen := size - 1;
    }
    text := dat[off..][..mlen];
  }

  /** The distance round the clock as the source computes it, modulo one day. */
  function ClockDelta(cur: int, secs: int): (d: int)
    requires 0 <= cur < DAY && 0 <= secs < DAY
    ensures d == Ahead(cur, secs)
  {
    (cur - secs + DAY) % DAY
  }

  /** The text a detection reports: that of the newest new match; none without one, or without a buffer. */
  function LatestText(w: seq<Entry>, marks: seq<Mark>, k: nat, anchor: Anchor, size: nat): string
    requires k <= |marks| == |w|
  {
    var j := NewestFresh(marks, k, anchor);
    if size > 0 && j >= 0 && w[j].Line? then MessageText(w[j].dat, size) else ""
  }

  lemma FreshIsLine(w: seq<Entry>, keyword: string, anchor: Anchor)
    ensures forall j: nat :: j < |w| && Fresh(Marks(w, keyword), 0, j, anchor) ==> w[j].Line?
  {
  }

  /** mtt_detect_since(): how many matches are new, and the text of the newest. */
  method DetectSince(snap: Snapshot, keyword: string, anchor: Anchor, size: nat)
    returns (count: int, latest: string)
    requires anchor.secs < DAY
    ensures snap.Failed? ==> count == -1 && latest == ""
    ensures snap.Table? ==> count == FreshCount(Marks(snap.entries, keyword), |snap.entries|, anchor)
    ensures size == 0 || count <= 0 ==> latest == ""
    ensures size > 0 && count > 0 ==>
              var marks := Marks(snap.entries, keyword);
              var j := NewestFresh(marks, |marks|, anchor);
              && 0 <= j && Fresh(marks, 0, j, anchor) && (forall i :: j < i < |marks| ==> !Fresh(marks, 0, i, anchor))
              && snap.entries[j].Line? && latest == MessageText(snap.entries[j].dat, size)
  {
    latest := "";
    if snap.Failed? {
      return SNAP_FAILED, latest;
    }
    var w := snap.entries;
    ghost var marks := Marks(w, keyword);
    var cur, same := -1, 0;
    count := 0;
    for i := 0 to |w|
      invariant cur == Current(marks, 0, i) && cur < DAY
      invariant anchor.secs >= 0 ==> same == OwnSecond(marks, 0, i, anchor.secs)
      invariant count == FreshCount(marks, i, anchor)
      invariant latest == LatestText(w, marks, i, anchor, size)
    {
      assert marks[i] == MarkOf(w[i], keyword);
      if w[i].Line? {
        var s := ReadSecsOfDay(w[i].dat);
        if s >= 0 {
          cur := s;
        }
        if cur >= 0 && Has(w[i], keyword) {
          var isNew := true;
          if anchor.secs >= 0 {
            var delta := ClockDelta(cur, anchor.secs);
            if delta == 0 {
              same := same + 1;
              isNew := same > anchor.same;
            } else {
              isNew := delta < HALF_DAY;
            }
          }
          if isNew {
            count := count + 1;
            if size > 0 {
              latest := CutMessage(w[i].dat, size);
            }
          }
        }
      }
    }
    NewestFreshIs(marks, |w|, anchor);
    FreshIsLine(w, keyword, anchor);
  }

  /** A table that is a window of the history is seen as that window of what the history shows. */
  lemma MarksOfWindow(h: seq<Entry>, keyword: string, lo: nat, hi: nat)
    requires lo <= hi <= |h|
    ensures Marks(h[lo..hi], keyword) == Marks(h, keyword)[lo..hi]
  {
  }

  /**
   * Anchor and detection together, on two windows of one history: what is counted as
   * detected is never an old line, and the count is the number of matches that came in
   * between exactly if none of these is evicted or has lost its time, and none of them
   * is taken for an old match of the anchor's second.
   */
  lemma DetectsWhatCameSince(h: seq<Entry>, keyword: string, day: seq<nat>, lo0: nat, hi0: nat, lo1: nat, hi1: nat)
    requires lo0 <= hi0 <= hi1 <= |h| && lo1 <= hi1
    requires Slid(Marks(h, keyword), day, lo0, hi0, lo1, hi1)
    requires forall z :: Newest(Marks(h, keyword), lo0, hi0, z) ==> Near(Marks(h, keyword), day, lo0, hi1, z)
    ensures var all, anchor := Marks(h, keyword), AnchorOf(Marks(h[lo0..hi0], keyword));
            var marks := Marks(h[lo1..hi1], keyword);
            && (FreshCount(marks, hi1 - lo1, anchor) > 0 ==>
                  hi0 <= lo1 + NewestFresh(marks, hi1 - lo1, anchor) < hi1)
            && (FreshCount(marks, hi1 - lo1, anchor) == Hits(all, hi0, hi1) <==> CountHolds(all, lo0, hi0, lo1, hi1))
            && (OwnSecondKept(all, lo0, hi0, lo1) && (exists z :: Newest(all, lo0, hi0, z)) ==>
                  FreshCount(marks, hi1 - lo1, anchor) == Hits(all, hi0, hi1))
  {
    hide Marks, FreshCount, AnchorOf, Hits, NewestFresh, Near, OwnSecondKept, Slid, CountHolds;
    var all := Marks(h, keyword);
    MarksOfWindow(h, keyword, lo0, hi0);
    MarksOfWindow(h, keyword, lo1, hi1);
    if FreshCount(all[lo1..hi1], hi1 - lo1, AnchorOf(all[lo0..hi0])) > 0 {
      DetectedMeansNew(all, day, lo0, hi0, lo1, hi1);
    }
    CountIsExact(all, day, lo0, hi0, lo1, hi1);
    if OwnSecondKept(all, lo0, hi0, lo1) && exists z :: Newest(all, lo0, hi0, z) {
      var z :| Newest(all, lo0, hi0, z);
      CountWhileWhole(all, day, lo0, hi0, lo1, hi1, z);
    }
  }
}
