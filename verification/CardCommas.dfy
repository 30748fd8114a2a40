// What the removal of credentials does to the comma that continues a JOB card.
module CardCommas {
  import opened Wrappers
  import opened JobCard

  /** An operand: its quotes are paired, and a comma or blank stands only inside them. */
  ghost predicate WordOk(w: string)
  {
    && w != "" && w[0] != '=' && !After(false, w)
    && forall i :: 0 <= i < |w| && Sep(w[i]) ==> After(false, w[..i])
  }

  ghost predicate WordsOk(ws: seq<string>) { forall i :: 0 <= i < |ws| ==> WordOk(ws[i]) }

  /** The operands to be removed hold no quoted blank or comma. */
  ghost predicate NamedPlain(ws: seq<string>, kw: string)
  {
    forall i :: 0 <= i < |ws| && Names(ws[i], kw) ==> Solid(ws[i])
  }

  /** Operands, each followed by its comma. */
  function Run(ws: seq<string>): string { if ws == [] then "" else ws[0] + "," + Run(ws[1..]) }

  /** A text behind which an operand can start. */
  ghost predicate Ended(h: string) { !After(false, h) && (h == "" || Sep(h[|h| - 1])) }

  /** What the removal asks of a line. */
  ghost predicate Fine(h: string, kw: string) { KeywordOk(kw) && Regular(h) && Plain(h, kw) }

  lemma {:induction false} NoQuotes(q: bool, s: string)
    requires QUOTE !in s
    ensures After(q, s) == q
    decreases |s|
  {
    if s != "" {
      NoQuotes(q, s[1..]);
    }
  }

  lemma WordOps(w: string)
    requires WordOk(w)
    ensures Ops(w) == [w] && Ops(",") == []
  {
    FirstAndRest(w, false);
    LenIs(w, false);
    assert w[..|w|] == w;
    NonEmptyOne(w);
    OpsOfNothing();
    assert [','] + "" == ",";
    OpsBehind(',', "");
  }

  lemma {:induction false} LenIs(s: string, q: bool)
    requires forall i :: 0 <= i < |s| && Sep(s[i]) ==> After(q, s[..i])
    ensures FirstLen(s, q) == |s|
    decreases |s|
  {
    if s != "" {
      var r := q != (s[0] == QUOTE);
      assert s[..0] == "";
      forall i | 0 <= i < |s| - 1 && Sep(s[1..][i])
        ensures After(r, s[1..][..i])
      {
        assert s[i + 1] == s[1..][i] && s[..i + 1] == [s[0]] + s[1..][..i];
        AfterCons(q, s[0], s[1..][..i]);
      }
      LenIs(s[1..], r);
    }
  }

  lemma {:induction false} RunOps(h: string, ws: seq<string>)
    requires Ended(h) && WordsOk(ws)
    ensures Ops(h + Run(ws)) == Ops(h) + ws
    decreases |ws|
  {
    hide WordOk, Ops, Ended;
    if ws == [] {
      assert h + "" == h;
    } else {
      var w := ws[0];
      OneMore(h, w);
      RunOps(h + w + ",", ws[1..]);
      assert h + w + "," + Run(ws[1..]) == h + Run(ws);
      assert Ops(h) + [w] + ws[1..] == Ops(h) + ws;
    }
  }

  /** One operand more, with its comma. */
  lemma OneMore(h: string, w: string)
    requires Ended(h) && WordOk(w)
    ensures Ended(h + w + ",") && Ops(h + w + ",") == Ops(h) + [w]
  {
    hide Ops;
    OpsSum(h, w);
    AfterSum(false, h, w);
    WordOps(w);
    OpsSum(h + w, ",");
    AfterSum(false, h + w, ",");
    NoQuotes(false, ",");
  }

  lemma FineRun(h: string, ws: seq<string>, kw: string)
    requires Ended(h) && WordsOk(ws) && NamedPlain(ws, kw) && Fine(h, kw)
    ensures Fine(h + Run(ws), kw)
  {
    hide Ops, KeywordOk, Run, After, Names;
    RunOps(h, ws);
  }

  lemma FineFront(h: string, r: string, kw: string)
    requires Ended(h) && Fine(h + r, kw)
    ensures Fine(h, kw)
  {
    hide Ops, KeywordOk;
    OpsSum(h, r);
  }

  lemma SameBoundary(h: string, r: string, i: nat)
    requires i < |h|
    ensures Boundary(h + r, i) <==> Boundary(h, i)
    ensures (h + r)[i] == h[i]
  {
    assert (h + r)[..i] == h[..i];
  }

  /** The keyword and the '=' directly behind it. */
  predicate KeyAt(s: string, kw: string, i: nat) { i + |kw| < |s| && s[i..i + |kw|] == kw && s[i + |kw|] == '=' }

  lemma KeyWithin(h: string, r: string, kw: string, i: nat)
    requires i + |kw| < |h|
    ensures KeyAt(h + r, kw, i) <==> KeyAt(h, kw, i)
  {
    assert (h + r)[i..i + |kw|] == h[i..i + |kw|];
  }

  lemma HitIsKey(s: string, kw: string, i: nat)
    requires Fine(s, kw) && i < |s|
    ensures Hit(s, kw, i) <==> Boundary(s, i) && KeyAt(s, kw, i)
  {
    if Hit(s, kw, i) {
      EqualFollows(s, kw, i);
    }
    if KeyAt(s, kw, i) {
      assert BlanksEnd(s, i + |kw|) == i + |kw|;
      assert s[i] == s[i..i + |kw|][0];
    }
  }

  /** Inside h it makes no difference what follows. */
  lemma HitWithin(h: string, r: string, kw: string, i: nat)
    requires Ended(h) && Fine(h + r, kw) && i < |h|
    ensures Hit(h + r, kw, i) <==> Hit(h, kw, i)
  {
    hide Hit, Boundary, Regular, Plain;
    FineFront(h, r, kw);
    HitIsKey(h, kw, i);
    HitIsKey(h + r, kw, i);
    SameBoundary(h, r, i);
    if KeyAt(h + r, kw, i) {
      assert Sep((h + r)[|h| - 1]);
      Inside(h + r, kw, i, |h| - 1);
      KeyWithin(h, r, kw, i);
    } else if i + |kw| < |h| {
      KeyWithin(h, r, kw, i);
    }
  }

  /** The operand ends in front of the next separator. */
  lemma Inside(s: string, kw: string, i: nat, k: nat)
    requires KeywordOk(kw) && i + |kw| < |s| && s[i..i + |kw|] == kw && s[i + |kw|] == '='
    requires i <= k < |s| && Sep(s[k])
    ensures i + |kw| < k
  {
    assert forall j :: i <= j < i + |kw| ==> s[j] == s[i..i + |kw|][j - i];
  }

  lemma FindWithin(h: string, r: string, kw: string)
    requires Ended(h) && Fine(h + r, kw)
    ensures Find(h, kw).Some? ==> Find(h + r, kw) == Find(h, kw)
    ensures Find(h, kw).None? ==> forall i :: 0 <= i < |h| ==> !Hit(h + r, kw, i)
  {
    hide Hit, Ended, Regular, Plain;
    forall i | 0 <= i < |h|
      ensures Hit(h + r, kw, i) <==> Hit(h, kw, i)
    {
      HitWithin(h, r, kw, i);
    }
    if Find(h, kw).Some? {
      FirstHit(h, kw);
      FindIs(h + r, kw, 0, Find(h, kw).value);
    }
  }

  lemma FirstHit(h: string, kw: string)
    requires Find(h, kw).Some?
    ensures Find(h, kw).value < |h| && Hit(h, kw, Find(h, kw).value)
    ensures forall i :: 0 <= i < Find(h, kw).value ==> !Hit(h, kw, i)
  {
    hide Hit;
    NoneBefore(h, kw, 0);
  }

  lemma {:induction false} NoneBefore(h: string, kw: string, from: nat)
    requires from <= |h| && FindFrom(h, kw, from).Some?
    ensures forall i :: from <= i < FindFrom(h, kw, from).value ==> !Hit(h, kw, i)
    decreases |h| - from
  {
    hide Hit;
    if !Hit(h, kw, from) {
      NoneBefore(h, kw, from + 1);
    }
  }

  // --- a removal inside the front --------------------------------------------------------------

  lemma EqualWithin(h: string, r: string, p: nat)
    requires p < |h| && '=' in h[p..]
    ensures '=' in (h + r)[p..] && FirstEqual(h + r, p) == FirstEqual(h, p) < |h|
  {
    var k :| 0 <= k < |h[p..]| && h[p..][k] == '=';
    assert h[p + k] == '=';
    var q := FirstEqual(h, p);
    assert (h + r)[p..][q - p] == h[q];
    FirstEqualIs(h + r, p, q);
  }

  lemma ValueEndWithin(h: string, r: string, p: nat)
    requires p < |h| && '=' in h[p..] && ValueEnd(h, p) < |h|
    ensures '=' in (h + r)[p..] && ValueEnd(h + r, p) == ValueEnd(h, p)
  {
    EqualWithin(h, r, p);
    var q, e := FirstEqual(h, p) + 1, ValueEnd(h, p);
    assert forall k :: q <= k < e ==> (h + r)[k] == h[k];
    FirstSepIs(h + r, q, e);
  }

  lemma Regroup(a: string, b: string, c: string)
    ensures a + (b + c) == a + b + c
  {
  }

  lemma CutWithin(h: string, r: string, p: nat, e: nat)
    requires p < e < |h|
    ensures Cut(h + r, p, e) == Cut(h, p, e) + r
  {
    var s := h + r;
    assert s[..p] == h[..p] && s[e..] == h[e..] + r && s[e + 1..] == h[e + 1..] + r;
    if CharAt(h, e) == ',' {
      Regroup(h[..p], h[e + 1..], r);
    } else if p > 0 && h[p - 1] == ',' {
      assert s[..p - 1] == h[..p - 1];
      Regroup(h[..p - 1], h[e..], r);
    } else {
      Regroup(h[..p], h[e..], r);
    }
  }

  lemma RemovedWithin(h: string, r: string, p: nat)
    requires p < |h| && '=' in h[p..] && ValueEnd(h, p) < |h|
    ensures '=' in (h + r)[p..] && Removed(h + r, p) == Removed(h, p) + r
  {
    hide ValueEnd, Cut;
    ValueEndWithin(h, r, p);
    CutWithin(h, r, p, ValueEnd(h, p));
  }

  lemma ValueEndsInside(h: string, kw: string, p: nat)
    requires Ended(h) && Fine(h, kw) && p < |h| && Hit(h, kw, p)
    ensures '=' in h[p..] && FirstEqual(h, p) == p + |kw|
    ensures var e := ValueEnd(h, p); e == FirstSep(h, p + |kw| + 1) < |h| && Sep(h[e])
  {
    hide FirstSep, FirstEqual, Hit, KeywordOk, Regular, Plain, After;
    HitHasEqual(h, kw, p);
    EqualFollows(h, kw, p);
    HitStarts(h, kw, p);
    hide Fine;
    Inside(h, kw, p, |h| - 1);
    SepAhead(h, p + |kw| + 1);
  }

  lemma HitStarts(h: string, kw: string, p: nat)
    requires p < |h| && Hit(h, kw, p)
    ensures p + |kw| <= |h| && h[p..p + |kw|] == kw
  {
  }

  lemma SepAhead(h: string, k: nat)
    requires k < |h| && Sep(h[|h| - 1])
    ensures FirstSep(h, k) < |h| && Sep(h[FirstSep(h, k)])
  {
  }

  /** Whatever of the three ways the operand goes. */
  lemma CutShape(h: string, p: nat, e: nat)
    requires p < e < |h| && Sep(h[e]) && Sep(h[|h| - 1]) && (p == 0 || Sep(h[p - 1]))
    ensures var r := Cut(h, p, e);
            && (r == h[..p] + h[e..] || r == h[..p] + h[e + 1..]
                || (p > 0 && Sep(h[p - 1]) && r == h[..p - 1] + h[e..]))
            && (r == "" || Sep(r[|r| - 1]))
            && (h[|h| - 1] == ' ' ==> r != "" && r[|r| - 1] == ' ')
  {
  }

  /** What is left of a text can be followed by an operand as before. */
  lemma RemovedEnded(h: string, kw: string, p: nat)
    requires Ended(h) && Fine(h, kw) && p < |h| && Hit(h, kw, p)
    ensures '=' in h[p..] && Ended(Removed(h, p)) && Fine(Removed(h, p), kw)
    ensures h[|h| - 1] == ' ' ==> Removed(h, p) != "" && Removed(h, p)[|Removed(h, p)| - 1] == ' '
  {
    hide Ops, Names, ValueEnd, Find, Follows, Regular, Plain, KeywordOk, Removed, After;
    RemovedOps(h, kw, p);
    HitNames(h, kw, p);
    ValueEndsInside(h, kw, p);
    QuotesGone(h, p, ValueEnd(h, p));
    CutShape(h, p, ValueEnd(h, p));
    RemovedIsCut(h, p);
    hide Cut;
    RemovedFine(h, kw, p);
  }

  lemma RemovedIsCut(h: string, p: nat)
    requires p < |h| && '=' in h[p..]
    ensures Removed(h, p) == Cut(h, p, ValueEnd(h, p))
  {
  }

  lemma RemovedFine(h: string, kw: string, p: nat)
    requires Fine(h, kw) && p < |h| && '=' in h[p..]
    requires Ops(Removed(h, p)) == Ops(h[..p]) + Ops(h[ValueEnd(h, p)..])
    requires Ops(h) == Ops(h[..p]) + ([h[p..ValueEnd(h, p)]] + Ops(h[ValueEnd(h, p)..]))
    ensures Fine(Removed(h, p), kw)
  {
    hide Ops, Removed, ValueEnd, Names, KeywordOk;
  }

  /** The quotes behind an operand removed are paired as they were. */
  lemma QuotesGone(h: string, p: nat, e: nat)
    requires p <= e < |h| && !After(false, h) && !After(false, h[..p]) && !After(false, h[..e]) && Sep(h[e])
    ensures !After(false, h[..p] + h[e..]) && !After(false, h[..p] + h[e + 1..])
    ensures p > 0 && Sep(h[p - 1]) ==> !After(false, h[..p - 1] + h[e..])
  {
    hide After;
    assert h == h[..e] + h[e..];
    AfterSum(false, h[..e], h[e..]);
    AfterSum(false, h[..p], h[e..]);
    assert h[e..] == [h[e]] + h[e + 1..];
    OnePassed(false, h[e], h[e + 1..]);
    AfterSum(false, h[..p], h[e + 1..]);
    if p > 0 && Sep(h[p - 1]) {
      AfterOne(h, p - 1);
      AfterSum(false, h[..p - 1], h[e..]);
    }
  }

  lemma OnePassed(q: bool, c: char, s: string)
    requires c != QUOTE
    ensures After(q, [c] + s) == After(q, s)
  {
    AfterCons(q, c, s);
  }

  // --- the commas ------------------------------------------------------------------------------

  /** With no hit in front, a named operand goes with its comma, and any other joins the front. */
  lemma NextWord(h: string, w: string, r: string, kw: string)
    requires Ended(h) && WordOk(w) && (Names(w, kw) ==> Solid(w))
    requires Fine(h + (w + ("," + r)), kw) && Find(h, kw).None?
    ensures var s := h + (w + ("," + r));
            if Names(w, kw) then
              Find(s, kw) == Some(|h|) && |h| < |s| && '=' in s[|h|..] && Removed(s, |h|) == h + r
            else Find(h + w + ",", kw).None?
  {
    hide Hit, Regular, Plain, Ended, WordOk, Names, Removed;
    FindWithin(h, w + ("," + r), kw);
    if Names(w, kw) {
      NamedNext(h, w, r, kw);
    } else {
      OtherNext(h, w, r, kw);
    }
  }

  /** Where an operand and its comma stand behind h. */
  lemma NextPlaces(h: string, w: string, r: string)
    ensures var s, p := h + (w + ("," + r)), |h|;
            && p + |w| < |s| && s[..p] == h && s[p..p + |w|] == w && s[p + |w|] == ',' && s[p + |w| + 1..] == r
            && forall i :: p <= i < p + |w| ==> s[i] == w[i - p]
  {
  }

  lemma NameStarts(w: string, kw: string)
    requires Names(w, kw)
    ensures |kw| < |w| && w[|kw|] == '=' && forall i :: 0 <= i < |kw| ==> w[i] == kw[i]
  {
    var k := kw + "=";
    assert forall i :: 0 <= i < |k| ==> w[i] == k[i];
    assert k[|kw|] == '=';
  }

  lemma NamedEnds(h: string, w: string, r: string, kw: string)
    requires WordOk(w) && Solid(w) && Names(w, kw) && KeywordOk(kw)
    ensures var s := h + (w + ("," + r));
            |h| < |s| && '=' in s[|h|..] && ValueEnd(s, |h|) == |h| + |w|
  {
    var s, p := h + (w + ("," + r)), |h|;
    NextPlaces(h, w, r);
    NameStarts(w, kw);
    var k := p + |kw|;
    assert s[p..][|kw|] == s[k] == '=';
    FirstEqualIs(s, p, k);
    FirstSepIs(s, k + 1, p + |w|);
  }

  lemma NamedHit(h: string, w: string, r: string, kw: string)
    requires Ended(h) && WordOk(w) && Names(w, kw) && KeywordOk(kw)
    ensures Hit(h + (w + ("," + r)), kw, |h|)
  {
    hide After, KeywordOk, Names, Hit;
    NextPlaces(h, w, r);
    NamedHere(h + (w + ("," + r)), |h|, |h| + |w|, kw);
  }

  lemma CutNext(h: string, w: string, r: string)
    requires w != ""
    ensures Cut(h + (w + ("," + r)), |h|, |h| + |w|) == h + r
  {
    NextPlaces(h, w, r);
  }

  lemma NamedNext(h: string, w: string, r: string, kw: string)
    requires Ended(h) && WordOk(w) && Solid(w) && Names(w, kw) && KeywordOk(kw)
    requires var s := h + (w + ("," + r)); forall i :: 0 <= i < |h| ==> !Hit(s, kw, i)
    ensures var s := h + (w + ("," + r));
            Find(s, kw) == Some(|h|) && |h| < |s| && '=' in s[|h|..] && Removed(s, |h|) == h + r
  {
    hide Hit, Ended, Names, ValueEnd, Cut;
    NamedHit(h, w, r, kw);
    FindIs(h + (w + ("," + r)), kw, 0, |h|);
    NamedEnds(h, w, r, kw);
    CutNext(h, w, r);
  }

  lemma OtherNext(h: string, w: string, r: string, kw: string)
    requires Ended(h) && WordOk(w) && !Names(w, kw) && Fine(h + (w + ("," + r)), kw)
    requires Find(h, kw).None?
    ensures Find(h + w + ",", kw).None?
  {
    hide Hit, Ended, Names, WordOk, Regular, Plain;
    var s := h + w + ",";
    assert s + r == h + (w + ("," + r));
    OneMore(h, w);
    FineFront(s, r, kw);
    assert h + (w + ",") == s;
    FindWithin(h, w + ",", kw);
    forall i | 0 <= i < |s|
      ensures !Hit(s, kw, i)
    {
      if i >= |h| && Hit(s, kw, i) {
        HitIsWord(h, w, kw, i);
      }
    }
    FindNot(s, kw, 0);
  }

  /** Inside a word no operand can start. */
  lemma InsideWord(h: string, w: string, i: nat)
    requires Ended(h) && WordOk(w) && |h| < i <= |h| + |w|
    ensures !Boundary(h + w + ",", i)
  {
    var s, j := h + w + ",", i - 1 - |h|;
    assert s[i - 1] == w[j];
    if Sep(w[j]) {
      assert s[..i] == h + w[..j + 1];
      AfterSum(false, h, w[..j + 1]);
      AfterOne(w, j);
    }
  }

  /** A hit behind h can only be the word itself. */
  lemma HitIsWord(h: string, w: string, kw: string, i: nat)
    requires Ended(h) && WordOk(w) && Fine(h + w + ",", kw)
    requires |h| <= i < |h + w + ","| && Hit(h + w + ",", kw, i)
    ensures Names(w, kw)
  {
    hide After, Hit, Ended, Regular, Plain, WordOk, Boundary;
    var s, p := h + w + ",", |h|;
    HitIsKey(s, kw, i);
    assert i == p by {
      if i > p {
        InsideWord(h, w, i);
      }
    }
    Inside(s, kw, i, |s| - 1);
    assert forall k :: p <= k < p + |w| ==> s[k] == w[k - p];
    assert s[p..p + |kw| + 1] == s[p..p + |kw|] + [s[p + |kw|]];
    assert s[p..p + |kw| + 1] == w[..|kw| + 1];
  }

  lemma StripNone(h: string, kw: string)
    requires Find(h, kw).None?
    ensures Stripped(h, kw) == h
  {
  }

  lemma StripStep(h: string, kw: string, p: nat)
    requires Find(h, kw) == Some(p)
    ensures p < |h| && '=' in h[p..] && Stripped(h, kw) == Stripped(Removed(h, p), kw)
  {
    HitHasEqual(h, kw, p);
  }

  /** Operands in a row lose those named, each with its comma; what is in front loses its own. */
  lemma {:induction false} StripRun(h: string, ws: seq<string>, kw: string)
    requires Ended(h) && WordsOk(ws) && NamedPlain(ws, kw) && Fine(h, kw)
    ensures Stripped(h + Run(ws), kw) == Stripped(h, kw) + Run(Without(ws, kw))
    decreases |h| + |Run(ws)|, |ws|
  {
    hide Fine, Ended, WordOk, Names, Removed, Find, Stripped, Hit, Without;
    WithoutNothing(kw);
    FineRun(h, ws, kw);
    var hit := Find(h, kw);
    if hit.Some? {
      StripFront(h, Run(ws), kw, hit.value);
      StripRun(Removed(h, hit.value), ws, kw);
    } else if ws == [] {
      assert h + Run(ws) == h && Stripped(h, kw) + "" == Stripped(h, kw);
    } else {
      var w, r := ws[0], Run(ws[1..]);
      RunSplits(h, ws);
      assert ws == [w] + ws[1..];
      NextWord(h, w, r, kw);
      StripNone(h, kw);
      if Names(w, kw) {
        WithoutFirst(w, ws[1..], kw);
        StripStep(h + Run(ws), kw, |h|);
        StripRun(h, ws[1..], kw);
      } else {
        WithoutOther(w, ws[1..], kw);
        OneMore(h, w);
        StripNone(h + w + ",", kw);
        FineFront(h + w + ",", r, kw);
        StripRun(h + w + ",", ws[1..], kw);
        RunSplits(h, [w] + Without(ws[1..], kw));
      }
    }
  }

  lemma RunSplits(h: string, ws: seq<string>)
    requires ws != []
    ensures h + Run(ws) == h + (ws[0] + ("," + Run(ws[1..]))) && h + Run(ws) == h + ws[0] + "," + Run(ws[1..])
    ensures |Run(ws)| == |ws[0]| + 1 + |Run(ws[1..])|
  {
    var w, r := ws[0], Run(ws[1..]);
    Regroup(w, ",", r);
    Regroup(h, w, "," + r);
    Regroup(h + w, ",", r);
  }

  lemma WithoutNothing(kw: string)
    ensures Without([], kw) == []
  {
  }

  lemma WithoutOther(w: string, ws: seq<string>, kw: string)
    requires !Names(w, kw)
    ensures Without([w] + ws, kw) == [w] + Without(ws, kw)
  {
    hide Names;
    assert ([w] + ws)[1..] == ws;
  }

  lemma StripFront(h: string, r: string, kw: string, p: nat)
    requires Ended(h) && Fine(h, kw) && Fine(h + r, kw) && Find(h, kw) == Some(p)
    ensures p < |h| && '=' in h[p..] && Ended(Removed(h, p)) && Fine(Removed(h, p), kw) && |Removed(h, p)| < |h|
    ensures Stripped(h, kw) == Stripped(Removed(h, p), kw)
    ensures Stripped(h + r, kw) == Stripped(Removed(h, p) + r, kw)
    ensures h[|h| - 1] == ' ' ==> Removed(h, p) != "" && Removed(h, p)[|Removed(h, p)| - 1] == ' '
  {
    hide Fine, Ended, Removed, Hit, Find, Stripped, ValueEnd;
    StripStep(h, kw, p);
    FirstHitOf(h, kw);
    RemovedEnded(h, kw, p);
    ValueEndsInside(h, kw, p);
    FindWithin(h, r, kw);
    StripStep(h + r, kw, p);
    RemovedWithin(h, r, p);
  }

  lemma FirstHitOf(h: string, kw: string)
    ensures Find(h, kw).Some? ==> Find(h, kw).value < |h| && Hit(h, kw, Find(h, kw).value)
  {
  }

  /** A text that ends in a blank still does. */
  lemma {:induction false} BlankStays(h: string, kw: string)
    requires Ended(h) && Fine(h, kw)
    ensures Ended(Stripped(h, kw))
    ensures h != "" && h[|h| - 1] == ' ' ==> Stripped(h, kw) != "" && Stripped(h, kw)[|Stripped(h, kw)| - 1] == ' '
    decreases |h|
  {
    hide Fine, Ended, Removed, Hit, Find, Stripped;
    var hit := Find(h, kw);
    if hit.Some? {
      assert h + "" == h;
      StripFront(h, "", kw, hit.value);
      BlankStays(Removed(h, hit.value), kw);
    } else {
      StripNone(h, kw);
    }
  }

  predicate EndsInComma(s: string) { s != "" && s[|s| - 1] == ',' }

  lemma {:induction false} RunEnds(ws: seq<string>)
    ensures if ws == [] then Run(ws) == "" else EndsInComma(Run(ws))
    decreases |ws|
  {
    if |ws| > 0 {
      RunEnds(ws[1..]);
    }
  }

  lemma {:induction false} WithoutOk(ws: seq<string>, kw: string, other: string)
    requires WordsOk(ws) && NamedPlain(ws, other)
    ensures WordsOk(Without(ws, kw)) && NamedPlain(Without(ws, kw), other)
  {
    hide WordOk, Names;
    var r := Without(ws, kw);
    forall i | 0 <= i < |r|
      ensures WordOk(r[i]) && (Names(r[i], other) ==> Solid(r[i]))
    {
      assert r[i] in r;
    }
  }

  /**
   * A line whose operands, behind a blank, all end in a comma keeps the continuation
   * comma exactly if it keeps an operand.
   */
  lemma CommaSurvives(front: string, ws: seq<string>)
    requires Ended(front) && front != "" && front[|front| - 1] == ' ' && WordsOk(ws)
    requires Regular(front) && Plain(front, USER) && Plain(front, PASSWORD)
    requires NamedPlain(ws, USER) && NamedPlain(ws, PASSWORD)
    ensures var left := Without(Without(ws, USER), PASSWORD);
            && Cleared(front + Run(ws)) == Cleared(front) + Run(left)
            && (EndsInComma(Cleared(front + Run(ws))) <==> left != [])
  {
    KeywordsOk();
    hide Stripped, KeywordOk, Ended, WordOk, Names, Ops;
    StripRun(front, ws, USER);
    BlankStays(front, USER);
    StrippedOps(front, USER);
    var once := Stripped(front, USER);
    assert Fine(once, PASSWORD);
    WithoutOk(ws, USER, PASSWORD);
    StripRun(once, Without(ws, USER), PASSWORD);
    BlankStays(once, PASSWORD);
    RunEnds(Without(Without(ws, USER), PASSWORD));
  }

  // --- two cards ---------------------------------------------------------------------------------

  const JOB := "//J JOB "
  const ALONE := "//J JOB USER=X,"
  const QUOTED := JOB + ("(A)," + ("'MY NAME'," + "USER=X,"))

  /** A word without quotes and separators. */
  lemma SimpleWord(w: string)
    requires w != "" && w[0] != '=' && forall i :: 0 <= i < |w| ==> w[i] != QUOTE && !Sep(w[i])
    ensures WordOk(w) && Solid(w)
  {
    NoQuotes(false, w);
  }

  lemma BehindBlank(w: string)
    requires WordOk(w)
    ensures Ops(w + " ") == [w] && Ended(w + " ")
  {
    hide WordOk, After, Words, NonEmpty;
    NoQuotes(false, " ");
    assert !After(false, w) by { Paired(w); }
    OpsSum(w, " ");
    WordOps(w);
    assert [' '] + "" == " ";
    OpsBehind(' ', "");
    OpsOfNothing();
    AfterSum(false, w, " ");
  }

  lemma Paired(w: string)
    requires WordOk(w)
    ensures !After(false, w)
  {
  }

  lemma JobOps()
    ensures Ended(JOB) && Ops(JOB) == ["//J", "JOB"]
  {
    hide Ops, WordOk, Ended;
    JobWords();
    BehindBlank("//J");
    BehindBlank("JOB");
    assert "//J" + " " == "//J " && "JOB" + " " == "JOB ";
    TwoParts("//J ", "JOB ");
    assert "//J " + "JOB " == JOB;
    assert ["//J"] + ["JOB"] == ["//J", "JOB"];
  }

  lemma JobWords()
    ensures WordOk("//J") && WordOk("JOB")
  {
    SimpleWord("//J");
    SimpleWord("JOB");
    hide WordOk;
  }

  lemma TwoParts(a: string, b: string)
    requires Ended(a) && Ended(b) && a != "" && b != ""
    ensures Ended(a + b) && Ops(a + b) == Ops(a) + Ops(b)
  {
    hide After, Ops;
    OpsSum(a, b);
    AfterSum(false, a, b);
  }

  lemma JobNames()
    ensures !Names("//J", USER) && !Names("JOB", USER) && !Names("//J", PASSWORD) && !Names("JOB", PASSWORD)
  {
  }

  lemma JobFront()
    ensures Ended(JOB) && Regular(JOB) && Plain(JOB, USER) && Plain(JOB, PASSWORD)
  {
    JobOps();
    JobNames();
    hide Ops, Names, Ended;
    assert forall op :: op in Ops(JOB) <==> op == "//J" || op == "JOB";
  }

  lemma UserNamed()
    ensures Names("USER=X", USER) && WordOk("USER=X") && Solid("USER=X")
  {
    SimpleWord("USER=X");
    assert "USER=X"[..5] == "USER" + "=";
  }

  /** The only operand was a credential: the comma that continues the card is lost. */
  lemma AloneLosesComma()
    ensures EndsInComma(ALONE) && !EndsInComma(Cleared(ALONE))
  {
    JobFront();
    UserNamed();
    hide Cleared, Names, WordOk, Ended, Regular, Plain, Ops;
    var ws := ["USER=X"];
    assert ws[1..] == [];
    assert JOB + Run(ws) == ALONE;
    WithoutFirst("USER=X", [], USER);
    assert ["USER=X"] + [] == ws;
    CommaSurvives(JOB, ws);
  }

  /** A text between two quotes is a word, whatever stands between them. */
  lemma QuotedWord(text: string)
    requires QUOTE !in text
    ensures WordOk(['\''] + text + ['\''])
  {
    var w := ['\''] + text + ['\''];
    assert !After(false, w[..0]);
    AfterOne(w, 0);
    forall i | 1 <= i < |w|
      ensures After(false, w[..i])
    {
      assert forall k :: 1 <= k < i ==> w[k] == text[k - 1];
      QuotesPass(w, 1, i);
    }
    AfterOne(w, |w| - 1);
    assert w[..|w|] == w;
  }

  lemma NameQuoted()
    ensures WordOk("'MY NAME'") && !Names("'MY NAME'", USER) && !Names("'MY NAME'", PASSWORD)
  {
    QuotedWord("MY NAME");
    assert ['\''] + "MY NAME" + ['\''] == "'MY NAME'";
    hide WordOk;
  }

  lemma AccountSimple()
    ensures WordOk("(A)") && !Names("(A)", USER) && !Names("(A)", PASSWORD)
  {
    SimpleWord("(A)");
  }

  const NAMED := ["(A)", "'MY NAME'", "USER=X"]

  lemma NamedRun()
    ensures JOB + Run(NAMED) == QUOTED
  {
    hide Run;
    RunCons("USER=X", []);
    RunCons("'MY NAME'", ["USER=X"]);
    RunCons("(A)", ["'MY NAME'", "USER=X"]);
    assert [] + ["USER=X"] == ["USER=X"] && ["USER=X"] + [] == ["USER=X"];
    assert ["'MY NAME'"] + ["USER=X"] == ["'MY NAME'", "USER=X"];
    assert ["(A)"] + ["'MY NAME'", "USER=X"] == NAMED;
    assert "'MY NAME'" + "," == "'MY NAME'," && "(A)" + "," == "(A)," && "USER=X" + "," == "USER=X,";
  }

  lemma RunCons(w: string, ws: seq<string>)
    ensures Run([w] + ws) == w + "," + Run(ws) && Run([]) == ""
  {
    assert ([w] + ws)[1..] == ws;
  }

  lemma NamedWords()
    ensures WordsOk(NAMED) && NamedPlain(NAMED, USER) && NamedPlain(NAMED, PASSWORD)
  {
    UserNamed();
    NameQuoted();
    AccountSimple();
    hide Names, WordOk;
    assert !Names("USER=X", PASSWORD) by { NotPassword(); }
  }

  /** With the account and a quoted name in front of it the comma stays. */
  lemma QuotedKeepsComma()
    ensures EndsInComma(QUOTED) && EndsInComma(Cleared(QUOTED))
  {
    JobFront();
    NamedWords();
    NamedRun();
    AccountSimple();
    hide Cleared, Names, WordOk, Ended, Regular, Plain, Ops, WordsOk, NamedPlain, Run;
    assert "(A)" == NAMED[0];
    assert "(A)" in Without(NAMED, USER);
    assert "(A)" in Without(Without(NAMED, USER), PASSWORD);
    CommaSurvives(JOB, NAMED);
  }

  lemma NotPassword()
    ensures !Names("USER=X", PASSWORD)
  {
  }
}
