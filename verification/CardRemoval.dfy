// What one turn of jobcard_strip_operand() leaves of a line, exactly: src/jobcard.c.
// The value of an operand is taken to end at the first comma or blank, quoted or not.
module CardRemoval {
  import opened Texts
  import opened JobCard

  /** How many characters of a text are no separators. */
  function Solids(s: string): nat
  {
    if s == "" then 0 else (if Sep(s[0]) then 0 else 1) + Solids(s[1..])
  }

  function AllSolids(ws: seq<string>): nat
  {
    if ws == [] then 0 else Solids(ws[0]) + AllSolids(ws[1..])
  }

  lemma {:induction false} SolidsSum(a: string, b: string)
    ensures Solids(a + b) == Solids(a) + Solids(b)
    decreases |a|
  {
    if a == "" {
      assert a + b == b;
    } else {
      assert (a + b)[0] == a[0] && (a + b)[1..] == a[1..] + b;
      SolidsSum(a[1..], b);
    }
  }

  lemma {:induction false} AllSolidsSum(a: seq<string>, b: seq<string>)
    ensures AllSolids(a + b) == AllSolids(a) + AllSolids(b)
    decreases |a|
  {
    if a == [] {
      assert a + b == b;
    } else {
      assert (a + b)[0] == a[0] && (a + b)[1..] == a[1..] + b;
      AllSolidsSum(a[1..], b);
    }
  }

  lemma {:induction false} WordsSolids(s: string, q: bool)
    ensures AllSolids(Words(s, q)) == Solids(s)
    decreases |s|
  {
    if s == "" {
      assert Words(s, q)[1..] == [];
    } else {
      var rest := Words(s[1..], q != (s[0] == QUOTE));
      WordsSolids(s[1..], q != (s[0] == QUOTE));
      if !q && Sep(s[0]) {
        assert ([""] + rest)[1..] == rest;
      } else {
        assert ([s[0]] + rest[0])[1..] == rest[0];
        assert ([[s[0]] + rest[0]] + rest[1..])[1..] == rest[1..];
      }
    }
  }

  lemma {:induction false} NonEmptySolids(ws: seq<string>)
    ensures AllSolids(NonEmpty(ws)) == AllSolids(ws)
    decreases |ws|
  {
    if ws != [] {
      NonEmptySolids(ws[1..]);
      NonEmptyOne(ws[0]);
      AllSolidsSum(if ws[0] == "" then [] else [ws[0]], NonEmpty(ws[1..]));
      assert [ws[0]][1..] == [];
    }
  }

  /** Every character but separators is in some word: none is lost and none is new. */
  lemma OpsSolids(s: string)
    ensures AllSolids(Ops(s)) == Solids(s)
  {
    WordsSolids(s, false);
    NonEmptySolids(Words(s, false));
  }

  lemma {:induction false} NoSolids(s: string)
    ensures Solids(s) == 0 <==> forall i :: 0 <= i < |s| ==> Sep(s[i])
    decreases |s|
  {
    if s != "" {
      NoSolids(s[1..]);
      assert forall i :: 1 <= i < |s| ==> s[i] == s[1..][i - 1];
    }
  }

  lemma {:induction false} NoOps(s: string)
    requires forall i :: 0 <= i < |s| ==> Sep(s[i])
    ensures Ops(s) == []
    decreases |s|
  {
    if s != "" {
      NoOps(s[1..]);
      assert s == [s[0]] + s[1..];
      OpsBehind(s[0], s[1..]);
    }
  }

  /** The first separator in a word is quoted. */
  lemma {:induction false} QuotedInside(s: string, q: bool, i: nat)
    requires i < FirstLen(s, q) && Sep(s[i])
    ensures After(q, s[..i])
    decreases |s|
  {
    if i > 0 {
      QuotedInside(s[1..], q != (s[0] == QUOTE), i - 1);
      assert s[..i][1..] == s[1..][..i - 1];
    }
  }

  /** The word a text begins with, and the text behind it. */
  function Operand(s: string): string { s[..Least(FirstLen(s, false), |s|)] }

  function Behind(s: string): string { s[Least(FirstLen(s, false), |s|)..] }

  /** From its first separator on, quoted as it is, the operand has nothing but separators. */
  predicate Tidy(w: string) { forall i :: FirstSep(w, 0) <= i < |w| ==> Sep(w[i]) }

  /** An operand with a quoted separator, and nothing else behind it, has no closing quote and ends the line. */
  lemma TidyEnds(s: string, f: nat)
    requires f < FirstLen(s, false) && Sep(s[f]) && FirstLen(s, false) <= |s|
    requires forall i :: f <= i < FirstLen(s, false) ==> Sep(s[i])
    ensures FirstLen(s, false) == |s|
  {
    var e := FirstLen(s, false);
    QuotedInside(s, false, f);
    FirstAndRest(s, false);
    hide After;
    QuotesPass(s, f, e);
  }

  /** What the removal leaves are the words in front and those of what stands behind the end of the value. */
  lemma LeftOver(line: string, kw: string, p: nat)
    requires p < |line| && Hit(line, kw, p)
    ensures '=' in line[p..]
    ensures Ops(Removed(line, p)) == Ops(line[..p]) + Ops(line[ValueEnd(line, p)..])
  {
    hide Words, NonEmpty, ValueEnd, Follows, Boundary, Ops;
    HitHasEqual(line, kw, p);
    var e := ValueEnd(line, p);
    if CharAt(line, e) == ',' {
      LeaveAlone(line, p, e);
    } else {
      LeaveJoined(line, p, e);
    }
  }

  /** Where the value of the operand ends, in terms of the word it is the front of. */
  lemma ValueEndsAt(line: string, kw: string, p: nat)
    requires KeywordOk(kw) && Regular(line) && p < |line| && Hit(line, kw, p)
    ensures '=' in line[p..]
    ensures var s := line[p..];
            ValueEnd(line, p) == p + FirstSep(s, 0) && Names(s[..FirstSep(s, 0)], kw)
  {
    hide After, Regular;
    HitHasEqual(line, kw, p);
    EqualFollows(line, kw, p);
    var s, k := line[p..], |kw|;
    assert forall i :: 0 <= i < k ==> s[i] == line[p..p + k][i];
    assert s[k] == '=' && s[..k + 1] == kw + "=";
    SepFrom(line, p, p + k + 1);
    SepFrom(line, p, p);
    var f := FirstSep(s, 0);
    assert f > k;
    assert s[..f][..k + 1] == s[..k + 1];
  }

  /** The operand as a word of the line. */
  lemma OperandNamed(line: string, kw: string, p: nat)
    requires KeywordOk(kw) && Regular(line) && p < |line| && Hit(line, kw, p)
    ensures var s := line[p..];
            var n, f := FirstLen(s, false), FirstSep(s, 0);
            && f <= n && Names(s[..n], kw) && Ops(s) == [s[..n]] + Ops(s[n..])
  {
    ValueEndsAt(line, kw, p);
    var s := line[p..];
    var n, f := FirstLen(s, false), FirstSep(s, 0);
    hide Hit, Regular, Names, Ops, Words, FirstLen, ValueEnd, After;
    NameLonger(s, f, kw);
    FirstAndRest(s, false);
    WordFirst(s);
    NameLonger(s, n, kw);
  }

  /** The operand in the line, and the end of its value in it. */
  lemma OperandWord(line: string, kw: string, p: nat)
    requires KeywordOk(kw) && Regular(line) && p < |line| && Hit(line, kw, p)
    ensures var s := line[p..];
            var n, f := FirstLen(s, false), FirstSep(s, 0);
            && f <= n <= |s| && Names(s[..n], kw)
            && Ops(line) == Ops(line[..p]) + ([s[..n]] + Ops(s[n..]))
            && '=' in s && Ops(Removed(line, p)) == Ops(line[..p]) + Ops(s[f..])
  {
    hide Words, Ops, Removed, ValueEnd, FirstLen, After, Regular, KeywordOk, Names, FirstSep, Hit, Boundary;
    ValueEndsAt(line, kw, p);
    LeftOver(line, kw, p);
    OperandNamed(line, kw, p);
    HitBoundary(line, kw, p);
    BoundaryOps(line, p);
    SliceOfSlice(line, p, FirstSep(line[p..], 0));
  }

  lemma SliceOfSlice(line: string, p: nat, f: nat)
    requires p + f <= |line|
    ensures line[p..][f..] == line[p + f..]
  {
  }

  lemma HitBoundary(line: string, kw: string, p: nat)
    requires p < |line| && Hit(line, kw, p)
    ensures Boundary(line, p)
  {
  }

  lemma NameLonger(s: string, f: nat, kw: string)
    requires KeywordOk(kw) && f <= |s|
    ensures Names(s[..f], kw) ==> s != "" && !Sep(s[0]) && |kw| < f
    ensures Names(s[..f], kw) <==> |kw| < f && s[..|kw| + 1] == kw + "="
  {
    var k := kw + "=";
    assert k[0] == kw[0];
    if |kw| < f {
      assert s[..f][..|k|] == s[..|k|];
    }
  }

  /**
   * One removal takes out the operand it found, whole and alone, if and only if from
   * its first comma or blank on, a quoted one, the operand has nothing but these.
   */
  lemma RemovedExact(line: string, kw: string, p: nat)
    requires KeywordOk(kw) && Regular(line) && p < |line| && Hit(line, kw, p)
    ensures '=' in line[p..]
    ensures var w, behind := Operand(line[p..]), Behind(line[p..]);
            && Names(w, kw)
            && Ops(line) == Ops(line[..p]) + ([w] + Ops(behind))
            && (Ops(Removed(line, p)) == Ops(line[..p]) + Ops(behind) <==> Tidy(w))
  {
    hide Hit, Regular, KeywordOk, Words, Ops, Removed, ValueEnd, Names, FirstLen, After;
    OperandWord(line, kw, p);
    var s := line[p..];
    var n, f := FirstLen(s, false), FirstSep(s, 0);
    TailExact(s, n, f);
    TidyIs(s, n);
    SameEnd(Ops(line[..p]), Ops(s[f..]), Ops(s[n..]));
  }

  lemma TidyIs(s: string, n: nat)
    requires FirstSep(s, 0) <= n <= |s|
    ensures Tidy(s[..n]) <==> AllSeps(s, FirstSep(s, 0), n)
  {
    FirstSepIs(s[..n], 0, FirstSep(s, 0));
  }

  lemma SameEnd(a: seq<string>, b: seq<string>, c: seq<string>)
    ensures a + b == a + c <==> b == c
  {
    assert (a + b)[|a|..] == b && (a + c)[|a|..] == c;
  }

  lemma WordFirst(s: string)
    requires s != "" && !Sep(s[0])
    ensures var n := FirstLen(s, false); n <= |s| && Ops(s) == [s[..n]] + Ops(s[n..])
  {
    FirstAndRest(s, false);
    var n := FirstLen(s, false);
    assert s[..n] != "";
    hide FirstLen, After, Words, NonEmpty, WordsBehind;
    FirstJoins(s[..n], WordsBehind(s, n));
    OpsFrom(s, n);
  }

  lemma OpsFrom(s: string, n: nat)
    requires n <= |s| && (n < |s| ==> Sep(s[n]))
    ensures NonEmpty(WordsBehind(s, n)) == Ops(s[n..])
  {
    hide Words, NonEmpty;
    if n < |s| {
      assert s[n..] == [s[n]] + s[n + 1..];
      OpsBehind(s[n], s[n + 1..]);
    } else {
      assert s[n..] == "";
      OpsOfNothing();
      NothingJoins();
    }
  }

  lemma NothingJoins()
    ensures NonEmpty([]) == []
  {
  }

  lemma FirstJoins(w: string, tail: seq<string>)
    requires w != ""
    ensures NonEmpty([w] + tail) == [w] + NonEmpty(tail)
  {
    NonEmptyOne(w);
    NonEmptySum([w], tail);
  }

  /** What stands between the end of the value and that of the operand: words, or nothing. */
  lemma TailExact(s: string, n: nat, f: nat)
    requires n == FirstLen(s, false) && f == FirstSep(s, 0) && f <= n <= |s|
    ensures Ops(s[f..]) == Ops(s[n..]) <==> forall i :: f <= i < n ==> Sep(s[i])
  {
    GapCounted(s, f, n);
    if f < n && AllSeps(s, f, n) {
      TidyEnds(s, f);
      OnlySeps(s, f);
    }
  }

  predicate AllSeps(s: string, f: nat, n: nat)
    requires n <= |s|
  {
    forall i :: f <= i < n ==> Sep(s[i])
  }

  lemma OnlySeps(s: string, f: nat)
    requires f <= |s| && AllSeps(s, f, |s|)
    ensures Ops(s[f..]) == [] == Ops(s[|s|..])
  {
    NoOps(s[f..]);
    NoOps(s[|s|..]);
  }

  /** Words for words means that nothing but separators stands between. */
  lemma GapCounted(s: string, f: nat, n: nat)
    requires f <= n <= |s|
    ensures Ops(s[f..]) == Ops(s[n..]) ==> AllSeps(s, f, n)
  {
    hide Ops, Solids, AllSolids;
    var gap := s[f..n];
    assert s[f..] == gap + s[n..];
    SolidsSum(gap, s[n..]);
    OpsSolids(s[f..]);
    OpsSolids(s[n..]);
    NoSolids(gap);
    assert forall i :: f <= i < n ==> s[i] == gap[i - f];
  }
}
