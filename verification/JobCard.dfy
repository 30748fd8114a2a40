// The operands of a JOB card and their removal: src/jobcard.c. A line is the text of
// its buffer up to the NUL.
module JobCard {
  import opened Texts
  import opened Wrappers

  const QUOTE := '\''
  const LAST_COL := 71
  const INDENT := "//         "

  predicate Sep(c: char) { c == ',' || c == ' ' }

  function CharAt(s: string, p: nat): char { if p < |s| then s[p] else '\0' }

  /** Whether s, read from state q, ends inside quotes. */
  predicate After(q: bool, s: string)
    decreases |s|
  {
    if s == "" then q else After(q != (s[0] == QUOTE), s[1..])
  }

  // --- finding -------------------------------------------------------------------------------

  /** An operand can start at p: outside quotes, behind a comma or blank or at the front. */
  predicate Boundary(line: string, p: nat)
    requires p <= |line|
  {
    !After(false, line[..p]) && (p == 0 || Sep(line[p - 1]))
  }

  function BlanksEnd(s: string, p: nat): (q: nat)
    requires p <= |s|
    ensures p <= q <= |s| && (forall k :: p <= k < q ==> s[k] == ' ') && CharAt(s, q) != ' '
    decreases |s| - p
  {
    if CharAt(s, p) == ' ' then BlanksEnd(s, p + 1) else p
  }

  predicate Follows(line: string, kw: string, p: nat)
  {
    p + |kw| <= |line| && line[p..p + |kw|] == kw && CharAt(line, BlanksEnd(line, p + |kw|)) == '='
  }

  predicate Hit(line: string, kw: string, p: nat)
    requires p < |line|
  {
    Boundary(line, p) && line[p] != QUOTE && Follows(line, kw, p)
  }

  /** jobcard_find_operand(): the first place from p on. */
  function FindFrom(line: string, kw: string, p: nat): (r: Option<nat>)
    requires p <= |line|
    ensures r.Some? ==> p <= r.value < |line| && Hit(line, kw, r.value)
    ensures r.None? ==> forall i :: p <= i < |line| ==> !Hit(line, kw, i)
    decreases |line| - p
  {
    if p == |line| then None else if Hit(line, kw, p) then Some(p) else FindFrom(line, kw, p + 1)
  }

  function Find(line: string, kw: string): (r: Option<nat>)
    ensures r.Some? ==> r.value < |line| && Hit(line, kw, r.value)
  {
    if kw == "" then None else FindFrom(line, kw, 0)
  }

  lemma {:induction false} AfterSum(q: bool, a: string, b: string)
    ensures After(q, a + b) == After(After(q, a), b)
    decreases |a|
  {
    if a == "" {
      assert a + b == b;
    } else {
      assert (a + b)[0] == a[0] && (a + b)[1..] == a[1..] + b;
      AfterSum(q != (a[0] == QUOTE), a[1..], b);
    }
  }

  lemma AfterOne(line: string, p: nat)
    requires p < |line|
    ensures After(false, line[..p + 1]) == (After(false, line[..p]) != (line[p] == QUOTE))
  {
    assert line[..p + 1] == line[..p] + [line[p]];
    AfterSum(false, line[..p], [line[p]]);
    assert [line[p]][1..] == "";
    assert After(After(false, line[..p]), [line[p]]) == (After(false, line[..p]) != (line[p] == QUOTE));
  }

  method SkipBlanks(s: string, from: nat) returns (p: nat)
    requires from <= |s|
    ensures p == BlanksEnd(s, from)
  {
    p := from;
    while CharAt(s, p) == ' '
      invariant from <= p <= |s| && BlanksEnd(s, p) == BlanksEnd(s, from)
      decreases |s| - p
    {
      p := p + 1;
    }
  }

  /** The scan, with its quote and boundary flags. */
  method FindOperand(line: string, kw: string) returns (r: Option<nat>)
    ensures r == Find(line, kw)
  {
    if kw == "" {
      return None;
    }
    hide After, BlanksEnd;
    var inQuotes, atOperand := false, true;
    AfterNothing(line);
    for p := 0 to |line|
      invariant inQuotes == After(false, line[..p])
      invariant !inQuotes ==> atOperand == Boundary(line, p)
      invariant FindFrom(line, kw, p) == FindFrom(line, kw, 0)
    {
      AfterOne(line, p);
      if line[p] == QUOTE {
        inQuotes := !inQuotes;
        atOperand := false;
        continue;
      }
      if inQuotes {
        continue;
      }
      if atOperand && p + |kw| <= |line| && line[p..p + |kw|] == kw {
        var q := SkipBlanks(line, p + |kw|);
        if CharAt(line, q) == '=' {
          return Some(p);
        }
      }
      atOperand := Sep(line[p]);
    }
    return None;
  }

  lemma AfterNothing(line: string)
    ensures !After(false, line[..0])
  {
  }

  // --- removing ------------------------------------------------------------------------------

  function FirstEqual(s: string, p: nat): (q: nat)
    requires p <= |s|
    ensures p <= q <= |s| && (forall k :: p <= k < q ==> s[k] != '=') && (q < |s| ==> s[q] == '=')
    decreases |s| - p
  {
    if p < |s| && s[p] != '=' then FirstEqual(s, p + 1) else p
  }

  function FirstSep(s: string, p: nat): (q: nat)
    requires p <= |s|
    ensures p <= q <= |s| && (forall k :: p <= k < q ==> !Sep(s[k])) && (q < |s| ==> Sep(s[q]))
    decreases |s| - p
  {
    if p < |s| && !Sep(s[p]) then FirstSep(s, p + 1) else p
  }

  /** The end of the value of the operand at p. */
  function ValueEnd(line: string, p: nat): (q: nat)
    requires p < |line| && '=' in line[p..]
    ensures p < q <= |line| && (q < |line| ==> Sep(line[q]))
  {
    var eq := FirstEqual(line, p);
    assert eq < |line| by {
      var k :| 0 <= k < |line[p..]| && line[p..][k] == '=';
      assert line[p + k] == '=';
    }
    FirstSep(line, eq + 1)
  }

  /** The line without what stands from p to end and one separator next to it. */
  function Cut(line: string, p: nat, end: nat): (r: string)
    requires p < end <= |line|
    ensures |r| < |line|
  {
    if CharAt(line, end) == ',' then line[..p] + line[end + 1..]
    else if p > 0 && line[p - 1] == ',' then line[..p - 1] + line[end..]
    else line[..p] + line[end..]
  }

  /** The line without the operand at p. */
  function Removed(line: string, p: nat): (r: string)
    requires p < |line| && '=' in line[p..]
    ensures |r| < |line|
  {
    Cut(line, p, ValueEnd(line, p))
  }

  lemma HitHasEqual(line: string, kw: string, p: nat)
    requires p < |line| && Hit(line, kw, p)
    ensures '=' in line[p..]
  {
    var q := BlanksEnd(line, p + |kw|);
    assert line[p..][q - p] == line[q];
  }

  /** jobcard_strip_operand(), as a function of the line. */
  function Stripped(line: string, kw: string): string
    decreases |line|
  {
    var hit := Find(line, kw);
    if hit.None? then line else
    HitHasEqual(line, kw, hit.value);
    Stripped(Removed(line, hit.value), kw)
  }

  method StripOperand(line: string, kw: string) returns (r: string, removed: nat)
    ensures r == Stripped(line, kw) && Find(r, kw).None?
    ensures removed == 0 <==> r == line
  {
    hide Find, Removed, Hit;
    r, removed := line, 0;
    var op := FindOperand(r, kw);
    while op.Some?
      invariant op == Find(r, kw) && Stripped(r, kw) == Stripped(line, kw)
      invariant if removed == 0 then r == line else |r| < |line|
      decreases |r|
    {
      FoundHasEqual(r, kw);
      r := TakeOut(r, op.value);
      removed := removed + 1;
      op := FindOperand(r, kw);
    }
  }

  /** The body of that loop: the operand at p, its value, and one comma beside it. */
  method TakeOut(line: string, p: nat) returns (r: string)
    requires p < |line| && '=' in line[p..]
    ensures r == Removed(line, p)
  {
    hide Removed, ValueEnd;
    var start, end := p, ValueEnd(line, p);
    if CharAt(line, end) == ',' {
      end := end + 1;
    } else if start > 0 && line[start - 1] == ',' {
      start := start - 1;
    }
    r := line[..start] + line[end..];
    RemovedIs(line, p, r);
  }

  lemma FoundHasEqual(line: string, kw: string)
    ensures var r := Find(line, kw); r.Some? ==> r.value < |line| && '=' in line[r.value..]
  {
    if Find(line, kw).Some? {
      HitHasEqual(line, kw, Find(line, kw).value);
    }
  }

  lemma RemovedIs(line: string, p: nat, r: string)
    requires p < |line| && '=' in line[p..] && r == Cut(line, p, ValueEnd(line, p))
    ensures r == Removed(line, p)
  {
  }

  // --- the operands of a line -----------------------------------------------------------------

  /** The line cut at every comma and blank outside quotes. */
  function Words(s: string, q: bool): (ws: seq<string>)
    ensures |ws| > 0
    decreases |s|
  {
    if s == "" then [""] else
    var rest := Words(s[1..], q != (s[0] == QUOTE));
    if !q && Sep(s[0]) then [""] + rest else [[s[0]] + rest[0]] + rest[1..]
  }

  function NonEmpty(ws: seq<string>): (ops: seq<string>)
    ensures forall op :: op in ops <==> op in ws && op != ""
  {
    if ws == [] then [] else (if ws[0] == "" then [] else [ws[0]]) + NonEmpty(ws[1..])
  }

  /** The words of a line, of which the operands are some. */
  function Ops(s: string): seq<string> { NonEmpty(Words(s, false)) }

  /** Two cuts put together: the last word of the one goes on with the first of the other. */
  function Glued(a: seq<string>, b: seq<string>): seq<string>
    requires |a| > 0 && |b| > 0
  {
    a[..|a| - 1] + [a[|a| - 1] + b[0]] + b[1..]
  }

  lemma {:induction false} WordsSum(a: string, b: string, q: bool)
    ensures Words(a + b, q) == Glued(Words(a, q), Words(b, After(q, a)))
    decreases |a|
  {
    hide Glued;
    if a == "" {
      assert a + b == b;
      GluedNothing(Words(b, q));
    } else {
      assert (a + b)[0] == a[0] && (a + b)[1..] == a[1..] + b;
      var r := q != (a[0] == QUOTE);
      WordsSum(a[1..], b, r);
      GluedCons(Words(a[1..], r), Words(b, After(r, a[1..])), a[0]);
    }
  }

  lemma GluedNothing(b: seq<string>)
    requires |b| > 0
    ensures Glued([""], b) == b
  {
    assert "" + b[0] == b[0];
  }

  lemma GluedCons(a: seq<string>, b: seq<string>, c: char)
    requires |a| > 0 && |b| > 0
    ensures Glued([""] + a, b) == [""] + Glued(a, b)
    ensures var g := Glued(a, b); Glued([[c] + a[0]] + a[1..], b) == [[c] + g[0]] + g[1..]
  {
    var x := [[c] + a[0]] + a[1..];
    if |a| == 1 {
      assert x == [[c] + a[0]];
      assert [c] + a[0] + b[0] == [c] + (a[0] + b[0]);
    } else {
      assert x[|x| - 1] == a[|a| - 1];
    }
  }

  lemma {:induction false} NonEmptySum(a: seq<string>, b: seq<string>)
    ensures NonEmpty(a + b) == NonEmpty(a) + NonEmpty(b)
    decreases |a|
  {
    if a == [] {
      assert a + b == b;
    } else {
      assert (a + b)[0] == a[0] && (a + b)[1..] == a[1..] + b;
      NonEmptySum(a[1..], b);
    }
  }

  lemma NonEmptyOne(w: string)
    ensures NonEmpty([w]) == if w == "" then [] else [w]
  {
    assert [w][1..] == [];
  }

  /** The last word is empty behind a separator. */
  lemma LastWord(a: string)
    requires a != "" && Sep(a[|a| - 1]) && !After(false, a)
    ensures var ws := Words(a, false); ws[|ws| - 1] == ""
  {
    var k := |a| - 1;
    var c := [a[k]];
    assert a == a[..k] + c;
    WordsSum(a[..k], c, false);
    assert a[..k + 1] == a;
    AfterOne(a, k);
    assert c[1..] == "";
    assert Words("", false) == [""];
    assert Words(c, After(false, a[..k])) == [""] + [""];
  }

  lemma GluedIs(front: seq<string>, last: string, first: string, back: seq<string>)
    ensures Glued(front + [last], [first] + back) == front + [last + first] + back
  {
    assert ([first] + back)[1..] == back;
  }

  lemma NonEmptyParts(front: seq<string>, last: string, first: string, back: seq<string>)
    requires last == "" || first == ""
    ensures NonEmpty(front + [last + first] + back) == NonEmpty(front + [last]) + NonEmpty([first] + back)
  {
    hide NonEmpty;
    assert last + first == if last == "" then first else last;
    NonEmptyOne(last);
    NonEmptyOne(first);
    NonEmptySum(front, [last]);
    NonEmptySum([first], back);
    NonEmptySum(front + [last + first], back);
    NonEmptySum(front, [last + first]);
  }

  lemma NonEmptyGlued(a: seq<string>, b: seq<string>)
    requires |a| > 0 && |b| > 0 && (a[|a| - 1] == "" || b[0] == "")
    ensures NonEmpty(Glued(a, b)) == NonEmpty(a) + NonEmpty(b)
  {
    hide NonEmpty, Glued;
    var front, last, first, back := a[..|a| - 1], a[|a| - 1], b[0], b[1..];
    assert a == front + [last] && b == [first] + back;
    GluedIs(front, last, first, back);
    NonEmptyParts(front, last, first, back);
  }

  lemma WordsOfNothing(q: bool)
    ensures Words("", q) == [""]
  {
  }

  lemma FirstWordEmpty(b: string)
    requires b != "" && Sep(b[0])
    ensures Words(b, false)[0] == ""
  {
  }

  /** Where a separator or an end is on one side, words do not run on. */
  lemma OpsSum(a: string, b: string)
    requires !After(false, a)
    requires a == "" || Sep(a[|a| - 1]) || b == "" || Sep(b[0])
    ensures Ops(a + b) == Ops(a) + Ops(b)
  {
    hide Words, NonEmpty, Glued, After;
    WordsSum(a, b, false);
    WordsOfNothing(false);
    if a != "" && Sep(a[|a| - 1]) {
      LastWord(a);
    } else if b != "" && Sep(b[0]) {
      FirstWordEmpty(b);
    }
    NonEmptyGlued(Words(a, false), Words(b, false));
  }

  /** A separator in front adds no word. */
  lemma OpsBehind(c: char, b: string)
    requires Sep(c)
    ensures Ops([c] + b) == Ops(b)
  {
    assert ([c] + b)[1..] == b;
    var ws := Words(b, false);
    assert ([""] + ws)[1..] == ws;
  }

  // --- what the removal does to them -----------------------------------------------------------

  predicate KeywordOk(kw: string)
  {
    kw != "" && forall i :: 0 <= i < |kw| ==> kw[i] != QUOTE && kw[i] != '=' && !Sep(kw[i])
  }

  /** The word is the operand kw=... */
  predicate Names(op: string, kw: string) { kw + "=" <= op }

  function Without(ops: seq<string>, kw: string): (r: seq<string>)
    ensures forall op :: op in r <==> op in ops && !Names(op, kw)
  {
    if ops == [] then [] else (if Names(ops[0], kw) then [] else [ops[0]]) + Without(ops[1..], kw)
  }

  /** Every '=' outside quotes directly follows an operand name: no word starts with one. */
  ghost predicate Regular(line: string) { forall op :: op in Ops(line) ==> op[0] != '=' }

  /** No separator is quoted in the word. */
  predicate Solid(w: string) { forall i :: 0 <= i < |w| ==> !Sep(w[i]) }

  /** No value to be removed holds a quoted blank or comma. */
  ghost predicate Plain(line: string, kw: string) { forall op :: op in Ops(line) && Names(op, kw) ==> Solid(op) }

  /** The first word of a text, if no separator is quoted in it, ends at the first separator. */
  lemma FirstWord(s: string, q: bool)
    requires Solid(Words(s, q)[0])
    ensures var e := FirstSep(s, 0);
            && Words(s, q) == [s[..e]] + (if e == |s| then [] else Words(s[e + 1..], false))
            && (e < |s| ==> !After(q, s[..e]))
  {
    FirstAndRest(s, q);
    var e := FirstLen(s, q);
    hide Words, FirstLen, After;
    assert forall i :: 0 <= i < e ==> s[i] == s[..e][i];
    FirstSepIs(s, 0, e);
  }

  lemma {:induction false} SepShiftFrom(s: string, p: nat)
    requires p < |s|
    ensures FirstSep(s, p + 1) == FirstSep(s[1..], p) + 1
    decreases |s| - p
  {
    if p + 1 < |s| && !Sep(s[p + 1]) {
      assert s[1..][p] == s[p + 1];
      SepShiftFrom(s, p + 1);
    }
  }

  lemma SepShift(s: string)
    requires s != "" && !Sep(s[0])
    ensures FirstSep(s, 0) == FirstSep(s[1..], 0) + 1
  {
    SepShiftFrom(s, 0);
  }

  /** The first word of what starts outside quotes starts with as many characters as are neither quote nor separator. */
  lemma {:induction false} WordStarts(s: string, n: nat)
    requires n <= |s| && forall k :: 0 <= k < n ==> s[k] != QUOTE && !Sep(s[k])
    ensures s[..n] <= Words(s, false)[0]
    decreases n
  {
    if n > 0 {
      WordStarts(s[1..], n - 1);
      assert s[..n] == [s[0]] + s[1..][..n - 1];
    }
  }

  lemma BoundaryOps(line: string, p: nat)
    requires p <= |line| && Boundary(line, p)
    ensures Ops(line) == Ops(line[..p]) + Ops(line[p..])
  {
    hide After;
    assert line == line[..p] + line[p..];
    assert p > 0 ==> line[..p][p - 1] == line[p - 1];
    OpsSum(line[..p], line[p..]);
  }

  /** In a regular line nothing but the keyword stands in front of the '='. */
  lemma EqualFollows(line: string, kw: string, p: nat)
    requires KeywordOk(kw) && Regular(line) && p < |line| && Hit(line, kw, p)
    ensures p + |kw| < |line| && line[p + |kw|] == '=' && FirstEqual(line, p) == p + |kw|
  {
    var k := p + |kw|;
    var e := BlanksEnd(line, k);
    assert forall i :: p <= i < k ==> line[i] == line[p..k][i - p];
    if k < e {
      QuotesPass(line, p, e);
      BoundaryOps(line, e);
      EqualWord(line[e..]);
      assert false;
    }
    FirstEqualIs(line, p, k);
  }

  lemma EqualWord(s: string)
    requires s != "" && s[0] == '='
    ensures exists w :: w in Ops(s) && w[0] == '='
  {
    var w := Words(s, false)[0];
    assert w in Ops(s) && w[0] == '=';
  }

  lemma FirstEqualIs(s: string, p: nat, k: nat)
    requires p <= k < |s| && s[k] == '=' && forall i :: p <= i < k ==> s[i] != '='
    ensures FirstEqual(s, p) == k
  {
  }

  /** Characters that are no quotes leave the state as it is. */
  lemma {:induction false} QuotesPass(line: string, p: nat, e: nat)
    requires p <= e <= |line| && forall i :: p <= i < e ==> line[i] != QUOTE
    ensures After(false, line[..e]) == After(false, line[..p])
    decreases e - p
  {
    if p < e {
      QuotesPass(line, p, e - 1);
      AfterOne(line, e - 1);
    }
  }

  /** In a regular line the operand found is a word that names it. */
  lemma HitNames(line: string, kw: string, p: nat)
    requires KeywordOk(kw) && Regular(line) && Plain(line, kw) && p < |line| && Hit(line, kw, p)
    ensures '=' in line[p..]
    ensures var e := ValueEnd(line, p);
            && Names(line[p..e], kw) && Solid(line[p..e]) && (e < |line| ==> !After(false, line[..e]))
            && Ops(line) == Ops(line[..p]) + ([line[p..e]] + Ops(line[e..]))
  {
    hide After, Words, NonEmpty, FirstSep;
    HitHasEqual(line, kw, p);
    EqualFollows(line, kw, p);
    BoundaryOps(line, p);
    var s, k := line[p..], |kw|;
    assert forall i :: 0 <= i < k ==> s[i] == line[p..p + k][i];
    assert s[k] == '=' && s[..k + 1] == kw + "=";
    WordStarts(s, k + 1);
    var w := Words(s, false)[0];
    assert Names(w, kw);
    FirstOp(s);
    assert w in Ops(line);
    SepFrom(line, p, p + k + 1);
    WordEnds(line, p);
    FirstOps(s);
  }

  /** Where the word that starts at p ends, if no separator is quoted in it. */
  lemma WordEnds(line: string, p: nat)
    requires p <= |line| && Boundary(line, p) && Solid(Words(line[p..], false)[0])
    ensures var s := line[p..];
            var e := FirstSep(s, 0);
            && s[..e] == line[p..p + e] && s[e..] == line[p + e..] && Words(s, false)[0] == s[..e]
            && Solid(s[..e]) && (p + e < |line| ==> !After(false, line[..p + e]))
  {
    var s := line[p..];
    FirstWord(s, false);
    hide Words, FirstSep, After;
    var e := FirstSep(s, 0);
    assert line[..p + e] == line[..p] + line[p..p + e];
    AfterSum(false, line[..p], line[p..p + e]);
  }

  lemma FirstOp(s: string)
    ensures var w := Words(s, false)[0]; w != "" ==> w in Ops(s)
  {
  }

  /** The separator behind p is that behind any place up to it. */
  lemma SepFrom(line: string, p: nat, k: nat)
    requires p <= k <= |line| && forall i :: p <= i < k ==> !Sep(line[i])
    ensures FirstSep(line, k) == p + FirstSep(line[p..], 0)
  {
    var f := FirstSep(line[p..], 0);
    assert forall i :: 0 <= i < |line| - p ==> line[p..][i] == line[p + i];
    assert forall i :: p <= i < p + f ==> line[i] == line[p..][i - p];
    assert f >= k - p;
    FirstSepIs(line, k, p + f);
  }

  lemma FirstSepIs(s: string, p: nat, k: nat)
    requires p <= k <= |s| && (k < |s| ==> Sep(s[k])) && forall i :: p <= i < k ==> !Sep(s[i])
    ensures FirstSep(s, p) == k
  {
  }

  lemma FirstOps(s: string)
    requires Solid(Words(s, false)[0]) && Words(s, false)[0] != ""
    ensures var e := FirstSep(s, 0); Ops(s) == [s[..e]] + Ops(s[e..])
  {
    hide Words, FirstSep;
    FirstWord(s, false);
    var e := FirstSep(s, 0);
    if e == |s| {
      assert s[e..] == "";
      OpsOfNothing();
      NonEmptyOne(s[..e]);
    } else {
      assert s[e..] == [s[e]] + s[e + 1..];
      OpsBehind(s[e], s[e + 1..]);
      NonEmptySum([s[..e]], Words(s[e + 1..], false));
      NonEmptyOne(s[..e]);
    }
  }

  lemma OpsOfNothing()
    ensures Ops("") == []
  {
  }

  lemma LeaveAlone(line: string, p: nat, e: nat)
    requires p <= e <= |line| && Boundary(line, p) && CharAt(line, e) == ','
    ensures Ops(line[..p] + line[e + 1..]) == Ops(line[..p]) + Ops(line[e..])
  {
    hide After, Words, NonEmpty;
    assert p > 0 ==> line[..p][p - 1] == line[p - 1];
    OpsSum(line[..p], line[e + 1..]);
    assert line[e..] == [','] + line[e + 1..];
    OpsBehind(',', line[e + 1..]);
  }

  lemma LeaveJoined(line: string, p: nat, e: nat)
    requires p <= e <= |line| && Boundary(line, p) && (e < |line| ==> Sep(line[e]))
    ensures Ops(line[..p] + line[e..]) == Ops(line[..p]) + Ops(line[e..])
    ensures p > 0 && line[p - 1] == ',' ==> Ops(line[..p - 1] + line[e..]) == Ops(line[..p]) + Ops(line[e..])
  {
    hide After, Words, NonEmpty;
    OpsSum(line[..p], line[e..]);
    if p > 0 && line[p - 1] == ',' {
      var front := line[..p - 1];
      AfterOne(line, p - 1);
      assert line[..p] == front + [','];
      OpsSum(front, [',']);
      assert [','] == [','] + "";
      OpsBehind(',', "");
      OpsOfNothing();
      OpsSum(front, line[e..]);
    }
  }

  /** One removal takes that word out, and nothing else. */
  lemma RemovedOps(line: string, kw: string, p: nat)
    requires KeywordOk(kw) && Regular(line) && Plain(line, kw) && p < |line| && Hit(line, kw, p)
    ensures '=' in line[p..]
    ensures Ops(Removed(line, p)) == Ops(line[..p]) + Ops(line[ValueEnd(line, p)..])
    ensures Names(line[p..ValueEnd(line, p)], kw)
    ensures Ops(line) == Ops(line[..p]) + ([line[p..ValueEnd(line, p)]] + Ops(line[ValueEnd(line, p)..]))
  {
    hide Regular, Plain, Names, Words, NonEmpty, ValueEnd, Follows, Boundary, Ops;
    HitNames(line, kw, p);
    var e := ValueEnd(line, p);
    if CharAt(line, e) == ',' {
      LeaveAlone(line, p, e);
    } else {
      LeaveJoined(line, p, e);
    }
  }

  lemma {:induction false} WithoutSum(a: seq<string>, b: seq<string>, kw: string)
    ensures Without(a + b, kw) == Without(a, kw) + Without(b, kw)
    decreases |a|
  {
    hide Names;
    if a == [] {
      assert a + b == b;
    } else {
      assert (a + b)[0] == a[0] && (a + b)[1..] == a[1..] + b;
      WithoutSum(a[1..], b, kw);
    }
  }

  lemma WithoutFirst(w: string, b: seq<string>, kw: string)
    requires Names(w, kw)
    ensures Without([w] + b, kw) == Without(b, kw)
  {
    hide Names;
    assert ([w] + b)[1..] == b;
  }

  lemma WithoutMiddle(a: seq<string>, w: string, b: seq<string>, kw: string)
    requires Names(w, kw)
    ensures Without(a + ([w] + b), kw) == Without(a + b, kw)
  {
    hide Names, Without;
    WithoutSum(a, [w] + b, kw);
    WithoutSum(a, b, kw);
    WithoutFirst(w, b, kw);
  }

  lemma {:induction false} WithoutNone(ops: seq<string>, kw: string)
    requires forall op :: op in ops ==> !Names(op, kw)
    ensures Without(ops, kw) == ops
    decreases |ops|
  {
    hide Names;
    if ops != [] {
      assert ops[0] in ops;
      WithoutNone(ops[1..], kw);
    }
  }

  /** How long the first word is. */
  function FirstLen(s: string, q: bool): (e: nat)
    ensures e <= |s|
    decreases |s|
  {
    if s == "" || (!q && Sep(s[0])) then 0 else 1 + FirstLen(s[1..], q != (s[0] == QUOTE))
  }

  /** The words behind the separator at e, if there is one. */
  function WordsBehind(s: string, e: nat): seq<string>
  {
    if e >= |s| then [] else Words(s[e + 1..], false)
  }

  lemma {:induction false} FirstAndRest(s: string, q: bool)
    ensures var e := FirstLen(s, q);
            && Words(s, q) == [s[..e]] + WordsBehind(s, e)
            && (e < |s| ==> Sep(s[e]) && !After(q, s[..e]))
    decreases |s|
  {
    if s != "" && (q || !Sep(s[0])) {
      hide Words, After, Sep, WordsBehind;
      var t, r := s[1..], q != (s[0] == QUOTE);
      var e := FirstLen(t, r);
      FirstAndRest(t, r);
      assert s[..e + 1] == [s[0]] + t[..e];
      BehindShift(s, e);
      LongerWord(s, q);
      ConsWord(s[0], t[..e], WordsBehind(t, e));
      AfterCons(q, s[0], t[..e]);
    } else {
      assert s[..0] == "" && !After(false, "");
      assert s != "" ==> [""] + Words(s[1..], false) == Words(s, false);
    }
  }

  lemma BehindShift(s: string, e: nat)
    requires s != ""
    ensures WordsBehind(s, e + 1) == WordsBehind(s[1..], e)
  {
    assert e + 1 < |s| ==> s[e + 2..] == s[1..][e + 1..];
  }

  lemma LongerWord(s: string, q: bool)
    requires s != "" && (q || !Sep(s[0]))
    ensures var rest := Words(s[1..], q != (s[0] == QUOTE)); Words(s, q) == [[s[0]] + rest[0]] + rest[1..]
  {
  }

  lemma ConsWord(c: char, x: string, tail: seq<string>)
    ensures var ws := [x] + tail; [[c] + ws[0]] + ws[1..] == [[c] + x] + tail
  {
  }

  lemma AfterCons(q: bool, c: char, s: string)
    ensures After(q, [c] + s) == After(q != (c == QUOTE), s)
  {
    assert ([c] + s)[1..] == s;
  }

  lemma NamedHere(line: string, p: nat, e: nat, kw: string)
    requires KeywordOk(kw) && p <= e <= |line| && Boundary(line, p) && Names(line[p..e], kw)
    ensures p < |line| && Hit(line, kw, p)
  {
    var op, k := line[p..e], p + |kw|;
    assert op[..|kw| + 1] == kw + "=";
    assert op[0] == kw[0] && op[|kw|] == '=';
    assert line[p..k] == op[..|kw|];
    assert line[k] == op[|kw|];
  }

  /** Behind a word the next one can start. */
  lemma NextBoundary(line: string, p: nat, e: nat)
    requires p <= e < |line| && Boundary(line, p) && Sep(line[e]) && !After(false, line[p..e])
    ensures Boundary(line, e + 1)
  {
    assert line[..e] == line[..p] + line[p..e];
    AfterSum(false, line[..p], line[p..e]);
    AfterOne(line, e);
  }

  lemma OpsFirst(s: string)
    ensures var e := FirstLen(s, false);
            forall op :: op in Ops(s) ==> (op == s[..e] && e > 0) || (e < |s| && op in Ops(s[e + 1..]))
  {
    hide Words, FirstLen, After;
    FirstAndRest(s, false);
  }

  /** A word that names the operand is found. */
  lemma {:induction false} NamedIsHit(line: string, p: nat, op: string, kw: string)
    requires KeywordOk(kw) && p <= |line| && Boundary(line, p) && op in Ops(line[p..]) && Names(op, kw)
    ensures exists i :: p <= i < |line| && Hit(line, kw, i)
    decreases |line| - p
  {
    hide Words, After, Boundary, Names, Hit, Ops, FirstLen;
    var s := line[p..];
    var e := FirstLen(s, false);
    OpsFirst(s);
    if op == s[..e] {
      assert s[..e] == line[p..p + e];
      NamedHere(line, p, p + e, kw);
    } else {
      FirstAndRest(s, false);
      assert s[..e] == line[p..p + e] && s[e + 1..] == line[p + e + 1..] && s[e] == line[p + e];
      NextBoundary(line, p, p + e);
      NamedIsHit(line, p + e + 1, op, kw);
    }
  }

  /** A line in which none is found has no such word; a regular line in which one is found has one. */
  lemma FoundExactly(line: string, kw: string)
    requires KeywordOk(kw)
    ensures Find(line, kw).None? ==> Without(Ops(line), kw) == Ops(line)
    ensures Find(line, kw).Some? && Regular(line) && Plain(line, kw) ==> exists op :: op in Ops(line) && Names(op, kw)
  {
    hide Hit, Ops, Names, Words, Boundary, Regular, Plain;
    if Find(line, kw).None? {
      forall op | op in Ops(line)
        ensures !Names(op, kw)
      {
        if Names(op, kw) {
          FrontBoundary(line);
          assert line[0..] == line;
          NamedIsHit(line, 0, op, kw);
        }
      }
      WithoutNone(Ops(line), kw);
    } else if Regular(line) && Plain(line, kw) {
      RemovedOps(line, kw, Find(line, kw).value);
    }
  }

  lemma FrontBoundary(line: string)
    ensures Boundary(line, 0)
  {
  }

  /** The removal takes out exactly the words that name the operand, and keeps the others in order. */
  lemma {:induction false} StrippedOps(line: string, kw: string)
    requires KeywordOk(kw) && Regular(line) && Plain(line, kw)
    ensures Ops(Stripped(line, kw)) == Without(Ops(line), kw)
    decreases |line|
  {
    hide Hit, Ops, Names, Find, Removed, ValueEnd, Without;
    FoundExactly(line, kw);
    var hit := Find(line, kw);
    if hit.Some? {
      FoundHasEqual(line, kw);
      var p := hit.value;
      var r := Removed(line, p);
      FoundHit(line, kw);
      RemovedOps(line, kw, p);
      WithoutMiddle(Ops(line[..p]), line[p..ValueEnd(line, p)], Ops(line[ValueEnd(line, p)..]), kw);
      StrippedOps(r, kw);
    }
  }

  lemma FoundHit(line: string, kw: string)
    ensures Find(line, kw).Some? ==> Find(line, kw).value < |line| && Hit(line, kw, Find(line, kw).value)
  {
  }

  const USER := "USER"
  const PASSWORD := "PASSWORD"

  /** The two removals of jobcard_strip_credentials(). */
  function Cleared(line: string): string { Stripped(Stripped(line, USER), PASSWORD) }

  lemma KeywordsOk()
    ensures KeywordOk(USER) && KeywordOk(PASSWORD)
  {
  }

  /**
   * Where no unquoted '=' follows a blank or comma, and no value to be removed holds a
   * quoted blank or comma, no credential is left and every other operand is, in order.
   */
  lemma NoCredentialLeft(line: string)
    requires Regular(line) && Plain(line, USER) && Plain(line, PASSWORD)
    ensures Ops(Cleared(line)) == Without(Without(Ops(line), USER), PASSWORD)
    ensures Find(Cleared(line), USER).None? && Find(Cleared(line), PASSWORD).None?
  {
    hide Ops, Names, Find, Stripped, KeywordOk;
    KeywordsOk();
    var once := Stripped(line, USER);
    StrippedOps(line, USER);
    StrippedOps(once, PASSWORD);
    FoundExactly(Cleared(line), USER);
    FoundExactly(Cleared(line), PASSWORD);
  }

  // --- both conditions are needed ---------------------------------------------------------------

  lemma {:induction false} FindIs(line: string, kw: string, from: nat, p: nat)
    requires from <= p < |line| && Hit(line, kw, p) && forall i :: from <= i < p ==> !Hit(line, kw, i)
    ensures FindFrom(line, kw, from) == Some(p)
    decreases p - from
  {
    hide Hit;
    if from < p {
      FindIs(line, kw, from + 1, p);
    }
  }

  lemma {:induction false} FindNot(line: string, kw: string, from: nat)
    requires from <= |line| && forall i :: from <= i < |line| ==> !Hit(line, kw, i)
    ensures FindFrom(line, kw, from) == None
    decreases |line| - from
  {
    hide Hit;
    if from < |line| {
      FindNot(line, kw, from + 1);
    }
  }

  lemma {:induction false} Unquoted(line: string, p: nat)
    requires p <= |line| && forall i :: 0 <= i < p ==> line[i] != QUOTE
    ensures !After(false, line[..p])
    decreases p
  {
    if p > 0 {
      AfterOne(line, p - 1);
      Unquoted(line, p - 1);
    }
  }

  const LATE := "USER PASSWORD=A =B"
  const LATER := "USER  =B"

  lemma LateHasNoUser()
    ensures Find(LATE, USER) == None
  {
    forall i | 0 <= i < |LATE|
      ensures !Hit(LATE, USER, i)
    {
      if i + 4 <= |LATE| && LATE[i..i + 4] == USER {
        assert LATE[i..i + 4][0] == LATE[i] && LATE[i..i + 4][1] == LATE[i + 1];
        assert BlanksEnd(LATE, 4) == 5;
      }
    }
    hide Hit;
    FindNot(LATE, USER, 0);
  }

  lemma LatePasswordFirst()
    ensures forall i :: 0 <= i < 5 ==> !Hit(LATE, PASSWORD, i)
  {
    forall i | 0 <= i < 5
      ensures !Hit(LATE, PASSWORD, i)
    {
      assert LATE[i..i + 8][0] == LATE[i];
    }
  }

  lemma LatePasswordHit()
    ensures Hit(LATE, PASSWORD, 5)
  {
    Unquoted(LATE, 5);
    assert LATE[5..13] == PASSWORD && BlanksEnd(LATE, 13) == 13;
  }

  lemma LateHasPassword()
    ensures Find(LATE, PASSWORD) == Some(5) && '=' in LATE[5..] && ValueEnd(LATE, 5) == 15
  {
    hide Hit;
    LatePasswordFirst();
    LatePasswordHit();
    FindIs(LATE, PASSWORD, 0, 5);
    HitHasEqual(LATE, PASSWORD, 5);
    FirstEqualIs(LATE, 5, 13);
    FirstSepIs(LATE, 14, 15);
  }

  lemma LaterHasUser()
    ensures Find(LATER, PASSWORD) == None && Find(LATER, USER) == Some(0)
  {
    forall i | 0 <= i < |LATER|
      ensures !Hit(LATER, PASSWORD, i)
    {
      assert i + 8 <= |LATER| ==> LATER[i..i + 8][0] == LATER[i];
    }
    FindNot(LATER, PASSWORD, 0);
    Unquoted(LATER, 0);
    assert LATER[0..4] == USER && BlanksEnd(LATER, 4) == 6;
    FindIs(LATER, USER, 0, 0);
  }

  lemma LateLosesPassword()
    ensures '=' in LATE[5..] && Removed(LATE, 5) == LATER
  {
    LateHasPassword();
    hide Find, ValueEnd;
    assert LATE[..5] + LATE[15..] == LATER;
  }

  /** An '=' behind a blank: taking the operand in front of it away makes another. */
  lemma LateEqualWitness()
    ensures Cleared(LATE) == LATER && Find(LATER, USER) == Some(0)
  {
    hide Find, Removed;
    LateHasNoUser();
    LateHasPassword();
    LateLosesPassword();
    LaterHasUser();
  }

  const OPEN_QUOTE := "PASSWORD=A'B,USER=C"
  const NO_QUOTE := "USER=C"

  lemma OpenQuoteHidesUser()
    ensures Find(OPEN_QUOTE, USER) == None
  {
    forall i | 0 <= i < |OPEN_QUOTE|
      ensures !Hit(OPEN_QUOTE, USER, i)
    {
      if i + 4 <= |OPEN_QUOTE| && OPEN_QUOTE[i..i + 4] == USER {
        assert OPEN_QUOTE[i..i + 4][0] == OPEN_QUOTE[i];
        assert i == 13;
        OneQuote(OPEN_QUOTE, 10, 13);
      }
    }
    hide Hit;
    FindNot(OPEN_QUOTE, USER, 0);
  }

  lemma OneQuote(line: string, k: nat, p: nat)
    requires k < p <= |line| && line[k] == QUOTE && forall i :: 0 <= i < p && i != k ==> line[i] != QUOTE
    ensures After(false, line[..p])
  {
    Unquoted(line, k);
    AfterOne(line, k);
    QuotesPass(line, k + 1, p);
  }

  lemma OpenQuoteHasPassword()
    ensures Find(OPEN_QUOTE, PASSWORD) == Some(0) && '=' in OPEN_QUOTE[0..] && ValueEnd(OPEN_QUOTE, 0) == 12
  {
    Unquoted(OPEN_QUOTE, 0);
    assert OPEN_QUOTE[0..8] == PASSWORD && BlanksEnd(OPEN_QUOTE, 8) == 8;
    FindIs(OPEN_QUOTE, PASSWORD, 0, 0);
    HitHasEqual(OPEN_QUOTE, PASSWORD, 0);
    FirstEqualIs(OPEN_QUOTE, 0, 8);
    FirstSepIs(OPEN_QUOTE, 9, 12);
  }

  lemma OpenQuoteLosesPassword()
    ensures '=' in OPEN_QUOTE[0..] && Removed(OPEN_QUOTE, 0) == NO_QUOTE
  {
    OpenQuoteHasPassword();
    hide Find, ValueEnd;
    assert OPEN_QUOTE[..0] + OPEN_QUOTE[13..] == NO_QUOTE;
  }

  lemma NoQuoteHasUser()
    ensures Find(NO_QUOTE, PASSWORD) == None && Find(NO_QUOTE, USER) == Some(0)
  {
    forall i | 0 <= i < |NO_QUOTE|
      ensures !Hit(NO_QUOTE, PASSWORD, i)
    {
    }
    FindNot(NO_QUOTE, PASSWORD, 0);
    Unquoted(NO_QUOTE, 0);
    assert NO_QUOTE[0..4] == USER && BlanksEnd(NO_QUOTE, 4) == 4;
    FindIs(NO_QUOTE, USER, 0, 0);
  }

  /** A quoted comma in a value: the operand quoted with it comes to light when the value goes. */
  lemma ApostropheWitness()
    ensures Cleared(OPEN_QUOTE) == NO_QUOTE && Find(NO_QUOTE, USER) == Some(0)
  {
    hide Find, Removed;
    OpenQuoteHidesUser();
    OpenQuoteHasPassword();
    OpenQuoteLosesPassword();
    NoQuoteHasUser();
  }

  // --- the whole card ----------------------------------------------------------------------------

  /** jobcard_operands_empty(): nothing but a leading // and blanks. */
  predicate OperandsEmpty(line: string) { forall i :: 0 <= i < |Unmarked(line)| ==> Unmarked(line)[i] == ' ' }

  function Unmarked(line: string): string { if "//" <= line then line[2..] else line }

  /** A line of the card with its credentials gone; a continuation left without operands is blanked. */
  function CardLine(line: string, continuation: bool): string
  {
    var c := Cleared(line);
    if continuation && OperandsEmpty(c) then "" else c
  }

  method CheckEmpty(line: string) returns (empty: bool)
    ensures empty <==> OperandsEmpty(line)
  {
    var from := if "//" <= line then 2 else 0;
    var p := SkipBlanks(line, from);
    ghost var rest := Unmarked(line);
    assert forall k :: 0 <= k < |rest| ==> rest[k] == line[k + from];
    if p < |line| {
      assert rest[p - from] == line[p];
      return false;
    }
    return true;
  }

  /** jobcard_strip_credentials() */
  method StripCredentials(lines: array<string>, start: int, end: int) returns (removed: int)
    requires end < lines.Length
    modifies lines
    ensures removed == -1 <==> start < 0 || end < start
    ensures removed == -1 ==> lines[..] == old(lines[..])
    ensures removed != -1 ==> removed >= 0
    ensures removed != -1 ==> forall i :: start <= i <= end ==> lines[i] == CardLine(old(lines[i]), i > start)
    ensures removed != -1 ==> forall i :: 0 <= i < lines.Length && !(start <= i <= end) ==> lines[i] == old(lines[i])
  {
    hide Stripped, Find, OperandsEmpty;
    if start < 0 || end < start {
      return -1;
    }
    removed := 0;
    for i := start to end + 1
      invariant removed >= 0
      invariant forall k :: start <= k < i ==> lines[k] == CardLine(old(lines[k]), k > start)
      invariant forall k :: 0 <= k < lines.Length && !(start <= k < i) ==> lines[k] == old(lines[k])
    {
      var once, n := StripOperand(lines[i], USER);
      var twice, m := StripOperand(once, PASSWORD);
      lines[i] := twice;
      removed := removed + n + m;
      if i > start {
        var empty := CheckEmpty(twice);
        if empty {
          lines[i] := "";
        }
      }
    }
  }

  // --- continuing the card -------------------------------------------------------------------------

  /** Parentheses open in front of i, quoted ones aside. */
  function Depth(t: string, i: nat): int
    requires i <= |t|
  {
    if i == 0 then 0 else
    Depth(t, i - 1) +
    if After(false, t[..i - 1]) then 0 else if t[i - 1] == '(' then 1 else if t[i - 1] == ')' then -1 else 0
  }

  /** A comma that separates operands. */
  predicate TopComma(t: string, i: nat)
    requires i < |t|
  {
    t[i] == ',' && !After(false, t[..i]) && Depth(t, i) == 0
  }

  /** The last of them in front of i. */
  function LastTop(t: string, i: nat): (r: Option<nat>)
    requires i <= |t|
    ensures r.Some? ==> r.value < i && TopComma(t, r.value) && forall k :: r.value < k < i ==> !TopComma(t, k)
    ensures r.None? ==> forall k :: 0 <= k < i ==> !TopComma(t, k)
  {
    if i == 0 then None else if TopComma(t, i - 1) then Some(i - 1) else LastTop(t, i - 1)
  }

  /** What jobcard_continue() leaves: the line, and the card its last operand went to. */
  datatype Continued = AsIs(line: string) | WithComma(line: string) | Moved(line: string, moved: string) | TooLong

  /** room: the size of the buffer for the card, if there is one. */
  function Continuation(line: string, room: Option<nat>): Continued
  {
    var t := TrimRight(line);
    if t == "" || t[|t| - 1] == ',' then AsIs(t)
    else if |t| < LAST_COL then WithComma(t + ",")
    else if |t| > LAST_COL || room.None? then TooLong
    else
      var last := LastTop(t, |t|);
      if last.None? then TooLong else
      var width := |INDENT| + |t| - (last.value + 1) + 1;
      if width > LAST_COL || width >= room.value then TooLong
      else Moved(t[..last.value + 1], INDENT + t[last.value + 1..] + ",")
  }

  /** jobcard_continue() */
  method Continue(line: string, room: Option<nat>) returns (r: Continued)
    ensures r == Continuation(line, room)
  {
    hide TrimRight, LastTop;
    var len := TrimmedLength(line);
    var t := line[..len];
    if len == 0 || t[len - 1] == ',' {
      return AsIs(t);
    }
    if len < LAST_COL {
      return WithComma(t + ",");
    }
    if len > LAST_COL || room.None? {
      return TooLong;
    }
    var last := FindLastTop(t);
    if last.None? {
      return TooLong;
    }
    var tail := t[last.value + 1..];
    if |INDENT| + |tail| + 1 > LAST_COL || |INDENT| + |tail| + 1 >= room.value {
      return TooLong;
    }
    return Moved(t[..last.value + 1], INDENT + tail + ",");
  }

  method FindLastTop(t: string) returns (last: Option<nat>)
    ensures last == LastTop(t, |t|)
  {
    hide After;
    var inQuotes, depth := false, 0;
    last := None;
    AfterNothing(t);
    for i := 0 to |t|
      invariant inQuotes == After(false, t[..i]) && depth == Depth(t, i) && last == LastTop(t, i)
    {
      AfterOne(t, i);
      if t[i] == QUOTE {
        inQuotes := !inQuotes;
      } else if inQuotes {
        continue;
      } else if t[i] == '(' {
        depth := depth + 1;
      } else if t[i] == ')' {
        depth := depth - 1;
      } else if t[i] == ',' && depth == 0 {
        last := Some(i);
      }
    }
  }

  /** The line, put together again, is what it was; both cards end in a comma that fits column 71. */
  lemma ContinuationRejoins(line: string, room: Option<nat>)
    ensures var t := TrimRight(line);
            match Continuation(line, room)
            case AsIs(c) => c == t && (t == "" || t[|t| - 1] == ',')
            case WithComma(c) => c == t + "," && |c| <= LAST_COL
            case Moved(c, m) =>
              && |m| <= LAST_COL && |m| > |INDENT| && INDENT <= m && m[|m| - 1] == ','
              && c + m[|INDENT|..|m| - 1] == t
              && c != "" && |c| <= |t| == LAST_COL && TopComma(t, |c| - 1)
              && forall i :: |c| <= i < |t| ==> !TopComma(t, i)
            case TooLong => |t| >= LAST_COL && t[|t| - 1] != ','
  {
    hide TopComma;
    var r := Continuation(line, room);
    if r.Moved? {
      var t := TrimRight(line);
      assert r.moved[|INDENT|..|r.moved| - 1] == t[|r.line|..];
    }
  }
}
