// Whose credentials a submitted card carries: src/jobsapi.c with src/jobcard.c.
module CardCredentials {
  import opened Texts
  import opened Wrappers
  import opened JobCard
  import opened CardCommas
  import opened SubmitCard

  /** No operand of that name in the line. */
  ghost predicate Lacks(line: string, kw: string) { forall i :: 0 <= i < |line| ==> !Hit(line, kw, i) }

  ghost predicate Clean(line: string) { Lacks(line, USER) && Lacks(line, PASSWORD) }

  /** A userid or password: neither quotes, commas nor blanks. */
  predicate Simple(s: string) { forall i :: 0 <= i < |s| ==> s[i] != QUOTE && !Sep(s[i]) }

  lemma LacksIsNotFound(line: string, kw: string)
    requires kw != ""
    ensures Lacks(line, kw) <==> Find(line, kw).None?
  {
    hide Hit;
    if Lacks(line, kw) {
      FindNot(line, kw, 0);
    }
  }

  // --- cutting and joining lines -----------------------------------------------------------

  lemma HitOfPrefix(t: string, s: string, kw: string, i: nat)
    requires t <= s && i < |t| && Hit(t, kw, i)
    ensures Hit(s, kw, i)
  {
    assert s[..i] == t[..i] && s[i..i + |kw|] == t[i..i + |kw|];
    BlanksEndIs(s, i + |kw|, BlanksEnd(t, i + |kw|));
  }

  /** Cutting a line shows no new operand. */
  lemma PrefixLacks(t: string, s: string, kw: string)
    requires t <= s && Lacks(s, kw)
    ensures Lacks(t, kw)
  {
    hide Hit;
    forall i | 0 <= i < |t|
      ensures !Hit(t, kw, i)
    {
      if Hit(t, kw, i) {
        HitOfPrefix(t, s, kw, i);
      }
    }
  }

  /** The keyword at i ends in front of the next separator, and the '=' in front of what is neither. */
  lemma HitEnds(s: string, kw: string, i: nat, k: nat)
    requires KeywordOk(kw) && i <= k < |s| && Hit(s, kw, i) && s[k] != '=' && Sep(s[k])
    ensures i + |kw| <= k
  {
    assert forall j :: i <= j < i + |kw| ==> s[j] == s[i..i + |kw|][j - i];
  }

  /** A hit in front of something that is no blank and no '=' is a hit in the front. */
  lemma HitInFront(a: string, b: string, kw: string, i: nat)
    requires KeywordOk(kw) && i < |a| && Hit(a + b, kw, i) && i + |kw| <= |a|
    requires b == "" || (b[0] != ' ' && b[0] != '=')
    ensures Hit(a, kw, i)
  {
    var s, k := a + b, i + |kw|;
    var q := BlanksEnd(s, k);
    assert s[..i] == a[..i] && s[i..k] == a[i..k];
    assert b != "" ==> |a| < |s| && s[|a|] == b[0];
    assert q < |a|;
    assert forall j :: k <= j <= q ==> a[j] == s[j];
    BlanksEndIs(a, k, q);
  }

  lemma AppendedComma(t: string, kw: string)
    requires KeywordOk(kw) && Lacks(t, kw)
    ensures Lacks(t + ",", kw)
  {
    var s := t + ",";
    hide Hit;
    forall i | 0 <= i < |s|
      ensures !Hit(s, kw, i)
    {
      if Hit(s, kw, i) {
        HitEnds(s, kw, i, |t|);
        KeywordStarts(s, kw, i);
        HitInFront(t, ",", kw, i);
      }
    }
  }

  lemma KeywordStarts(s: string, kw: string, i: nat)
    requires KeywordOk(kw) && i < |s| && Hit(s, kw, i)
    ensures s[i] == kw[0] && !Sep(s[i])
  {
    assert s[i..i + |kw|][0] == s[i];
  }

  lemma SuffixOfSuffix(s: string, i: nat, k: nat)
    requires i + k <= |s|
    ensures s[i..][k..] == s[i + k..] && s[i..][..k] == s[i..i + k]
  {
  }

  lemma CharOfSuffix(s: string, q: nat)
    requires q <= |s|
    ensures CharAt(s, q) == CharAt(s[q..], 0)
  {
  }

  /** Whether a keyword follows depends on the rest of the line only. */
  lemma FollowsSuffix(s: string, kw: string, i: nat)
    requires i <= |s|
    ensures Follows(s, kw, i) <==> Follows(s[i..], kw, 0)
  {
    if i + |kw| <= |s| {
      var r, k := s[i..], |kw|;
      SuffixOfSuffix(s, i, k);
      BlanksShift(s, i + k);
      BlanksShift(r, k);
      var q := BlanksEnd(s[i + k..], 0);
      SuffixOfSuffix(s, i, k + q);
      CharOfSuffix(s, i + k + q);
      CharOfSuffix(r, k + q);
    }
  }

  lemma SameSuffix(x: string, s: string, c: nat, i: nat)
    requires c <= |s| && |x| <= i <= |x + s[c..]|
    ensures c + i - |x| <= |s| && (x + s[c..])[i..] == s[c + i - |x|..]
    ensures (x + s[c..])[..i] == x + s[c..][..i - |x|] && s[..c + i - |x|] == s[..c] + s[c..][..i - |x|]
  {
  }

  /** A text that can be followed by an operand, in front of the end of a line from where one can start. */
  lemma HitBehind(x: string, s: string, c: nat, kw: string, i: nat)
    requires Ended(x) && c <= |s| && Boundary(s, c) && |x| <= i < |x + s[c..]| && Hit(x + s[c..], kw, i)
    ensures c + i - |x| < |s| && Hit(s, kw, c + i - |x|)
  {
    hide Follows;
    var t, j := x + s[c..], i - |x|;
    SameSuffix(x, s, c, i);
    assert t[i] == s[c + j] && (j > 0 ==> t[i - 1] == s[c + j - 1]);
    FollowsSuffix(t, kw, i);
    FollowsSuffix(s, kw, c + j);
    hide After;
    AfterSum(false, x, s[c..][..j]);
    AfterSum(false, s[..c], s[c..][..j]);
  }

  /** The line behind c, with x in front that shows no operand of its own. */
  lemma JoinedLacks(x: string, s: string, c: nat, kw: string)
    requires Ended(x) && c <= |s| && Boundary(s, c) && Lacks(s, kw)
    requires forall i :: 0 <= i < |x| ==> !Hit(x + s[c..], kw, i)
    ensures Lacks(x + s[c..], kw)
  {
    hide Hit, Ended, Boundary;
    forall i | 0 <= i < |x + s[c..]|
      ensures !Hit(x + s[c..], kw, i)
    {
      if i >= |x| && Hit(x + s[c..], kw, i) {
        HitBehind(x, s, c, kw, i);
      }
    }
  }

  // --- the continuation ----------------------------------------------------------------------

  lemma IndentChars()
    ensures |INDENT| == 11 && INDENT[10] == ' ' && QUOTE !in INDENT
    ensures forall i :: 0 <= i < |INDENT| ==> INDENT[i] == '/' || INDENT[i] == ' '
  {
  }

  lemma IndentEnded()
    ensures Ended(INDENT) && INDENT != ""
  {
    IndentChars();
    hide INDENT, After;
    NoQuotes(false, INDENT);
  }

  lemma MovedLacks(t: string, k: nat, kw: string)
    requires KeywordOk(kw) && kw[0] != '/' && Lacks(t, kw) && k < |t| && TopComma(t, k)
    ensures Lacks(INDENT + t[k + 1..] + ",", kw)
  {
    IndentEnded();
    IndentChars();
    hide INDENT;
    AfterOne(t, k);
    assert Boundary(t, k + 1);
    hide Boundary, Hit, TopComma, Ended;
    var s := INDENT + t[k + 1..];
    forall i | 0 <= i < |INDENT|
      ensures !Hit(s, kw, i)
    {
      assert s[i] == INDENT[i];
      if Hit(s, kw, i) {
        KeywordStarts(s, kw, i);
      }
    }
    JoinedLacks(INDENT, t, k + 1, kw);
    AppendedComma(s, kw);
  }

  /** Continuing the card shows no new operand, on neither card. */
  lemma ContinuationLacks(line: string, room: Option<nat>, kw: string)
    requires KeywordOk(kw) && kw[0] != '/' && Lacks(line, kw)
    ensures var c := Continuation(line, room);
            !c.TooLong? ==> Lacks(c.line, kw) && (c.Moved? ==> Lacks(c.moved, kw))
  {
    hide Lacks, KeywordOk, TopComma;
    var t := TrimRight(line);
    PrefixLacks(t, line, kw);
    AppendedComma(t, kw);
    var c := Continuation(line, room);
    if c.Moved? {
      var k := LastTop(t, |t|).value;
      PrefixLacks(c.line, t, kw);
      MovedLacks(t, k, kw);
    }
  }

  // --- NOTIFY= -------------------------------------------------------------------------------

  /** Where in the line the text behind &SYSUID starts, if it is to be replaced. */
  function SysuidEnd(line: string): (q: Option<nat>)
    ensures q.Some? ==> Find(line, NOTIFY).Some? && Find(line, NOTIFY).value < q.value <= |line|
  {
    var hit := Find(line, NOTIFY);
    if hit.None? then None else
    FoundHasEqual(line, NOTIFY);
    EqualInside(line, hit.value);
    var value := BlanksEnd(line, FirstEqual(line, hit.value) + 1);
    if StartsAt(line, value, SYSUID) then Some(value + |SYSUID|) else None
  }

  /** The quotes in what is replaced, the word dropped behind NOTIFY=&SYSUID included, are paired. */
  ghost predicate PlainRemark(line: string)
  {
    var q := SysuidEnd(line);
    q.Some? ==> !After(false, line[Find(line, NOTIFY).value..q.value + WordEnd(line[q.value..])])
  }

  /** The operand that replaces it, with the comma behind. */
  function Replaced(front: string, user: string): string { front + (NOTIFY + "=" + user + ",") }

  /** A userid's operand in front of the rest of a line shows no other. */
  lemma ReplacedShowsNone(line: string, p: nat, user: string, rest: string, kw: string)
    requires KeywordOk(kw) && kw[0] != 'N' && Simple(user) && p <= |line| && Boundary(line, p) && Lacks(line, kw)
    ensures forall i :: 0 <= i < |Replaced(line[..p], user)| ==> !Hit(Replaced(line[..p], user) + rest, kw, i)
    ensures Ended(Replaced(line[..p], user))
  {
    var a, n := line[..p], NOTIFY + "=" + user;
    var x := Replaced(a, user);
    var s := x + rest;
    ReplacedEnded(line, p, user);
    assert n[0] == 'N' && forall k :: 0 <= k < |n| ==> !Sep(n[k]) && n[k] != QUOTE;
    assert forall k :: p <= k < p + |n| ==> s[k] == n[k - p];
    assert s[p + |n|] == ',' && s[..p] == a;
    forall i | 0 <= i < |x|
      ensures !Hit(s, kw, i)
    {
      if Hit(s, kw, i) {
        KeywordStarts(s, kw, i);
        if i < p {
          FrontHit(line, p, s, kw, i);
        }
      }
    }
  }

  /** A hit in front of p would be one of the line. */
  lemma FrontHit(line: string, p: nat, s: string, kw: string, i: nat)
    requires KeywordOk(kw) && i < p <= |line| && Sep(line[p - 1]) && p < |s| && s[..p] == line[..p] && s[p] == 'N'
    requires Hit(s, kw, i)
    ensures Hit(line, kw, i)
  {
    var a := line[..p];
    assert s == a + s[p..];
    assert s[p - 1] == a[p - 1];
    HitEnds(s, kw, i, p - 1);
    HitInFront(a, s[p..], kw, i);
    HitOfPrefix(a, line, kw, i);
  }

  lemma ReplacedEnded(line: string, p: nat, user: string)
    requires p <= |line| && Boundary(line, p) && Simple(user)
    ensures Ended(Replaced(line[..p], user))
  {
    var n := NOTIFY + "=" + user + ",";
    assert forall k :: 0 <= k < |n| ==> n[k] != QUOTE;
    AfterSum(false, line[..p], n);
    NoQuotes(false, n);
  }

  /** Where the text that is kept starts, the comma put in front of it aside. */
  function RestStart(behind: string): (c: nat)
    ensures WordEnd(behind) <= c <= |behind|
  {
    var e := WordEnd(behind);
    if CharAt(behind, e) == ',' then e + 1 else BlanksEnd(behind, e)
  }

  lemma RestBehind(behind: string)
    ensures var e, c := WordEnd(behind), RestStart(behind);
            && Remainder(behind) <= "," + behind[c..]
            && (Remainder(behind) != "" ==> c > e)
            && forall k :: e <= k < c ==> Sep(behind[k])
  {
    hide WordEnd;
    var e := WordEnd(behind);
    if CharAt(behind, e) == ',' {
      assert behind[e..] == "," + behind[e + 1..];
    } else {
      assert e < |behind| ==> Sep(behind[e]) by { WordStops(behind); }
      BlanksStop(behind, e);
    }
  }

  lemma WordStops(behind: string)
    ensures WordEnd(behind) < |behind| ==> Sep(behind[WordEnd(behind)])
  {
  }

  /** Behind a part with paired quotes and separators an operand can start. */
  lemma BoundaryBehind(line: string, p: nat, m: nat, k: nat)
    requires p <= m < k <= |line| && !After(false, line[..p]) && !After(false, line[p..m])
    requires forall i :: m <= i < k ==> Sep(line[i])
    ensures Boundary(line, k)
  {
    hide After;
    assert line[..m] == line[..p] + line[p..m];
    AfterSum(false, line[..p], line[p..m]);
    QuotesPass(line, m, k);
  }

  lemma SepsAt(line: string, q: nat, e: nat, c: nat)
    requires q <= |line| && e <= c <= |line| - q && forall i :: e <= i < c ==> Sep(line[q..][i])
    ensures forall i :: q + e <= i < q + c ==> Sep(line[i])
  {
    forall i | q + e <= i < q + c
      ensures Sep(line[i])
    {
      assert line[i] == line[q..][i - q];
    }
  }

  lemma BoundaryPaired(line: string, p: nat)
    requires p <= |line| && Boundary(line, p)
    ensures !After(false, line[..p])
  {
  }

  /** Behind the dropped word, which ends e behind q, and the separators up to c an operand can start. */
  lemma RestBoundary(line: string, p: nat, q: nat, e: nat, c: nat)
    requires p < q && e < c <= |line| - q && Boundary(line, p) && !After(false, line[p..q + e])
    requires forall k :: e <= k < c ==> Sep(line[q..][k])
    ensures Boundary(line, q + c)
  {
    BoundaryPaired(line, p);
    SepsAt(line, q, e, c);
    hide Boundary, Sep, After;
    BoundaryBehind(line, p, q + e, q + c);
  }

  /** The line up to the rewritten operand shows none, whatever is kept behind it. */
  lemma KeptLacks(line: string, p: nat, q: nat, user: string, kw: string)
    requires KeywordOk(kw) && kw[0] != 'N' && Simple(user) && Lacks(line, kw)
    requires p < q <= |line| && Boundary(line, p) && !After(false, line[p..q + WordEnd(line[q..])])
    requires Remainder(line[q..]) != ""
    ensures Lacks(line[..p] + NOTIFY + "=" + user + Remainder(line[q..]), kw)
  {
    hide Lacks, KeywordOk, Boundary, Ended, WordEnd, RestStart, Remainder, Simple, NOTIFY, Replaced;
    var behind := line[q..];
    RestBehind(behind);
    var e, c := WordEnd(behind), RestStart(behind);
    RestBoundary(line, p, q, e, c);
    SuffixSlice(line, q, c);
    ReplacedShowsNone(line, p, user, line[q + c..], kw);
    JoinedLacks(Replaced(line[..p], user), line, q + c, kw);
    RewrittenPrefix(line[..p], user, Remainder(behind), line[q + c..]);
    var n := line[..p] + NOTIFY + "=" + user + Remainder(behind);
    PrefixLacks(n, Replaced(line[..p], user) + line[q + c..], kw);
  }

  lemma SuffixSlice(line: string, q: nat, c: nat)
    requires q + c <= |line|
    ensures line[q..][c..] == line[q + c..]
  {
  }

  /** Nothing is kept behind it. */
  lemma NothingKeptLacks(line: string, p: nat, user: string, kw: string)
    requires KeywordOk(kw) && kw[0] != 'N' && Simple(user) && p <= |line| && Boundary(line, p) && Lacks(line, kw)
    ensures Lacks(line[..p] + NOTIFY + "=" + user + "", kw)
  {
    ReplacedLacks(line, p, user, kw);
    hide Lacks, KeywordOk, Boundary, Simple, NOTIFY;
    var n := line[..p] + NOTIFY + "=" + user + "";
    assert Replaced(line[..p], user) == n + ",";
    PrefixLacks(n, Replaced(line[..p], user), kw);
  }

  /** Rewriting NOTIFY= shows no new operand. */
  lemma NotifyLacks(line: string, user: string, replaced: bool, kw: string)
    requires KeywordOk(kw) && kw[0] != 'N' && Simple(user) && PlainRemark(line) && Lacks(line, kw)
    ensures var n := Notify(line, user, replaced); n.Rewritten? ==> Lacks(n.line, kw)
  {
    hide Lacks, KeywordOk, Boundary, WordEnd, Remainder, Simple;
    var n := Notify(line, user, replaced);
    if n.Rewritten? {
      FoundBoundary(line);
      var p, q := Find(line, NOTIFY).value, SysuidEnd(line).value;
      if Remainder(line[q..]) == "" {
        NothingKeptLacks(line, p, user, kw);
      } else {
        KeptLacks(line, p, q, user, kw);
      }
    }
  }

  lemma FoundBoundary(line: string)
    ensures var hit := Find(line, NOTIFY); hit.Some? ==> hit.value <= |line| && Boundary(line, hit.value)
  {
  }

  lemma ReplacedLacks(line: string, p: nat, user: string, kw: string)
    requires KeywordOk(kw) && kw[0] != 'N' && Simple(user) && p <= |line| && Boundary(line, p) && Lacks(line, kw)
    ensures Lacks(Replaced(line[..p], user), kw)
  {
    hide Hit;
    ReplacedShowsNone(line, p, user, "", kw);
    assert Replaced(line[..p], user) + "" == Replaced(line[..p], user);
  }

  lemma RewrittenPrefix(front: string, user: string, kept: string, rest: string)
    requires kept <= "," + rest
    ensures front + NOTIFY + "=" + user + kept <= Replaced(front, user) + rest
  {
    assert Replaced(front, user) + rest == front + NOTIFY + "=" + user + ("," + rest);
  }

  // --- the card --------------------------------------------------------------------------------

  /** A submitted line on which the removal is exact, and which drops paired quotes only behind NOTIFY=. */
  ghost predicate Ordinary(line: string)
  {
    Regular(line) && Plain(line, USER) && Plain(line, PASSWORD) && PlainRemark(Cleared(line))
  }

  ghost predicate AllClean(ls: seq<string>) { forall i :: 0 <= i < |ls| ==> Clean(ls[i]) }

  ghost predicate AllPlain(ls: seq<string>) { forall i :: 0 <= i < |ls| ==> PlainRemark(ls[i]) }

  lemma LineStepClean(line: string, user: string, replaced: bool, present: bool, last: bool)
    requires Simple(user) && PlainRemark(line) && Clean(line)
    ensures var s := LineStep(line, user, replaced, present, last);
            s.Step? ==> Clean(s.line) && AllClean(s.moved) && |s.moved| <= 1
  {
    hide Lacks, Notify, Continuation, PlainRemark, KeywordOk;
    KeywordsOk();
    NotifyLacks(line, user, replaced, USER);
    NotifyLacks(line, user, replaced, PASSWORD);
    var n := Notify(line, user, replaced);
    var noted := if n.Rewritten? then n.line else line;
    ContinuationLacks(noted, ROOM, USER);
    ContinuationLacks(noted, ROOM, PASSWORD);
  }

  lemma {:induction false} CardedClean(ls: seq<string>, user: string, replaced: bool, present: bool)
    requires ls != [] && Simple(user) && AllPlain(ls) && AllClean(ls)
    ensures var c := Carded(ls, user, replaced, present); c.Card? ==> AllClean(c.lines) && AllClean(c.moved)
    decreases |ls|
  {
    hide LineStep, Clean, PlainRemark, Simple;
    LineStepClean(ls[0], user, replaced, present, |ls| == 1);
    var s := LineStep(ls[0], user, replaced, present, |ls| == 1);
    if s.Step? && |ls| > 1 {
      CardedClean(ls[1..], user, s.replaced, s.present);
    }
  }

  lemma ClearedClean(line: string, continuation: bool)
    requires Ordinary(line)
    ensures Clean(CardLine(line, continuation)) && PlainRemark(CardLine(line, continuation))
  {
    hide Hit, Cleared, Regular, Plain, Find, OperandsEmpty, PlainRemark;
    NoCredentialLeft(line);
    LacksIsNotFound(Cleared(line), USER);
    LacksIsNotFound(Cleared(line), PASSWORD);
    BlankPlain();
  }

  lemma BlankPlain()
    ensures PlainRemark("")
  {
  }

  /**
   * Of ordinary lines, whatever credentials they carried, none is left on the
   * rewritten card nor on the one its last operand moved to.
   */
  lemma CardHasNoCredentials(ls: seq<string>, user: string)
    requires ls != [] && Simple(user) && forall i :: 0 <= i < |ls| ==> Ordinary(ls[i])
    ensures var c := Carded(ClearedCard(ls), user, false, false);
            c.Card? ==>
              && (forall l :: l in c.lines + c.moved ==> Find(l, USER).None? && Find(l, PASSWORD).None?)
  {
    hide CardLine, Ordinary, Carded, Find, PlainRemark, Lacks;
    var cleared := ClearedCard(ls);
    forall i | 0 <= i < |ls|
      ensures Clean(cleared[i]) && PlainRemark(cleared[i])
    {
      ClearedClean(ls[i], i > 0);
    }
    CardedClean(cleared, user, false, false);
    var c := Carded(cleared, user, false, false);
    if c.Card? {
      forall l | l in c.lines + c.moved
        ensures Find(l, USER).None? && Find(l, PASSWORD).None?
      {
        assert Clean(l);
        LacksIsNotFound(l, USER);
        LacksIsNotFound(l, PASSWORD);
      }
    }
  }

  // --- the card with the caller's credentials ----------------------------------------------------

  lemma {:induction false} BlanksOps(b: string)
    requires forall i :: 0 <= i < |b| ==> b[i] == ' '
    ensures Ops(b) == [] && !After(false, b)
    decreases |b|
  {
    hide Ops;
    NoQuotes(false, b);
    if b == "" {
      OpsOfNothing();
    } else {
      BlanksOps(b[1..]);
      assert b == [' '] + b[1..];
      OpsBehind(' ', b[1..]);
    }
  }

  lemma SimpleOp(name: string, value: string)
    requires name != "" && Simple(name) && Simple(value) && name[0] != '='
    ensures WordOk(name + "=" + value)
  {
    var w := name + "=" + value;
    assert w[0] == name[0];
    SimpleWord(w);
  }

  const SLASHES := "//"
  const GAP := "         "

  lemma IndentParts()
    ensures SLASHES + GAP == INDENT && WordOk(SLASHES) && (forall i :: 0 <= i < |GAP| ==> GAP[i] == ' ')
  {
    SimpleWord(SLASHES);
    hide WordOk;
  }

  lemma IndentOps()
    ensures Ops(INDENT) == ["//"]
  {
    IndentParts();
    BlanksOps(GAP);
    GapOps(SLASHES, GAP);
  }

  lemma GapOps(w: string, gap: string)
    requires WordOk(w) && gap != "" && gap[0] == ' ' && Ops(gap) == []
    ensures Ops(w + gap) == [w]
  {
    Paired(w);
    hide Ops, After, WordOk;
    OpsSum(w, gap);
    WordOps(w);
  }

  lemma LastWordOps(a: string, w: string)
    requires Ended(a) && WordOk(w)
    ensures Ops(a + w) == Ops(a) + [w] && !After(false, a + w)
  {
    hide Ops, After;
    OpsSum(a, w);
    WordOps(w);
    assert !After(false, w) by { Paired(w); }
    AfterSum(false, a, w);
  }

  const LONG_REMARK := "   GENERATED BY MVSMF"
  const SHORT_REMARK := "   BY MVSMF"

  const GENERATED := "GENERATED"
  const BY := "BY"
  const MVSMF := "MVSMF"

  lemma RemarkWords()
    ensures WordOk(GENERATED) && WordOk(BY) && WordOk(MVSMF)
  {
    SimpleWord(GENERATED);
    SimpleWord(BY);
    SimpleWord(MVSMF);
    hide WordOk;
  }

  lemma RemarkParts()
    ensures LONG_REMARK == "   " + (GENERATED + " " + (BY + " " + MVSMF)) && SHORT_REMARK == "   " + (BY + " " + MVSMF)
  {
  }

  lemma RemarkOps()
    ensures Ops(LONG_REMARK) == [GENERATED] + ([BY] + [MVSMF]) && Ops(SHORT_REMARK) == [BY] + [MVSMF]
  {
    RemarkWords();
    RemarkParts();
    hide Ops, WordOk, Ended, LONG_REMARK, SHORT_REMARK, GENERATED, BY, MVSMF;
    BehindBlank(GENERATED);
    BehindBlank(BY);
    LastWordOps(BY + " ", MVSMF);
    FrontOps(GENERATED + " ", BY + " " + MVSMF);
    ThreeBlanks(GENERATED + " " + (BY + " " + MVSMF));
    ThreeBlanks(BY + " " + MVSMF);
  }

  lemma FrontOps(a: string, b: string)
    requires Ended(a)
    ensures a != "" ==> Ops(a + b) == Ops(a) + Ops(b)
  {
    hide Ops, After;
    if a != "" {
      OpsSum(a, b);
    }
  }

  lemma ThreeBlanks(s: string)
    ensures Ops("   " + s) == Ops(s)
  {
    hide Ops;
    OpsBehind(' ', s);
    OpsBehind(' ', " " + s);
    OpsBehind(' ', "  " + s);
    assert [' '] + s == " " + s && [' '] + (" " + s) == "  " + s && [' '] + ("  " + s) == "   " + s;
  }

  /** The operands mvsMF adds, one by one. */
  function Added(present: bool, user: string, password: string): seq<string>
  {
    (if present then [] else [NOTIFY + "=" + PLACEHOLDER]) + [USER + "=" + user, PASSWORD + "=" + password]
  }

  /** The card up to its userid. */
  function Head(present: bool): string { if present then INDENT else INDENT + (NOTIFY + "=" + PLACEHOLDER) + "," }

  lemma NotifyWord()
    ensures WordOk(NOTIFY + "=" + PLACEHOLDER)
  {
    SimpleOp(NOTIFY, PLACEHOLDER);
    hide WordOk;
  }

  lemma HeadOps(present: bool)
    ensures Ended(Head(present))
    ensures Ops(Head(present)) == ["//"] + if present then [] else [NOTIFY + "=" + PLACEHOLDER]
  {
    IndentOps();
    IndentEnded();
    NotifyWord();
    hide Ops, WordOk, Ended, INDENT, NOTIFY, PLACEHOLDER;
    OneMore(INDENT, NOTIFY + "=" + PLACEHOLDER);
  }

  lemma TailOps(h: string, u: string, p: string)
    requires Ended(h) && WordOk(u) && WordOk(p)
    ensures Ops(h + u + "," + p) == Ops(h) + [u, p] && !After(false, h + u + "," + p)
  {
    hide Ops, After, WordOk, Ended;
    OneMore(h, u);
    LastWordOps(h + u + ",", p);
    assert Ops(h) + [u] + [p] == Ops(h) + [u, p];
  }

  lemma OperandsOps(present: bool, user: string, password: string)
    requires Simple(user) && Simple(password)
    ensures var text := INDENT + Operands(present, user, password);
            Ops(text) == ["//"] + Added(present, user, password) && !After(false, text)
  {
    SimpleOp(USER, user);
    SimpleOp(PASSWORD, password);
    HeadOps(present);
    OperandsText(present, user, password);
    hide Ops, After, WordOk, Ended, Head, Operands;
    TailOps(Head(present), USER + "=" + user, PASSWORD + "=" + password);
    assert ["//"] + (if present then [] else [NOTIFY + "=" + PLACEHOLDER])
           + [USER + "=" + user, PASSWORD + "=" + password]
        == ["//"] + Added(present, user, password);
  }

  lemma Grouped(a: string, n: string, x: string, u: string, c: string, z: string, p: string)
    ensures a + (n + x + u + (c + z) + p) == (a + n) + (x + u) + c + (z + p)
  {
  }

  lemma OperandsText(present: bool, user: string, password: string)
    ensures INDENT + Operands(present, user, password)
            == Head(present) + (USER + "=" + user) + "," + (PASSWORD + "=" + password)
  {
    var n := if present then "" else NOTIFY + "=" + PLACEHOLDER + ",";
    LiteralNames();
    assert INDENT + n == Head(present) by { HeadText(present); }
    Grouped(INDENT, n, "USER=", user, ",", "PASSWORD=", password);
  }

  lemma LiteralNames()
    ensures "USER=" == USER + "=" && "PASSWORD=" == PASSWORD + "=" && ",PASSWORD=" == "," + "PASSWORD="
  {
  }

  lemma HeadText(present: bool)
    ensures INDENT + (if present then "" else NOTIFY + "=" + PLACEHOLDER + ",") == Head(present)
  {
    var n := NOTIFY + "=" + PLACEHOLDER;
    hide INDENT, NOTIFY, PLACEHOLDER;
    assert INDENT + "" == INDENT;
    assert INDENT + (n + ",") == INDENT + n + ",";
  }

  /** The added card's operands are the caller's userid and password, and the notification if there was none. */
  lemma InjectedOps(present: bool, user: string, password: string)
    requires Simple(user) && Simple(password) && Injected(present, user, password).Some?
    ensures var ops := Ops(Injected(present, user, password).value);
            || ops == ["//"] + Added(present, user, password) + ([GENERATED] + ([BY] + [MVSMF]))
            || ops == ["//"] + Added(present, user, password) + ([BY] + [MVSMF])
  {
    OperandsOps(present, user, password);
    RemarkOps();
    hide Ops, After, Operands, Added, Simple;
    var text := INDENT + Operands(present, user, password);
    OpsSum(text, LONG_REMARK);
    OpsSum(text, SHORT_REMARK);
  }

  /**
   * In what is submitted the card of ordinary lines carries no credential but the
   * caller's, which are operands of the line behind it.
   */
  lemma OnlyCallersCredentials(ls: seq<string>, start: nat, end: nat, user: string, password: string)
    requires start <= end < |ls| && Simple(user) && Simple(password)
    requires forall i :: start <= i <= end ==> Ordinary(ls[i])
    ensures var c := Carded(ClearedCard(ls[start..end + 1]), user, false, false);
            c.Card? && Injected(c.present, user, password).Some? ==>
              var text := Submitted(ls, start, end, c, Injected(c.present, user, password).value);
              var k := start + |c.lines| + |c.moved|;
              && k < |text| && Added(c.present, user, password) <= Ops(text[k])[1..]
              && (forall i :: start <= i < k ==> Find(text[i], USER).None? && Find(text[i], PASSWORD).None?)
  {
    hide Ordinary, Carded, Find, Injected, Added, Ops, Simple, ClearedCard;
    var card := ls[start..end + 1];
    assert forall i :: 0 <= i < |card| ==> card[i] == ls[start + i];
    CardHasNoCredentials(card, user);
    var c := Carded(ClearedCard(card), user, false, false);
    if c.Card? && Injected(c.present, user, password).Some? {
      InjectedAdds(c.present, user, password);
      var text := Submitted(ls, start, end, c, Injected(c.present, user, password).value);
      var k := start + |c.lines| + |c.moved|;
      forall i | start <= i < k
        ensures Find(text[i], USER).None? && Find(text[i], PASSWORD).None?
      {
        SubmittedAt(ls, start, end, c, Injected(c.present, user, password).value, i);
        assert text[i] in c.lines + c.moved;
      }
    }
  }

  lemma SubmittedAt(ls: seq<string>, start: nat, end: nat, c: Card, injected: string, i: nat)
    requires start <= end < |ls| && c.Card? && start <= i < start + |c.lines| + |c.moved|
    ensures Submitted(ls, start, end, c, injected)[i] == (c.lines + c.moved)[i - start]
  {
  }

  lemma InjectedAdds(present: bool, user: string, password: string)
    requires Simple(user) && Simple(password) && Injected(present, user, password).Some?
    ensures var ops := Ops(Injected(present, user, password).value);
            |ops| > 0 && Added(present, user, password) <= ops[1..]
  {
    hide Ops, Injected, Added, Simple;
    InjectedOps(present, user, password);
    var ops, added := Ops(Injected(present, user, password).value), Added(present, user, password);
    assert ["//"] + added + ([GENERATED] + ([BY] + [MVSMF])) == ["//"] + (added + ([GENERATED] + ([BY] + [MVSMF])));
    assert ["//"] + added + ([BY] + [MVSMF]) == ["//"] + (added + ([BY] + [MVSMF]));
  }

  // --- what an apostrophe in a remark does --------------------------------------------------------

  const QUOTED_REMARK := "NOTIFY=&SYSUID 'A USER=X'"
  const EXPOSED := "NOTIFY=U,USER=X'"

  const AFTER_SYSUID := " 'A USER=X'"

  lemma QuotedRemarkParts()
    ensures SysuidLine("", AFTER_SYSUID) == QUOTED_REMARK && " " + "'A" + " USER=X'" == AFTER_SYSUID
    ensures " USER=X'"[1..] == "USER=X'" && "," + "USER=X'" == ",USER=X'"
    ensures "" + NOTIFY + "=" + "U" + ",USER=X'" == EXPOSED
  {
  }

  lemma QuotedRemarkKept()
    ensures Remainder(AFTER_SYSUID) == ",USER=X'"
  {
    QuotedRemarkParts();
    BlanksEndIs(" USER=X'", 0, 1);
    TrimNothing(",USER=X'");
    hide TrimRight, BlanksEnd, Remainder, AFTER_SYSUID;
    RemainderForms(" ", "'A", " USER=X'");
  }

  lemma QuotedRemarkFound()
    ensures Find(QUOTED_REMARK, NOTIFY) == Some(0)
  {
    Unquoted(QUOTED_REMARK, 0);
    assert QUOTED_REMARK[0..6] == NOTIFY && BlanksEnd(QUOTED_REMARK, 6) == 6;
    FindIs(QUOTED_REMARK, NOTIFY, 0, 0);
  }

  lemma QuotedRemarkHides()
    ensures Find(QUOTED_REMARK, USER).None?
  {
    forall i | 0 <= i < |QUOTED_REMARK|
      ensures !Hit(QUOTED_REMARK, USER, i)
    {
      if i + 4 <= |QUOTED_REMARK| && QUOTED_REMARK[i..i + 4] == USER {
        assert QUOTED_REMARK[i..i + 4][0] == QUOTED_REMARK[i] && QUOTED_REMARK[i..i + 4][1] == QUOTED_REMARK[i + 1];
        assert i == 18;
        OneQuote(QUOTED_REMARK, 15, 18);
      }
    }
    hide Hit;
    FindNot(QUOTED_REMARK, USER, 0);
  }

  lemma ExposedFound()
    ensures Find(EXPOSED, USER) == Some(9)
  {
    forall i | 0 <= i < 9
      ensures !Hit(EXPOSED, USER, i)
    {
      var t := EXPOSED[i..i + 4];
      assert t[0] == EXPOSED[i] && t[1] == EXPOSED[i + 1];
      assert EXPOSED[i] == 'U' ==> i == 7;
      assert EXPOSED[8] == ',';
      assert t[0] != 'U' || t[1] != 'S';
      assert t != USER;
    }
    ExposedHit();
    hide Hit;
    FindIs(EXPOSED, USER, 0, 9);
  }

  lemma ExposedHit()
    ensures Hit(EXPOSED, USER, 9)
  {
    ExposedPlaces();
    hide EXPOSED, BlanksEnd, After;
  }

  lemma ExposedPlaces()
    ensures |EXPOSED| == 16 && EXPOSED[9..13] == USER && EXPOSED[8] == ',' && EXPOSED[9] == 'U' && EXPOSED[13] == '='
    ensures !After(false, EXPOSED[..9]) && BlanksEnd(EXPOSED, 13) == 13
  {
    Unquoted(EXPOSED, 9);
    BlanksEndIs(EXPOSED, 13, 13);
    hide After, BlanksEnd;
  }

  lemma SysuidPlace()
    ensures SysuidEnd(QUOTED_REMARK) == Some(14) && QUOTED_REMARK[14..] == AFTER_SYSUID
  {
    QuotedRemarkFound();
    FoundHasEqual(QUOTED_REMARK, NOTIFY);
    SysuidChars();
    hide Find, FirstEqual, BlanksEnd, QUOTED_REMARK;
  }

  lemma SysuidChars()
    ensures |QUOTED_REMARK| == 25 && FirstEqual(QUOTED_REMARK, 0) == 6 && BlanksEnd(QUOTED_REMARK, 7) == 7
    ensures QUOTED_REMARK[7..14] == SYSUID && QUOTED_REMARK[14..] == AFTER_SYSUID
  {
    FirstEqualIs(QUOTED_REMARK, 0, 6);
    BlanksEndIs(QUOTED_REMARK, 7, 7);
    hide FirstEqual, BlanksEnd;
  }

  lemma DroppedWord()
    ensures WordEnd(AFTER_SYSUID) == 3 && After(false, QUOTED_REMARK[0..17])
  {
    WordEndIs(AFTER_SYSUID, 1, 3);
    OneQuote(QUOTED_REMARK, 15, 17);
    assert QUOTED_REMARK[0..17] == QUOTED_REMARK[..17];
  }

  lemma QuotedRemarkNotPlain()
    ensures !PlainRemark(QUOTED_REMARK)
  {
    QuotedRemarkFound();
    SysuidPlace();
    DroppedWord();
    hide Find, WordEnd, SysuidEnd, After;
  }

  /** A quoted remark behind NOTIFY=&SYSUID: the word dropped takes a quote with it, and an operand comes to light. */
  lemma QuotedRemarkWitness()
    ensures Find(QUOTED_REMARK, USER).None? && Notify(QUOTED_REMARK, "U", false) == Rewritten(EXPOSED)
    ensures Find(EXPOSED, USER) == Some(9) && !PlainRemark(QUOTED_REMARK)
  {
    hide Find, Notify, Remainder, PlainRemark, SysuidLine;
    QuotedRemarkParts();
    QuotedRemarkHides();
    ExposedFound();
    QuotedRemarkNotPlain();
    QuotedRemarkFound();
    QuotedRemarkKept();
    NotifyInPlace("", AFTER_SYSUID, "U");
  }
}
