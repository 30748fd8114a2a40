// The JOB card of a submitted job: finding it and rewriting it in place, src/jobsapi.c.
module SubmitCard {
  import opened Texts
  import opened Wrappers
  import opened JobCard

  const NO_CARD := -1
  const TOO_LONG := -2
  const WIDTH := 72

  predicate IsSpace(c: char) { c == ' ' || 9 as char <= c <= 13 as char }

  // --- the card's place in the lines ---------------------------------------------------------

  function BlankFrom(s: string, p: nat): (q: nat)
    requires p <= |s|
    ensures p <= q <= |s| && (forall k :: p <= k < q ==> s[k] != ' ') && (q < |s| ==> s[q] == ' ')
    decreases |s| - p
  {
    if p < |s| && s[p] != ' ' then BlankFrom(s, p + 1) else p
  }

  function SpaceTrimmed(s: string): (t: string)
    ensures t <= s
  {
    if s != "" && IsSpace(s[|s| - 1]) then SpaceTrimmed(s[..|s| - 1]) else s
  }

  /** get_operation(): at most four characters behind a name of at most eight. */
  function Operation(line: string): string
  {
    if |line| < 3 then "" else
    var op := BlanksEnd(line, Least(BlankFrom(line, 2), 10));
    SpaceTrimmed(line[op..Least(BlankFrom(line, op), op + 4)])
  }

  predicate IsJcl(line: string) { "//" <= line }

  predicate IsJob(line: string) { |line| >= 3 && IsJcl(line) && Operation(line) == "JOB" }

  ghost predicate NoBlank(s: string) { forall i :: 0 <= i < |s| ==> s[i] != ' ' }

  ghost predicate OnlyBlanks(s: string) { forall i :: 0 <= i < |s| ==> s[i] == ' ' }

  /** A word of one to four characters, none of them a space. */
  ghost predicate ShortWord(w: string) { 0 < |w| <= 4 && forall i :: 0 <= i < |w| ==> !IsSpace(w[i]) }

  /**
   * The line is a statement with this name, blanks behind it, this operation, and what
   * follows. Behind a name of eight characters no blank is needed, nor behind an
   * operation of four.
   */
  ghost predicate Reads(line: string, name: string, blanks: string, op: string, rest: string)
  {
    && line == "//" + (name + (blanks + (op + rest)))
    && |name| <= 8 && NoBlank(name) && (blanks != "" || |name| == 8) && OnlyBlanks(blanks)
    && ShortWord(op) && (rest == "" || rest[0] == ' ' || |op| == 4)
  }

  /** A statement's operation is read behind its name. */
  lemma OperationRead(line: string, name: string, blanks: string, op: string, rest: string)
    requires Reads(line, name, blanks, op, rest)
    ensures Operation(line) == op && JobName(line) == name
  {
    StatementParts(line, name, blanks, op, rest);
    hide Reads;
    var p, q := 2 + |name|, 2 + |name| + |blanks|;
    SkippedTo(line, p, q);
    hide BlankFrom, BlanksEnd, SpaceTrimmed, Operation, JobName;
    NameEnds(line, p, q);
    OperationEnds(line, q, |op|);
    Untrimmed(op);
    OperationAt(line, p, q, |op|);
  }

  lemma OperationAt(line: string, p: nat, q: nat, n: nat)
    requires 2 <= p <= q && q + n <= |line| && n > 0
    requires Least(BlankFrom(line, 2), 10) == p && BlanksEnd(line, p) == q
    requires Least(BlankFrom(line, q), q + 4) == q + n
    ensures Operation(line) == SpaceTrimmed(line[q..q + n]) && JobName(line) == line[2..p]
  {
    hide BlankFrom, BlanksEnd, SpaceTrimmed, Least;
  }

  lemma OperationEnds(line: string, q: nat, n: nat)
    requires q + n <= |line| && n <= 4 && (forall i :: q <= i < q + n ==> line[i] != ' ')
    requires n < 4 && q + n < |line| ==> line[q + n] == ' '
    ensures Least(BlankFrom(line, q), q + 4) == q + n
  {
    var r := BlankFrom(line, q);
    hide BlankFrom;
    assert r >= q + n;
  }

  lemma NameEnds(line: string, p: nat, q: nat)
    requires 2 <= p <= 10 && p <= q < |line| && (p == q ==> p == 10)
    requires (forall i :: 2 <= i < p ==> line[i] != ' ') && (p < q ==> line[p] == ' ')
    ensures Least(BlankFrom(line, 2), 10) == p
  {
    var r := BlankFrom(line, 2);
    hide BlankFrom;
    assert r >= p;
  }

  lemma StatementParts(line: string, name: string, blanks: string, op: string, rest: string)
    requires Reads(line, name, blanks, op, rest)
    ensures var p, q := 2 + |name|, 2 + |name| + |blanks|;
            && p <= 10 && (p == q ==> p == 10) && ShortWord(op) && 0 < |op| <= 4
            && q + |op| <= |line| && line[2..p] == name && line[q..q + |op|] == op
            && (forall i :: 2 <= i < p ==> line[i] != ' ') && (forall i :: p <= i < q ==> line[i] == ' ')
            && (forall i :: q <= i < q + |op| ==> line[i] != ' ')
            && (q + |op| < |line| ==> line[q + |op|] == ' ' || |op| == 4)
  {
    var p, q := 2 + |name|, 2 + |name| + |blanks|;
    assert forall i :: 2 <= i < p ==> line[i] == name[i - 2];
    assert forall i :: p <= i < q ==> line[i] == blanks[i - p];
    assert forall i :: q <= i < q + |op| ==> line[i] == op[i - q];
  }

  lemma {:induction false} SkippedTo(s: string, p: nat, q: nat)
    requires p <= q < |s| && (forall k :: p <= k < q ==> s[k] == ' ') && s[q] != ' '
    ensures BlanksEnd(s, p) == q
    decreases q - p
  {
    if p < q {
      SkippedTo(s, p + 1, q);
    }
  }

  lemma Untrimmed(w: string)
    requires ShortWord(w)
    ensures SpaceTrimmed(w) == w
  {
  }

  /** A statement is a JOB statement exactly if its operation is JOB. */
  lemma JobExactly(line: string, name: string, blanks: string, op: string, rest: string)
    requires Reads(line, name, blanks, op, rest)
    ensures IsJob(line) <==> op == "JOB"
  {
    OperationRead(line, name, blanks, op, rest);
    hide Operation;
    assert line[..2] == "//";
  }

  /** The line is a JOB statement with a name of up to eight characters. */
  ghost predicate IsJobLine(line: string)
  {
    exists name, blanks, rest :: Reads(line, name, blanks, "JOB", rest)
  }

  lemma JobLinesAreJobs(ls: seq<string>)
    ensures forall k :: 0 <= k < |ls| && IsJobLine(ls[k]) ==> IsJob(ls[k])
  {
    forall k | 0 <= k < |ls| && IsJobLine(ls[k])
      ensures IsJob(ls[k])
    {
      var name, blanks, rest :| Reads(ls[k], name, blanks, "JOB", rest);
      JobExactly(ls[k], name, blanks, "JOB", rest);
    }
  }

  /** The last character that is no space is a comma. */
  predicate AsksForMore(line: string)
  {
    var t := SpaceTrimmed(line);
    t != "" && t[|t| - 1] == ','
  }

  /** That is, whatever spaces stand behind it. */
  lemma {:induction false} CommaRead(front: string, c: char, spaces: string)
    requires !IsSpace(c) && forall i :: 0 <= i < |spaces| ==> IsSpace(spaces[i])
    ensures AsksForMore(front + [c] + spaces) <==> c == ','
    decreases |spaces|
  {
    var line := front + [c] + spaces;
    if spaces == "" {
      assert line == front + [c];
    } else {
      var less := spaces[..|spaces| - 1];
      assert line[..|line| - 1] == front + [c] + less;
      CommaRead(front, c, less);
    }
  }

  /** // and blanks up to column 10. */
  predicate IsContinuation(line: string)
  {
    IsJcl(line) && |line| >= 10 && forall k :: 2 <= k < 10 ==> IsSpace(line[k])
  }

  /** Two slashes and eight spaces, whatever follows. */
  lemma ContinuationExact(line: string)
    ensures IsContinuation(line) <==>
              |line| >= 10 && line[0] == '/' && line[1] == '/' && forall k :: 2 <= k < 10 ==> line[k] in SPACES
  {
    forall k | 0 <= k < |line|
      ensures IsSpace(line[k]) <==> line[k] in SPACES
    {
      SpacesSpelled(line[k]);
    }
    assert |line| >= 2 ==> line[..2] == [line[0], line[1]];
  }

  /** A blank, and the characters that move the print head. */
  const SPACES := " \t\n\r" + [11 as char, 12 as char]

  lemma SpacesSpelled(c: char)
    ensures IsSpace(c) <==> c in SPACES
  {
    assert c in SPACES <==> c in " \t\n\r" || c == 11 as char || c == 12 as char;
  }

  method CheckComma(line: string) returns (comma: bool)
    ensures comma <==> AsksForMore(line)
  {
    var k := |line|;
    assert line[..k] == line;
    while k > 0
      invariant 0 <= k <= |line| && SpaceTrimmed(line[..k]) == SpaceTrimmed(line)
    {
      if !IsSpace(line[k - 1]) {
        return line[k - 1] == ',';
      }
      assert line[..k][..k - 1] == line[..k - 1];
      k := k - 1;
    }
    return false;
  }

  method CheckContinuation(line: string) returns (yes: bool)
    ensures yes <==> IsContinuation(line)
  {
    if !IsJcl(line) {
      return false;
    }
    for k := 2 to 10
      invariant k > 2 ==> k <= |line|
      invariant forall j :: 2 <= j < k ==> IsSpace(line[j])
    {
      if k >= |line| || !IsSpace(line[k]) {
        return false;
      }
    }
    return true;
  }

  /** The card goes on behind line k. */
  predicate GoesOn(ls: seq<string>, k: nat)
  {
    k + 1 < |ls| && AsksForMore(ls[k]) && IsContinuation(ls[k + 1])
  }

  /** The card from start on: as long as a line ends in a comma and the next is a continuation. */
  ghost predicate IsCard(ls: seq<string>, start: nat, end: nat)
  {
    && start <= end < |ls| && IsJob(ls[start])
    && (forall k :: start <= k < end ==> GoesOn(ls, k)) && !GoesOn(ls, end)
  }

  /**
   * A JOB statement, the continuations behind it, and what follows: the card is the
   * statement and these, if each but the last asks for more and what follows does not go on.
   */
  lemma CardRead(front: seq<string>, card: seq<string>, behind: seq<string>)
    requires card != [] && IsJob(card[0])
    requires forall k :: 0 <= k < |card| - 1 ==> AsksForMore(card[k])
    requires forall k :: 0 < k < |card| ==> IsContinuation(card[k])
    requires behind == [] || !AsksForMore(card[|card| - 1]) || !IsContinuation(behind[0])
    ensures IsCard(front + card + behind, |front|, |front| + |card| - 1)
  {
    hide IsJob, AsksForMore, IsContinuation;
    var ls, n := front + card + behind, |front|;
    assert forall k :: n <= k < n + |card| ==> ls[k] == card[k - n];
    assert behind != [] ==> ls[n + |card|] == behind[0];
  }

  /** find_job_card_range(): the first JOB statement's. */
  method FindCard(lines: array<string>, count: nat) returns (start: int, end: int)
    requires count <= lines.Length
    ensures start == -1 <==> forall k :: 0 <= k < count ==> !IsJob(lines[k])
    ensures start == -1 ==> end == -1
    ensures start != -1 ==>
              0 <= start && 0 <= end && IsCard(lines[..count], start, end)
              && forall k :: 0 <= k < start ==> !IsJob(lines[k])
  {
    hide IsJob, AsksForMore, IsContinuation;
    for i := 0 to count
      invariant forall k :: 0 <= k < i ==> !IsJob(lines[k])
    {
      if !IsJob(lines[i]) {
        continue;
      }
      start, end := i, i;
      var j := i;
      while j < count
        invariant i <= j < count && end == j
        invariant forall k :: i <= k < j ==> GoesOn(lines[..count], k)
      {
        var comma := CheckComma(lines[j]);
        if !comma {
          return start, j;
        }
        j := j + 1;
        if j >= count {
          return start, j - 1;
        }
        var continues := CheckContinuation(lines[j]);
        if !continues {
          return start, j - 1;
        }
        end := j;
      }
      return;
    }
    return -1, -1;
  }

  // --- NOTIFY= -----------------------------------------------------------------------------------

  const NOTIFY := "NOTIFY"
  const SYSUID := "&SYSUID"
  const PLACEHOLDER := "$MVSMF"

  /** What becomes of a line: no NOTIFY=, one left as it is, or one rewritten. */
  datatype Notified = Absent | Present | Rewritten(line: string) | Overlong

  predicate StartsAt(s: string, p: nat, w: string) { p + |w| <= |s| && s[p..p + |w|] == w }

  /** Behind the operand: blanks, and the rest of the word that follows. */
  function WordEnd(behind: string): (e: nat)
    ensures e <= |behind| && (e < |behind| ==> Sep(behind[e]))
  {
    FirstSep(behind, BlanksEnd(behind, 0))
  }

  /** What is kept of the text behind the operand: from a comma on, or a comma and the text from the next word on. */
  function Remainder(behind: string): string
  {
    var end := WordEnd(behind);
    if CharAt(behind, end) == ',' then TrimRight(behind[end..]) else
    var more := BlanksEnd(behind, end);
    if more < |behind| then TrimRight("," + behind[more..]) else ""
  }

  /** The rewriting of NOTIFY=&SYSUID in one line. */
  function Notify(line: string, user: string, replaced: bool): Notified
  {
    var hit := Find(line, NOTIFY);
    if hit.None? then Absent else
    FoundHasEqual(line, NOTIFY);
    EqualInside(line, hit.value);
    var value := BlanksEnd(line, FirstEqual(line, hit.value) + 1);
    if replaced || !StartsAt(line, value, SYSUID) then Present else
    var text := line[..hit.value] + NOTIFY + "=" + user + Remainder(line[value + |SYSUID|..]);
    if |text| >= WIDTH then Overlong else Rewritten(text)
  }

  lemma EqualInside(line: string, p: nat)
    requires p < |line| && '=' in line[p..]
    ensures FirstEqual(line, p) < |line|
  {
    var k :| 0 <= k < |line[p..]| && line[p..][k] == '=';
    assert line[p + k] == '=';
  }

  function SysuidLine(front: string, behind: string): string { front + (NOTIFY + "=" + SYSUID) + behind }

  lemma NotifyPlaces(front: string, behind: string)
    ensures var line, p := SysuidLine(front, behind), |front|;
            && |line| == p + 14 + |behind| && line[..p] == front && line[p + 14..] == behind
            && line[p + 6] == '=' && line[p + 7] == '&' && line[p + 7..p + 14] == SYSUID
            && forall i :: p <= i < p + 6 ==> line[i] == NOTIFY[i - p]
  {
    var line, p, middle := SysuidLine(front, behind), |front|, NOTIFY + "=" + SYSUID;
    assert |middle| == 14 && middle[6] == '=' && middle[7..14] == SYSUID;
    assert forall i :: p <= i < p + 14 ==> line[i] == middle[i - p];
    assert forall i :: 0 <= i < 6 ==> middle[i] == NOTIFY[i];
    assert line[p + 7] == middle[7] == SYSUID[0];
    assert line[p + 7..p + 14] == middle[7..14];
  }

  /** The operand is replaced where it stands, and the text in front is untouched, whatever follows. */
  lemma NotifyInPlace(front: string, behind: string, user: string)
    requires Find(SysuidLine(front, behind), NOTIFY) == Some(|front|)
    ensures var text := front + NOTIFY + "=" + user + Remainder(behind);
            Notify(SysuidLine(front, behind), user, false) == if |text| >= WIDTH then Overlong else Rewritten(text)
  {
    hide Find, Remainder, SysuidLine;
    var line, p := SysuidLine(front, behind), |front|;
    FoundHasEqual(line, NOTIFY);
    NotifyPlaces(front, behind);
    NoEqualInName();
    FirstEqualIs(line, p, p + 6);
    assert BlanksEnd(line, p + 7) == p + 7;
  }

  /** Nothing, blanks, or a comma with or without blanks in front. */
  predicate OperandEnds(behind: string)
  {
    var k := BlanksEnd(behind, 0);
    k == |behind| || behind[k] == ','
  }

  /** The text behind the operand, blanks aside. */
  function Kept(behind: string): string { TrimRight(behind[BlanksEnd(behind, 0)..]) }

  lemma {:induction false} TrimKeeps(w: string, s: string)
    requires s != "" && TrimRight(s) != ""
    ensures TrimRight(w + s) == w + TrimRight(s)
    decreases |s|
  {
    var t := w + s;
    assert t[|t| - 1] == s[|s| - 1];
    if s[|s| - 1] == ' ' {
      assert t[..|t| - 1] == w + s[..|s| - 1];
      TrimKeeps(w, s[..|s| - 1]);
    }
  }

  lemma {:induction false} TrimLength(s: string, i: nat)
    requires i < |s| && s[i] != ' '
    ensures |TrimRight(s)| > i
    decreases |s|
  {
    if s[|s| - 1] == ' ' {
      TrimLength(s[..|s| - 1], i);
    }
  }

  lemma {:induction false} TrimBlanks(s: string)
    requires forall i :: 0 <= i < |s| ==> s[i] == ' '
    ensures TrimRight(s) == ""
    decreases |s|
  {
    if s != "" {
      TrimBlanks(s[..|s| - 1]);
    }
  }

  /** The text behind is kept exactly if nothing but a comma ends the operand: any other word is lost. */
  lemma RemainderExact(behind: string)
    ensures Remainder(behind) == Kept(behind) <==> OperandEnds(behind)
  {
    var k, e := BlanksEnd(behind, 0), WordEnd(behind);
    var rest := behind[k..];
    if k == |behind| {
      assert TrimRight("") == "";
    } else if behind[k] != ',' {
      WordLost(behind, k, e);
    }
  }

  lemma SuffixSplits(s: string, k: nat, m: nat)
    requires k <= m <= |s|
    ensures s[k..] == s[k..m] + s[m..]
  {
  }

  /** A word that follows the operand is lost, and its length tells. */
  lemma WordLost(behind: string, k: nat, e: nat)
    requires k == BlanksEnd(behind, 0) < |behind| && behind[k] != ',' && e == WordEnd(behind)
    ensures |Remainder(behind)| < |Kept(behind)|
  {
    hide TrimRight, BlanksEnd, FirstSep;
    assert behind[k] != ' ' by { BlanksStop(behind, 0); }
    assert k < e by { SepBehind(behind, k); }
    var m := BlanksEnd(behind, e);
    if CharAt(behind, e) == ',' {
      SuffixSplits(behind, k, e);
      TrimLength(behind[e..], 0);
      TrimKeeps(behind[k..e], behind[e..]);
    } else if m < |behind| {
      BlanksStop(behind, e);
      SuffixSplits(behind, k, m);
      TrimLength(behind[m..], 0);
      TrimKeeps(behind[k..m], behind[m..]);
      TrimKeeps(",", behind[m..]);
      assert m > e;
    } else {
      TrimLength(behind[k..], 0);
    }
  }

  lemma BlanksStop(s: string, p: nat)
    requires p <= |s|
    ensures var q := BlanksEnd(s, p); p <= q <= |s| && (q < |s| ==> s[q] != ' ')
    ensures p < |s| && s[p] == ' ' ==> BlanksEnd(s, p) > p
  {
  }

  lemma SepBehind(s: string, p: nat)
    requires p < |s| && !Sep(s[p])
    ensures FirstSep(s, p) > p
  {
  }

  lemma WordEndIs(b: string, k: nat, e: nat)
    requires k <= e <= |b| && (forall i :: 0 <= i < k ==> b[i] == ' ') && (forall i :: k <= i < e ==> !Sep(b[i]))
    requires (e < |b| ==> Sep(b[e])) && CharAt(b, k) != ' '
    ensures WordEnd(b) == e
  {
    BlanksEndIs(b, 0, k);
    FirstSepIs(b, k, e);
  }

  /** Behind the word: nothing, a comma, or blanks and more. */
  function Form(rest: string): string
  {
    if rest == "" then "" else if rest[0] == ',' then TrimRight(rest) else
    if BlanksEnd(rest, 0) == |rest| then "" else TrimRight("," + rest[BlanksEnd(rest, 0)..])
  }

  lemma BlanksShift(b: string, e: nat)
    requires e <= |b|
    ensures BlanksEnd(b, e) == e + BlanksEnd(b[e..], 0)
  {
    var rest, m := b[e..], BlanksEnd(b[e..], 0);
    assert forall i :: e <= i < |b| ==> b[i] == rest[i - e];
    BlanksEndIs(b, e, e + m);
  }

  lemma SuffixOf(b: string, e: nat, m: nat)
    requires e + m <= |b|
    ensures b[e + m..] == b[e..][m..] && (e < |b| ==> b[e..][0] == b[e])
  {
  }

  lemma RemainderBehind(b: string, e: nat)
    requires e <= |b| && WordEnd(b) == e
    ensures Remainder(b) == Form(b[e..])
  {
    hide TrimRight, WordEnd, BlanksEnd;
    if e < |b| {
      SuffixOf(b, e, 0);
      if b[e] != ',' {
        BlankBehind(b, e);
      }
    } else {
      assert b[e..] == "";
      BlanksStop(b, e);
    }
  }

  /** Behind a blank: the next word, or nothing. */
  lemma BlankBehind(b: string, e: nat)
    requires e < |b| && WordEnd(b) == e && b[e] != ','
    ensures Remainder(b) == Form(b[e..])
  {
    hide TrimRight, WordEnd, BlanksEnd;
    BlanksShift(b, e);
    BlanksStop(b[e..], 0);
    SuffixOf(b, e, BlanksEnd(b[e..], 0));
  }

  /** The forms it takes: blanks only, a comma, and a word that is lost. */
  lemma RemainderForms(blanks: string, word: string, rest: string)
    requires (forall i :: 0 <= i < |blanks| ==> blanks[i] == ' ') && (forall i :: 0 <= i < |word| ==> !Sep(word[i]))
    requires rest == "" || Sep(rest[0])
    requires word == "" ==> rest == "" || rest[0] == ','
    ensures Remainder(blanks + word + rest) == Form(rest)
  {
    hide Form, WordEnd, Remainder;
    var b, k, e := blanks + word + rest, |blanks|, |blanks| + |word|;
    assert b[e..] == rest;
    assert forall i :: 0 <= i < k ==> b[i] == blanks[i];
    assert forall i :: k <= i < e ==> b[i] == word[i - k];
    assert rest != "" ==> b[e] == rest[0];
    assert word != "" ==> b[k] == word[0];
    WordEndIs(b, k, e);
    RemainderBehind(b, e);
  }

  lemma BlanksEndIs(s: string, p: nat, q: nat)
    requires p <= q <= |s| && CharAt(s, q) != ' ' && forall i :: p <= i < q ==> s[i] == ' '
    ensures BlanksEnd(s, p) == q
  {
  }

  lemma TrimNothing(s: string)
    requires s != "" && s[|s| - 1] != ' '
    ensures TrimRight(s) == s
  {
  }

  const REMARK := " MY JOB"

  lemma RemarkParts()
    ensures " " + "MY" + " JOB" == REMARK && REMARK[1..] == "MY JOB" && "," + " JOB"[1..] == ",JOB"
    ensures BlanksEnd(" JOB", 0) == 1 && BlanksEnd(REMARK, 0) == 1
  {
    BlanksEndIs(" JOB", 0, 1);
    BlanksEndIs(REMARK, 0, 1);
  }

  lemma JobForm()
    ensures Form(" JOB") == ",JOB"
  {
    hide TrimRight, BlanksEnd;
    RemarkParts();
    TrimNothing(",JOB");
  }

  /** A remark behind the operand: its first word is lost, and the next becomes an operand. */
  lemma RemarkWitness()
    ensures Remainder(REMARK) == ",JOB" && Kept(REMARK) == "MY JOB" && !OperandEnds(REMARK)
  {
    hide TrimRight, Remainder, Form, BlanksEnd;
    RemarkParts();
    JobForm();
    RemainderForms(" ", "MY", " JOB");
    TrimNothing("MY JOB");
    assert REMARK[1] == 'M';
  }

  lemma NoEqualInName()
    ensures |NOTIFY| == 6 && |SYSUID| == 7 && forall i :: 0 <= i < 6 ==> NOTIFY[i] != '='
  {
  }

  // --- the rewritten card --------------------------------------------------------------------------

  /** The card's lines and the card its last operand moved to, and whether it names someone to notify. */
  datatype Card = Failed | Card(lines: seq<string>, moved: seq<string>, present: bool)

  const ROOM := Some(81)

  /** One line rewritten: the line, what moved off it, and what is known of NOTIFY= then. */
  datatype Step = Refused | Step(line: string, moved: seq<string>, replaced: bool, present: bool)

  /** NOTIFY= in one line, and the comma behind it if it is the last. */
  function LineStep(line: string, user: string, replaced: bool, present: bool, last: bool): Step
  {
    var n := Notify(line, user, replaced);
    if n.Overlong? then Refused else
    var noted := if n.Rewritten? then n.line else line;
    var now := present || !n.Absent?;
    if !last then Step(noted, [], replaced || n.Rewritten?, now) else
    var c := Continuation(noted, ROOM);
    if c.TooLong? then Refused
    else Step(c.line, if c.Moved? then [c.moved] else [], replaced || n.Rewritten?, now)
  }

  /** The lines of the card, credentials gone, from the state of the walk over them. */
  function Carded(ls: seq<string>, user: string, replaced: bool, present: bool): Card
    requires ls != []
    decreases |ls|
  {
    var s := LineStep(ls[0], user, replaced, present, |ls| == 1);
    if s.Refused? then Failed
    else if |ls| == 1 then Card([s.line], s.moved, s.present)
    else Joined([s.line], Carded(ls[1..], user, s.replaced, s.present))
  }

  // --- which lines of the card change ------------------------------------------------------------

  /** The first line whose NOTIFY= is the submitter's, if it still can be replaced; |ls| when none is. */
  ghost predicate FirstToNotify(ls: seq<string>, user: string, m: nat)
  {
    && m <= |ls|
    && (forall i :: 0 <= i < m ==> !Replaces(ls[i], user))
    && (m < |ls| ==> Replaces(ls[m], user))
  }

  /** The line has the operand with the submitter's userid to come. */
  ghost predicate Replaces(line: string, user: string)
  {
    Notify(line, user, false).Rewritten? || Notify(line, user, false).Overlong?
  }

  ghost predicate NamesSomeone(line: string) { Find(line, NOTIFY).Some? }

  /** The line once NOTIFY= is replaced in line m. */
  ghost function Noted(ls: seq<string>, user: string, m: nat, i: nat): string
    requires i < |ls|
  {
    if i == m && Notify(ls[i], user, false).Rewritten? then Notify(ls[i], user, false).line else ls[i]
  }

  /**
   * The card told line by line: NOTIFY= is replaced in line m only, the last line alone is
   * continued, all others stay, and the card is refused exactly if one of these two has no room.
   */
  ghost predicate Told(ls: seq<string>, user: string, m: nat, c: Card)
    requires ls != []
  {
    var n := |ls| - 1;
    var end := Continuation(Noted(ls, user, m, n), Some(81));
    && (c.Failed? <==> (m < |ls| && Notify(ls[m], user, false).Overlong?) || end.TooLong?)
    && (c.Card? ==>
          && |c.lines| == |ls| && (forall i :: 0 <= i < n ==> c.lines[i] == Noted(ls, user, m, i))
          && !end.TooLong? && c.lines[n] == end.line && c.moved == (if end.Moved? then [end.moved] else []))
  }

  ghost predicate AnyNamed(ls: seq<string>) { exists i :: 0 <= i < |ls| && NamesSomeone(ls[i]) }

  /** And it names someone to notify exactly if one of its lines does. */
  lemma {:induction false} CardedExact(ls: seq<string>, user: string, replaced: bool, present: bool, m: nat)
    requires ls != [] && (if replaced then m == |ls| else FirstToNotify(ls, user, m))
    ensures var c := Carded(ls, user, replaced, present);
            Told(ls, user, m, c) && (c.Card? ==> (c.present <==> present || AnyNamed(ls)))
    decreases |ls|
  {
    StepExact(ls, user, replaced, present, m);
    RestNames(ls);
    hide Continuation, NamesSomeone, LineStep, Told, AnyNamed, FirstToNotify;
    if |ls| == 1 {
      assert ls == [ls[0]];
      LastExact(ls[0], user, replaced, present, m);
    } else {
      var s := LineStep(ls[0], user, replaced, present, false);
      if s.Step? {
        var less := if replaced || m == 0 then |ls| - 1 else m - 1;
        if !replaced {
          RestToNotify(ls, user, m);
        }
        CardedExact(ls[1..], user, s.replaced, s.present, less);
        ToldOn(ls, user, m, less, s.line, Carded(ls[1..], user, s.replaced, s.present));
      }
    }
  }

  lemma RestToNotify(ls: seq<string>, user: string, m: nat)
    requires |ls| > 1 && FirstToNotify(ls, user, m)
    ensures m > 0 ==> FirstToNotify(ls[1..], user, m - 1)
  {
    hide Replaces;
  }

  /** The first line, and the whole card if it is the last. */
  lemma StepExact(ls: seq<string>, user: string, replaced: bool, present: bool, m: nat)
    requires ls != [] && (if replaced then m == |ls| else FirstToNotify(ls, user, m))
    ensures var s := LineStep(ls[0], user, replaced, present, |ls| == 1);
            && (s.Step? ==> (s.present <==> present || NamesSomeone(ls[0])))
            && (|ls| > 1 ==>
                  && (s.Refused? <==> m == 0 && Notify(ls[0], user, false).Overlong?)
                  && (s.Step? ==> s.line == Noted(ls, user, m, 0) && s.replaced == (replaced || m == 0)))
  {
    NotifyCases(ls[0], user);
    hide Notify, Continuation, NamesSomeone;
  }

  lemma LastExact(line: string, user: string, replaced: bool, present: bool, m: nat)
    requires if replaced then m == 1 else FirstToNotify([line], user, m)
    ensures var s := LineStep(line, user, replaced, present, true);
            Told([line], user, m, if s.Refused? then Failed else Card([s.line], s.moved, s.present))
  {
    NotifyCases(line, user);
    hide Notify, Continuation, NamesSomeone;
  }

  lemma ToldOn(ls: seq<string>, user: string, m: nat, less: nat, line: string, c: Card)
    requires |ls| > 1 && less == (if m == 0 || m == |ls| then |ls| - 1 else m - 1) && m <= |ls|
    requires line == Noted(ls, user, m, 0) && Told(ls[1..], user, less, c)
    requires m == 0 ==> !Notify(ls[0], user, false).Overlong?
    ensures Told(ls, user, m, Joined([line], c))
  {
    hide Notify, Continuation;
    forall i | 0 <= i < |ls| - 1
      ensures Noted(ls[1..], user, less, i) == Noted(ls, user, m, i + 1)
    {
      assert ls[1..][i] == ls[i + 1];
    }
    assert 0 < m < |ls| ==> ls[1..][less] == ls[m];
    hide Noted;
    if c.Card? {
      var all := [line] + c.lines;
      assert forall i :: 0 < i < |all| ==> all[i] == c.lines[i - 1];
    }
  }

  lemma RestNames(ls: seq<string>)
    requires ls != []
    ensures AnyNamed(ls) <==> NamesSomeone(ls[0]) || AnyNamed(ls[1..])
    ensures |ls| == 1 ==> !AnyNamed(ls[1..])
  {
    hide NamesSomeone;
    assert forall i :: 0 <= i < |ls| - 1 ==> ls[1..][i] == ls[i + 1];
    if AnyNamed(ls) {
      var i :| 0 <= i < |ls| && NamesSomeone(ls[i]);
      assert i > 0 ==> NamesSomeone(ls[1..][i - 1]);
    }
  }

  /** What NOTIFY= of a line comes to, once it has been replaced and before. */
  lemma NotifyCases(line: string, user: string)
    ensures Notify(line, user, true) == if NamesSomeone(line) then Present else Absent
    ensures Notify(line, user, false).Absent? <==> !NamesSomeone(line)
  {
    hide Find;
    FoundHasEqual(line, NOTIFY);
  }

  function Joined(front: seq<string>, c: Card): Card
  {
    if c.Failed? then c else c.(lines := front + c.lines)
  }

  /** The operands mvsMF adds. */
  function Operands(present: bool, user: string, password: string): string
  {
    (if present then "" else NOTIFY + "=" + PLACEHOLDER + ",") + "USER=" + user + ",PASSWORD=" + password
  }

  /** The card added last, with the longer remark if it fits. */
  function Injected(present: bool, user: string, password: string): Option<string>
  {
    var text := INDENT + Operands(present, user, password);
    if |text + "   GENERATED BY MVSMF"| < WIDTH then Some(text + "   GENERATED BY MVSMF")
    else if |text + "   BY MVSMF"| < WIDTH then Some(text + "   BY MVSMF")
    else None
  }

  /** Userids and passwords of eight characters always fit. */
  lemma InjectedFits(present: bool, user: string, password: string)
    ensures Injected(present, user, password).Some? <==> |user| + |password| <= if present then 34 else 20
    ensures |user| <= 8 && |password| <= 8 ==> Injected(present, user, password).Some?
    ensures Injected(present, user, password).Some? ==>
              var card := Injected(present, user, password).value;
              && |card| <= LAST_COL && INDENT + Operands(present, user, password) <= card
              && card[|INDENT + Operands(present, user, password)|] == ' '
  {
  }

  /** The card added, spelled: a userid and a password of at most eight characters leave room for the longer remark. */
  lemma InjectedSpelled(user: string, password: string)
    requires |user| <= 8 && |password| <= 8
    ensures Injected(true, user, password) ==
              Some("//         " + ("USER=" + user + ",PASSWORD=" + password) + "   GENERATED BY MVSMF")
    ensures Injected(false, user, password).Some? ==>
              var text := "//         " + ("NOTIFY=$MVSMF," + "USER=" + user + ",PASSWORD=" + password);
              Injected(false, user, password).value
                == text + (if |text| + 21 < 72 then "   GENERATED BY MVSMF" else "   BY MVSMF")
  {
    assert NOTIFY + "=" + PLACEHOLDER + "," == "NOTIFY=$MVSMF,";
    assert "" + "USER=" == "USER=";
  }

  // --- in the lines --------------------------------------------------------------------------------

  /** The characters in columns 3 to 10, up to a blank. */
  function JobName(line: string): string
  {
    if |line| < 3 then "" else line[2..Least(BlankFrom(line, 2), 10)]
  }

  /** The character behind the first CLASS=, whatever operand it ends. */
  function ClassFrom(line: string, p: nat): Option<char>
    requires p <= |line|
    decreases |line| - p
  {
    if p == |line| then None
    else if StartsAt(line, p, "CLASS=") then (if p + 6 < |line| then Some(line[p + 6]) else None)
    else ClassFrom(line, p + 1)
  }

  ghost predicate ClassAt(line: string, p: nat) { p + 6 <= |line| && line[p..p + 6] == "CLASS=" }

  /** The character behind the first CLASS= of the line, if there is one. */
  lemma {:induction false} ClassExact(line: string, p: nat)
    requires p <= |line|
    ensures ClassFrom(line, p).Some? ==>
              exists q: nat :: p <= q && ClassAt(line, q) && (forall i :: p <= i < q ==> !ClassAt(line, i))
                && q + 6 < |line| && ClassFrom(line, p) == Some(line[q + 6])
    ensures forall q: nat ::
              p <= q && q + 6 < |line| && ClassAt(line, q) && (forall i :: p <= i < q ==> !ClassAt(line, i)) ==>
                ClassFrom(line, p) == Some(line[q + 6])
    decreases |line| - p
  {
    assert StartsAt(line, p, "CLASS=") <==> ClassAt(line, p);
    if p < |line| && !ClassAt(line, p) {
      ClassExact(line, p + 1);
    }
    hide StartsAt, ClassAt;
  }

  /** The card before it is rewritten, its credentials gone. */
  function ClearedCard(ls: seq<string>): (r: seq<string>)
    ensures |r| == |ls| && forall i :: 0 <= i < |ls| ==> r[i] == CardLine(ls[i], i > 0)
  {
    seq(|ls|, i requires 0 <= i < |ls| => CardLine(ls[i], i > 0))
  }

  method RewriteLine(line: string, user: string, replaced: bool, present: bool, last: bool) returns (s: Step)
    ensures s == LineStep(line, user, replaced, present, last)
  {
    hide Notify, Continuation;
    var n := Notify(line, user, replaced);
    var now := present || !n.Absent?;
    if n.Overlong? {
      return Refused;
    }
    var noted, done := line, replaced;
    if n.Rewritten? {
      noted, done := n.line, true;
    }
    if !last {
      return Step(noted, [], done, now);
    }
    var c := Continue(noted, ROOM);
    if c.TooLong? {
      return Refused;
    }
    return Step(c.line, if c.Moved? then [c.moved] else [], done, now);
  }

  /** One more line of the card. */
  lemma CardedStep(ls: seq<string>, k: nat, front: seq<string>, user: string, replaced: bool, present: bool)
    requires k < |ls|
    ensures var s := LineStep(ls[k], user, replaced, present, k + 1 == |ls|);
            var c := Joined(front, Carded(ls[k..], user, replaced, present));
            if s.Refused? then c.Failed?
            else if k + 1 == |ls| then c == Card(front + [s.line], s.moved, s.present)
            else c == Joined(front + [s.line], Carded(ls[k + 1..], user, s.replaced, s.present))
  {
    hide LineStep;
    assert ls[k..][0] == ls[k] && ls[k..][1..] == ls[k + 1..];
    var s := LineStep(ls[k], user, replaced, present, k + 1 == |ls|);
    if !s.Refused? && k + 1 < |ls| {
      var c := Carded(ls[k + 1..], user, s.replaced, s.present);
      if c.Card? {
        assert front + ([s.line] + c.lines) == front + [s.line] + c.lines;
      }
    }
  }

  /** The walk over the lines of the card: NOTIFY=, and the comma behind the last. */
  method RewriteCard(lines: array<string>, start: nat, end: nat, user: string)
    returns (ok: bool, moved: seq<string>, present: bool)
    requires start <= end < lines.Length
    modifies lines
    ensures forall i :: 0 <= i < lines.Length && !(start <= i <= end) ==> lines[i] == old(lines[i])
    ensures var c := Carded(old(lines[start..end + 1]), user, false, false);
            ok == c.Card? && (ok ==> c == Card(lines[start..end + 1], moved, present))
  {
    hide LineStep, Carded;
    ghost var all := lines[start..end + 1];
    ghost var whole := Carded(all, user, false, false);
    var replaced := false;
    present, moved := false, [];
    assert all[0..] == all;
    assert whole.Card? ==> [] + whole.lines == whole.lines;
    for i := start to end + 1
      invariant forall k :: 0 <= k < lines.Length && !(start <= k < i) ==> lines[k] == old(lines[k])
      invariant i <= end ==> Joined(lines[start..i], Carded(all[i - start..], user, replaced, present)) == whole
      invariant i > end ==> whole == Card(lines[start..i], moved, present)
    {
      CardedStep(all, i - start, lines[start..i], user, replaced, present);
      var s := RewriteLine(lines[i], user, replaced, present, i == end);
      if s.Refused? {
        return false, [], present;
      }
      lines[i] := s.line;
      assert lines[start..i + 1] == lines[start..i] + [s.line];
      moved, replaced, present := s.moved, s.replaced, s.present;
    }
    ok := true;
  }

  /** There is one card only. */
  lemma CardUnique(ls: seq<string>, start: nat, end: nat, other: nat)
    requires IsCard(ls, start, end) && IsCard(ls, start, other)
    ensures end == other
  {
    hide GoesOn, IsJob;
  }

  /** Room for the cards added: the lines from from on move down, the last of them first. */
  method ShiftDown(lines: array<string>, from: nat, to: nat, extra: nat)
    requires from <= to && to + extra <= lines.Length && extra > 0
    modifies lines
    ensures lines[..from] == old(lines[..from])
    ensures lines[from + extra..to + extra] == old(lines[from..to])
  {
    var i := to;
    while i > from
      invariant from <= i <= to
      invariant forall k :: 0 <= k < i ==> lines[k] == old(lines[k])
      invariant forall k :: i + extra <= k < to + extra ==> lines[k] == old(lines[k - extra])
    {
      i := i - 1;
      lines[i + extra] := lines[i];
    }
  }

  /** The lines that are submitted. */
  function Submitted(ls: seq<string>, start: nat, end: nat, c: Card, injected: string): seq<string>
    requires start <= end < |ls| && c.Card?
  {
    ls[..start] + (c.lines + (c.moved + ([injected] + ls[end + 1..])))
  }

  /**
   * process_jobcard(): in front of the card and behind it every line is as it was; the
   * card is the rewritten one, followed by the card its last operand moved to, if
   * one did, and by the card with the caller's credentials.
   */
  method Process(lines: array<string>, n: nat, user: Option<string>, password: Option<string>)
    returns (rc: int, jobname: string, jobclass: Option<char>, ghost start: int, ghost end: int)
    requires n + 2 <= lines.Length
    modifies lines
    ensures rc == -1 <==> user.None? || password.None? || start == -1
    ensures user.Some? && password.Some? ==> (start == -1 <==> forall k :: 0 <= k < n ==> !IsJob(old(lines[k])))
    ensures user.Some? && password.Some? && (exists k :: 0 <= k < n && IsJobLine(old(lines[k]))) ==> rc != -1
    ensures rc == -1 ==> lines[..] == old(lines[..])
    ensures rc != -1 ==>
              0 <= start && 0 <= end && IsCard(old(lines[..n]), start, end)
              && forall k :: 0 <= k < start ==> !IsJob(old(lines[k]))
    ensures rc != -1 ==>
              var c := Carded(ClearedCard(old(lines[..n])[start..end + 1]), user.value, false, false);
              if c.Failed? || Injected(c.present, user.value, password.value).None? then rc == -2 else
              var text := Submitted(old(lines[..n]), start, end, c,
                  Injected(c.present, user.value, password.value).value);
              && rc == |text| == n + |c.moved| + 1 <= lines.Length && lines[..rc] == text
              && jobname == JobName(old(lines[start])) && jobclass == ClassFrom(old(lines[start]), 0)
  {
    hide IsJob, GoesOn, Carded, CardLine, Injected;
    jobname, jobclass, start, end := "", None, -1, -1;
    if user.None? || password.None? {
      return NO_CARD, jobname, jobclass, start, end;
    }
    hide IsJobLine;
    JobLinesAreJobs(lines[..n]);
    assert forall k :: 0 <= k < n ==> lines[..n][k] == lines[k];
    var first, last := FindCard(lines, n);
    start, end := first, last;
    if first < 0 {
      return NO_CARD, jobname, jobclass, start, end;
    }
    jobname, jobclass := JobName(lines[first]), ClassFrom(lines[first], 0);
    rc := Rewrite(lines, n, first, last, user.value, password.value);
  }

  /** The card found, from start to end: rewritten, and the cards behind it added. */
  method Rewrite(lines: array<string>, n: nat, start: nat, end: nat, user: string, password: string)
    returns (rc: int)
    requires start <= end < n && n + 2 <= lines.Length
    modifies lines
    ensures var c := Carded(ClearedCard(old(lines[..n])[start..end + 1]), user, false, false);
            if c.Failed? || Injected(c.present, user, password).None? then rc == -2 else
            var text := Submitted(old(lines[..n]), start, end, c, Injected(c.present, user, password).value);
            rc == |text| == n + |c.moved| + 1 <= lines.Length && lines[..rc] == text
  {
    hide IsJob, GoesOn, Carded, CardLine, Injected;
    ghost var was := lines[..n];
    ghost var cleared := ClearedCard(was[start..end + 1]);
    ghost var c := Carded(cleared, user, false, false);
    var removed := StripCredentials(lines, start, end);
    assert lines[start..end + 1] == cleared;
    var ok, moved, present := RewriteCard(lines, start, end, user);
    if !ok {
      return TOO_LONG;
    }
    CardedLength(cleared, user, false, false);
    assert lines[..end + 1] == was[..start] + c.lines;
    assert lines[end + 1..n] == was[end + 1..];
    rc := AddCards(lines, n, end, moved, present, user, password);
    if rc >= 0 {
      Regroup(was[..start], c.lines, moved, Injected(present, user, password).value, was[end + 1..]);
    }
  }

  lemma Regroup(front: seq<string>, card: seq<string>, moved: seq<string>, injected: string, behind: seq<string>)
    ensures front + card + moved + [injected] + behind == front + (card + (moved + ([injected] + behind)))
  {
  }

  lemma {:induction false} CardedLength(ls: seq<string>, user: string, replaced: bool, present: bool)
    requires ls != []
    ensures var c := Carded(ls, user, replaced, present); c.Card? ==> |c.lines| == |ls| && |c.moved| <= 1
    decreases |ls|
  {
    hide Notify, Continuation;
    if |ls| > 1 {
      var s := LineStep(ls[0], user, replaced, present, false);
      if s.Step? {
        CardedLength(ls[1..], user, s.replaced, s.present);
      }
    }
  }

  /** The cards behind the JOB card. */
  method AddCards(lines: array<string>, n: nat, last: nat, moved: seq<string>, present: bool, user: string,
      password: string)
    returns (rc: int)
    requires last < n && n + 2 <= lines.Length && |moved| <= 1
    modifies lines
    ensures var injected := Injected(present, user, password);
            if injected.None? then rc == -2 else
            && rc == n + |moved| + 1
            && lines[..rc] == old(lines[..last + 1]) + moved + [injected.value] + old(lines[last + 1..n])
  {
    hide Injected;
    var extra := |moved| + 1;
    ShiftDown(lines, last + 1, n, extra);
    if extra == 2 {
      lines[last + 1] := moved[0];
    }
    assert lines[..last + 1] == old(lines[..last + 1]);
    var injected := Injected(present, user, password);
    if injected.None? {
      return TOO_LONG;
    }
    lines[last + extra] := injected.value;
    assert lines[last + 1..last + extra] == moved;
    assert lines[last + 1 + extra..n + extra] == old(lines[last + 1..n]);
    ghost var all := lines[..n + extra];
    assert all == lines[..last + 1] + lines[last + 1..last + extra] + [lines[last + extra]]
           + lines[last + 1 + extra..n + extra];
    return n + extra;
  }
}
