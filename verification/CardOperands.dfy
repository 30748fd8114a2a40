// Where the last card of a JOB statement is cut: the operand moved to the card added
// is the last of the line, as operands are written, with text in quotes and lists in
// parentheses, jobcard_continue() of src/jobcard.c.
module CardOperands {
  import opened Texts
  import opened Wrappers
  import opened JobCard

  /** An operand, from its front on: characters, quoted texts and lists in parentheses. */
  datatype Operand =
    | Nothing
    | Letter(c: char, next: Operand)
    | Quoted(text: string, next: Operand)
    | Listed(inner: Operand, next: Operand)

  function Shown(o: Operand): string
  {
    match o
    case Nothing => ""
    case Letter(c, next) => [c] + Shown(next)
    case Quoted(text, next) => ("'" + text + "'") + Shown(next)
    case Listed(inner, next) => ("(" + Shown(inner) + ")") + Shown(next)
  }

  /** No quote or parenthesis but those that open and close, and a comma only in a list. */
  predicate Written(o: Operand, listed: bool)
  {
    match o
    case Nothing => true
    case Letter(c, next) => c != '\'' && c != '(' && c != ')' && (c == ',' ==> listed) && Written(next, listed)
    case Quoted(text, next) => '\'' !in text && Written(next, listed)
    case Listed(inner, next) => Written(inner, true) && Written(next, listed)
  }

  /** Outside quotes, with d parentheses open. */
  predicate Level(t: string, k: nat, d: int)
  {
    k <= |t| && !After(false, t[..k]) && Depth(t, k) == d
  }

  lemma LevelStep(t: string, k: nat, d: int)
    requires k < |t| && Level(t, k, d) && t[k] != '\''
    ensures Level(t, k + 1, if t[k] == '(' then d + 1 else if t[k] == ')' then d - 1 else d)
  {
    AfterOne(t, k);
    hide After;
  }

  /** From the quote at k on, up to i, the text is quoted. */
  lemma {:induction false} InQuotes(t: string, k: nat, d: int, i: nat)
    requires Level(t, k, d) && k < i <= |t| && t[k] == '\'' && forall j :: k < j < i ==> t[j] != '\''
    ensures After(false, t[..i]) && Depth(t, i) == d
    decreases i
  {
    hide After;
    AfterOne(t, i - 1);
    if i > k + 1 {
      InQuotes(t, k, d, i - 1);
    }
  }

  lemma QuotedPassed(t: string, k: nat, d: int, n: nat)
    requires Level(t, k, d) && k + n + 1 < |t| && t[k] == '\'' && t[k + n + 1] == '\''
    requires forall j :: k < j <= k + n ==> t[j] != '\''
    ensures Level(t, k + n + 2, d)
    ensures forall i :: k <= i < k + n + 2 ==> !TopComma(t, i)
  {
    hide After, Depth;
    forall i | k < i < k + n + 2
      ensures After(false, t[..i]) && Depth(t, i) == d
    {
      InQuotes(t, k, d, i);
    }
    ClosingQuote(t, k + n + 1, d);
  }

  lemma ClosingQuote(t: string, i: nat, d: int)
    requires i < |t| && After(false, t[..i]) && Depth(t, i) == d && t[i] == '\''
    ensures Level(t, i + 1, d)
  {
    AfterOne(t, i);
    hide After;
  }

  /** The text stands at k. */
  predicate Stands(t: string, k: nat, a: string) { k <= |t| && a <= t[k..] }

  lemma StandsApart(t: string, k: nat, a: string, b: string)
    requires Stands(t, k, a + b)
    ensures k + |a| + |b| <= |t| && Stands(t, k, a) && Stands(t, k + |a|, b)
  {
    assert t[k..][..|a|] == (a + b)[..|a|] == a;
    assert t[k + |a|..] == t[k..][|a|..];
    assert t[k..][|a|..|a| + |b|] == (a + b)[|a|..] == b;
  }

  lemma StandsAt(t: string, k: nat, a: string)
    requires Stands(t, k, a)
    ensures k + |a| <= |t| && forall i :: 0 <= i < |a| ==> t[k + i] == a[i]
  {
    assert forall i :: 0 <= i < |a| ==> t[k..][i] == a[i];
  }

  /** An operand leaves the level as it is, and no comma in it separates operands. */
  lemma {:induction false} OperandPassed(t: string, k: nat, o: Operand, listed: bool, d: nat)
    requires Level(t, k, d) && (d > 0 || !listed) && Written(o, listed) && Stands(t, k, Shown(o))
    ensures Level(t, k + |Shown(o)|, d)
    ensures forall i :: k <= i < k + |Shown(o)| ==> !TopComma(t, i)
    decreases o, 0
  {
    hide Level, TopComma, Stands;
    match o {
      case Nothing =>
      case Letter(c, next) =>
        StandsApart(t, k, [c], Shown(next));
        LetterPassed(t, k, c, d);
        OperandPassed(t, k + 1, next, listed, d);
      case Quoted(text, next) =>
        StandsApart(t, k, "'" + text + "'", Shown(next));
        TextPassed(t, k, text, d);
        OperandPassed(t, k + |text| + 2, next, listed, d);
      case Listed(inner, next) =>
        StandsApart(t, k, "(" + Shown(inner) + ")", Shown(next));
        ListPassed(t, k, inner, d);
        OperandPassed(t, k + |Shown(inner)| + 2, next, listed, d);
    }
  }

  lemma LetterPassed(t: string, k: nat, c: char, d: int)
    requires Level(t, k, d) && Stands(t, k, [c]) && c != '\'' && (c == ',' ==> d != 0)
    ensures k < |t| && Level(t, k + 1, if c == '(' then d + 1 else if c == ')' then d - 1 else d) && !TopComma(t, k)
  {
    StandsAt(t, k, [c]);
    assert t[k + 0] == c;
    LevelStep(t, k, d);
  }

  lemma TextPassed(t: string, k: nat, text: string, d: int)
    requires Level(t, k, d) && Stands(t, k, "'" + text + "'") && '\'' !in text
    ensures k + |text| + 2 <= |t| && Level(t, k + |text| + 2, d)
    ensures forall i :: k <= i < k + |text| + 2 ==> !TopComma(t, i)
  {
    hide Level, TopComma, Stands;
    StandsAt(t, k, "'" + text + "'");
    QuoteStands(t, k, text);
    QuotedPassed(t, k, d, |text|);
  }

  lemma QuoteStands(t: string, k: nat, text: string)
    requires k + |text| + 2 <= |t| && '\'' !in text
    requires forall i :: 0 <= i < |text| + 2 ==> t[k + i] == ("'" + text + "'")[i]
    ensures t[k] == '\'' && t[k + |text| + 1] == '\'' && forall j :: k < j <= k + |text| ==> t[j] != '\''
  {
    var front := "'" + text + "'";
    assert t[k + 0] == front[0] && t[k + (|text| + 1)] == front[|text| + 1];
    forall j | k < j <= k + |text|
      ensures t[j] != '\''
    {
      assert t[k + (j - k)] == front[j - k] == text[j - k - 1];
    }
  }

  /** A list in parentheses. */
  lemma {:induction false} ListPassed(t: string, k: nat, inner: Operand, d: nat)
    requires Level(t, k, d) && Written(inner, true) && Stands(t, k, "(" + Shown(inner) + ")")
    ensures k + |Shown(inner)| + 2 <= |t| && Level(t, k + |Shown(inner)| + 2, d)
    ensures forall i :: k <= i < k + |Shown(inner)| + 2 ==> !TopComma(t, i)
    decreases inner, 1
  {
    hide Level, TopComma, Stands, Shown, Written;
    var s, n := Shown(inner), |Shown(inner)|;
    assert "(" + s + ")" == ['('] + (s + [')']);
    StandsApart(t, k, ['('], s + [')']);
    StandsApart(t, k + 1, s, [')']);
    LetterPassed(t, k, '(', d);
    OperandPassed(t, k + 1, inner, true, d + 1);
    LetterPassed(t, k + 1 + n, ')', d + 1);
  }

  /** Operands, each with the comma behind it. */
  function Separated(os: seq<Operand>): string
  {
    if os == [] then "" else Separated(os[..|os| - 1]) + (Shown(os[|os| - 1]) + ",")
  }

  lemma {:induction false} SeparatedPassed(t: string, os: seq<Operand>)
    requires (forall i :: 0 <= i < |os| ==> Written(os[i], false)) && Stands(t, 0, Separated(os))
    ensures Level(t, |Separated(os)|, 0)
    ensures os != [] ==> 0 < |Separated(os)| <= |t| && TopComma(t, |Separated(os)| - 1)
    decreases |os|
  {
    if os != [] {
      var front, o := os[..|os| - 1], os[|os| - 1];
      hide Level, TopComma, Stands, Shown, Written;
      StandsApart(t, 0, Separated(front), Shown(o) + ",");
      SeparatedPassed(t, front);
      StandsApart(t, |Separated(front)|, Shown(o), ",");
      OperandPassed(t, |Separated(front)|, o, false, 0);
      CommaPassed(t, |Separated(front)| + |Shown(o)|);
    }
  }

  lemma CommaPassed(t: string, k: nat)
    requires Level(t, k, 0) && Stands(t, k, ",")
    ensures k < |t| && Level(t, k + 1, 0) && TopComma(t, k)
  {
    StandsAt(t, k, ",");
    assert t[k + 0] == ',';
    LevelStep(t, k, 0);
  }

  /** The last comma that separates operands is the one in front of the last operand. */
  lemma LastSeparator(os: seq<Operand>, last: Operand)
    requires forall i :: 0 <= i < |os| ==> Written(os[i], false)
    requires Written(last, false)
    ensures LastTop(Separated(os) + Shown(last), |Separated(os) + Shown(last)|)
         == if os == [] then None else Some(|Separated(os)| - 1)
  {
    var t, k := Separated(os) + Shown(last), |Separated(os)|;
    assert t[0..] == t && t[k..] == Shown(last);
    hide TopComma, Level, Shown, Separated, Written;
    assert Stands(t, 0, Separated(os)) && Stands(t, k, Shown(last));
    hide Stands;
    SeparatedPassed(t, os);
    OperandPassed(t, k, last, false, 0);
    NothingSeparated();
    assert k + |Shown(last)| == |t|;
    LastTopIs(t, k);
  }

  lemma LastTopIs(t: string, k: nat)
    requires k <= |t| && (k > 0 ==> TopComma(t, k - 1)) && forall i :: k <= i < |t| ==> !TopComma(t, i)
    ensures LastTop(t, |t|) == if k == 0 then None else Some(k - 1)
  {
    hide TopComma;
    var r := LastTop(t, |t|);
    hide LastTop;
  }

  lemma NothingSeparated()
    ensures Separated([]) == ""
  {
  }

  /**
   * A full line of operands is cut in front of its last one, which goes to a card of its
   * own, exactly if that card has room for it up to column 71 and in the buffer.
   */
  lemma LastOperandMoves(os: seq<Operand>, last: Operand, room: Option<nat>)
    requires forall i :: 0 <= i < |os| ==> Written(os[i], false)
    requires Written(last, false)
    requires var t := Separated(os) + Shown(last); |t| == 71 && t[70] != ' ' && t[70] != ','
    ensures Continuation(Separated(os) + Shown(last), room) ==
              if os != [] && room.Some? && |Shown(last)| + 12 <= 71 && |Shown(last)| + 12 < room.value
              then Moved(Separated(os), "//         " + Shown(last) + ",")
              else TooLong
  {
    var t := Separated(os) + Shown(last);
    LastSeparator(os, last);
    assert TrimRight(t) == t;
    if os != [] {
      assert t[..|Separated(os)|] == Separated(os) && t[|Separated(os)|..] == Shown(last);
      assert |Separated(os)| > 0;
    }
    hide LastTop, Shown, Separated, TrimRight;
  }

  /** A shorter line gets its comma, a longer one is refused, and one that ends in a comma stays. */
  lemma OtherwiseExact(line: string, blanks: string, room: Option<nat>)
    requires (line == "" || line[|line| - 1] != ' ') && forall i :: 0 <= i < |blanks| ==> blanks[i] == ' '
    ensures line == "" || line[|line| - 1] == ',' ==> Continuation(line + blanks, room) == AsIs(line)
    ensures 0 < |line| < 71 && line[|line| - 1] != ',' ==> Continuation(line + blanks, room) == WithComma(line + ",")
    ensures |line| > 71 && line[|line| - 1] != ',' ==> Continuation(line + blanks, room) == TooLong
  {
    TrimmedOff(line, blanks);
    hide LastTop, TrimRight;
  }
}
