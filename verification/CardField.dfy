// Whether the comma that jobcard_continue() leaves at the end of a line of a JOB card
// ends the operand field, so that the card goes on: src/jobcard.c.
module CardField {
  import opened Texts
  import opened Wrappers
  import opened JobCard

  predicate FieldBlank(t: string, i: nat)
    requires i < |t|
  {
    t[i] == ' ' && !After(false, t[..i])
  }

  /** The operand field from p on ends at the first blank outside quotes; what follows is a remark. */
  function FieldEnd(t: string, p: nat): (e: nat)
    requires p <= |t|
    ensures p <= e <= |t| && (e < |t| ==> FieldBlank(t, e)) && forall i :: p <= i < e ==> !FieldBlank(t, i)
    decreases |t| - p
  {
    if p == |t| || FieldBlank(t, p) then p else FieldEnd(t, p + 1)
  }

  /** The card goes on behind this line: its operand field ends in a comma outside quotes. */
  predicate GoesOn(t: string, p: nat)
    requires p <= |t|
  {
    var e := FieldEnd(t, p);
    e > p && t[e - 1] == ',' && !After(false, t[..e - 1])
  }

  /** Two lines that begin alike have their operand field alike, as far as it ends there. */
  lemma FieldAlike(t: string, c: string, k: nat, p: nat)
    requires p <= k <= |t| && k <= |c| && t[..k] == c[..k]
    ensures FieldEnd(t, p) < k ==> FieldEnd(c, p) == FieldEnd(t, p) && GoesOn(c, p) == GoesOn(t, p)
    ensures FieldEnd(t, p) >= k ==> FieldEnd(c, p) >= k
  {
    hide After;
    forall i | 0 <= i < k
      ensures t[i] == c[i] && t[..i] == c[..i]
    {
      assert t[i] == t[..k][i] && c[i] == c[..k][i];
      assert t[..i] == t[..k][..i] && c[..i] == c[..k][..i];
    }
    assert forall i :: 0 <= i < k ==> FieldBlank(t, i) == FieldBlank(c, i);
  }

  lemma CommaAppended(t: string, p: nat)
    requires p <= |t|
    ensures GoesOn(t + ",", p) <==> if FieldEnd(t, p) == |t| then !After(false, t) else GoesOn(t, p)
  {
    hide After;
    var c := t + ",";
    assert c[..|t|] == t == t[..|t|];
    FieldAlike(t, c, |t|, p);
    if FieldEnd(t, p) == |t| {
      assert !FieldBlank(c, |t|);
      assert FieldEnd(c, p) == |c|;
    }
  }

  lemma CutAtComma(t: string, k: nat, p: nat)
    requires p <= k + 1 <= |t| && t[k] == ',' && !After(false, t[..k])
    ensures GoesOn(t[..k + 1], p) <==> if FieldEnd(t, p) > k then p <= k else GoesOn(t, p)
  {
    hide After;
    var c := t[..k + 1];
    FieldAlike(t, c, k + 1, p);
    assert c[..k] == t[..k] && c[k] == ',';
  }

  /** What is moved to a card of its own is read in the same state. */
  lemma MovedState(front: string, t: string, k: nat, i: nat)
    requires k <= i <= |t| && !After(false, t[..k]) && !After(false, front)
    ensures var s, j := front + t[k..], |front| + i - k;
            After(false, s[..j]) == After(false, t[..i]) && (i < |t| ==> s[j] == t[i])
  {
    var s, j := front + t[k..], |front| + i - k;
    hide After;
    assert t[..i] == t[..k] + t[k..i];
    AfterSum(false, t[..k], t[k..i]);
    assert s[..j] == front + t[k..i];
    AfterSum(false, front, t[k..i]);
  }

  lemma BlankMoved(front: string, t: string, k: nat, i: nat)
    requires k <= i < |t| && !After(false, t[..k]) && !After(false, front)
    ensures FieldBlank(front + t[k..], |front| + i - k) == FieldBlank(t, i)
  {
    hide After;
    MovedState(front, t, k, i);
  }

  /** Its field ends where it did. */
  lemma MovedField(front: string, t: string, k: nat)
    requires k <= |t| && !After(false, t[..k]) && !After(false, front)
    ensures FieldEnd(front + t[k..], |front|) == |front| + FieldEnd(t, k) - k
  {
    hide After, FieldBlank, FieldEnd;
    var s, d, e := front + t[k..], |front| - k, FieldEnd(t, k);
    if e < |t| {
      BlankMoved(front, t, k, e);
    }
    forall j | |front| <= j < e + d
      ensures !FieldBlank(s, j)
    {
      BlankMoved(front, t, k, j - d);
    }
    EndIs(s, |front|, e + d);
  }

  lemma EndIs(t: string, p: nat, e: nat)
    requires p <= e <= |t| && (e < |t| ==> FieldBlank(t, e)) && forall i :: p <= i < e ==> !FieldBlank(t, i)
    ensures FieldEnd(t, p) == e
  {
  }

  /** And it goes on if it did. */
  lemma MovedAlike(front: string, t: string, k: nat)
    requires k <= |t| && !After(false, t[..k]) && !After(false, front)
    ensures var s := front + t[k..];
            && After(false, s) == After(false, t) && GoesOn(s, |front|) == GoesOn(t, k)
            && (FieldEnd(s, |front|) == |s| <==> FieldEnd(t, k) == |t|)
  {
    hide After, FieldEnd;
    var s := front + t[k..];
    var e := FieldEnd(t, k);
    MovedField(front, t, k);
    MovedState(front, t, k, |t|);
    assert s[..|s|] == s && t[..|t|] == t;
    if k < e {
      MovedState(front, t, k, e - 1);
    }
  }

  lemma MovedGoesOn(t: string, k: nat)
    requires k <= |t| && !After(false, t[..k])
    ensures GoesOn(INDENT + t[k..] + ",", |INDENT|)
       <==> if FieldEnd(t, k) == |t| then !After(false, t) else GoesOn(t, k)
  {
    NoQuotes(INDENT);
    hide After, FieldEnd, GoesOn;
    MovedAlike(INDENT, t, k);
    CommaAppended(INDENT + t[k..], |INDENT|);
  }

  /**
   * When the comma keeps the card going, for the operand field from p on. Without a
   * remark: exactly if the quotes are closed. With one the comma stands behind the
   * remark and decides nothing; the card goes on exactly if it did before.
   */
  lemma GoesOnExact(line: string, room: Option<nat>, p: nat)
    requires p <= |TrimRight(line)|
    ensures var t, r := TrimRight(line), Continuation(line, room);
            && (r.AsIs? ==>
                  (GoesOn(r.line, p) <==> if FieldEnd(t, p) == |t| then p < |t| && !After(false, t) else GoesOn(t, p)))
            && (r.WithComma? ==>
                  (GoesOn(r.line, p) <==> if FieldEnd(t, p) == |t| then !After(false, t) else GoesOn(t, p)))
            && (r.Moved? ==> var n := |r.line|;
                  && n <= |t|
                  && (p <= n ==> (GoesOn(r.line, p) <==> if FieldEnd(t, p) >= n then p < n else GoesOn(t, p)))
                  && (GoesOn(r.moved, |INDENT|) <==> if FieldEnd(t, n) == |t| then !After(false, t) else GoesOn(t, n)))
  {
    var t, r := TrimRight(line), Continuation(line, room);
    hide After, FieldEnd, GoesOn, TrimRight;
    match r
    case AsIs(_) =>
      EndsInComma(t, p);
    case WithComma(_) =>
      CommaAppended(t, p);
    case Moved(_, _) =>
      var last := LastTop(t, |t|).value;
      AfterOne(t, last);
      if p <= last + 1 {
        CutAtComma(t, last, p);
      }
      MovedGoesOn(t, last + 1);
    case TooLong =>
  }

  lemma EndsInComma(t: string, p: nat)
    requires p <= |t| && (t == "" || t[|t| - 1] == ',')
    ensures FieldEnd(t, p) == |t| ==> (GoesOn(t, p) <==> p < |t| && !After(false, t))
  {
    if t != "" {
      AfterOne(t, |t| - 1);
      assert t[..|t|] == t;
    }
  }

  /** A remark on the JOB line: the comma goes behind it and the card ends there. */
  lemma RemarkWitness()
    ensures Continuation("//J JOB A MY REMARK", None) == WithComma("//J JOB A MY REMARK,")
            && !GoesOn("//J JOB A MY REMARK,", 8)
  {
    hide After, FieldEnd, GoesOn;
    var t := "//J JOB A MY REMARK";
    assert TrimRight(t) == t;
    assert t + "," == "//J JOB A MY REMARK,";
    EndsAtNine(t);
    CommaAppended(t, 8);
  }

  lemma EndsAtNine(t: string)
    requires |t| > 9 && (forall i :: 0 <= i < 9 ==> t[i] != QUOTE) && t[8] == 'A' && t[9] == ' '
    ensures FieldEnd(t, 8) == 9 && !GoesOn(t, 8)
  {
    NoQuotes(t[..9]);
    hide After, FieldEnd;
    assert FieldBlank(t, 9) && !FieldBlank(t, 8);
  }

  lemma {:induction false} NoQuotes(s: string)
    requires forall i :: 0 <= i < |s| ==> s[i] != QUOTE
    ensures !After(false, s)
    decreases |s|
  {
    if s != "" {
      NoQuotes(s[1..]);
    }
  }
}
