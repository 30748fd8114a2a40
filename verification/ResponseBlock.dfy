// Which lines of the Master Trace Table answer a command: an account of the response
// block position by position, without the walk that src/consapi.c finds it by. A set of
// positions says which lines are taken; where a line comes from and which number is in
// force are told from the lines in front of it.
module ResponseBlock {
  import opened Texts
  import opened TraceTable
  import opened WindowClock
  import opened Correlation

  /** The line at p carries this source in columns 14 to 21. */
  predicate Sent(t: seq<Entry>, p: nat, src: string)
    requires p < |t|
  {
    t[p].Line? && |t[p].dat| >= 22 && t[p].dat[14..22] == src
  }

  /** It carries no source. */
  predicate Unsigned(t: seq<Entry>, p: nat)
    requires p < |t|
  {
    Sent(t, p, "        ")
  }

  /** The source the command's echo at e carries; blank if the echo is too short for one. */
  function Issuer(t: seq<Entry>, e: nat): string
    requires e < |t|
  {
    if t[e].Line? && |t[e].dat| >= 22 then t[e].dat[14..22] else "        "
  }

  /** A command as it is written: from the issuer or unsigned, no digit in its first word. */
  predicate IsCommand(t: seq<Entry>, e: nat, p: nat)
    requires e < |t| && p < |t|
  {
    && (Sent(t, p, Issuer(t, e)) || Unsigned(t, p))
    && |t[p].dat| > 24 && IsCommandShaped(Message(t[p].dat))
  }

  /** Another one's line, in the echo's second or the next one, midnight passed or not. */
  predicate Foreign(t: seq<Entry>, e: nat, p: nat)
    requires e < |t| && p < |t|
  {
    && t[p].Line? && |t[p].dat| >= 22 && !Sent(t, p, Issuer(t, e)) && !Unsigned(t, p)
    && var s, c := Stamp(t[p]), Stamp(t[e]);
       s >= 0 && c >= 0 && (s == c || s == c + 1 || (s == 0 && c == DAY - 1))
  }

  /** Nothing in front of p is taken. */
  ghost predicate NothingTaken(taken: set<nat>, p: nat) { forall k :: k in taken ==> k >= p }

  /** The first foreign line behind the echo, if nothing is taken in front of it: the command's target. */
  ghost predicate IsTarget(t: seq<Entry>, e: nat, taken: set<nat>, a: nat)
    requires e < |t|
  {
    e < a < |t| && Foreign(t, e, a) && NothingTaken(taken, a) && forall k :: e < k < a ==> !Foreign(t, e, k)
  }

  /** The line at p comes from where the answer comes from: the target, once there is one, else the issuer. */
  ghost predicate Own(t: seq<Entry>, e: nat, taken: set<nat>, p: nat)
    requires e < |t| && p < |t|
  {
    if exists a: nat :: a <= p && IsTarget(t, e, taken, a) then
      exists a: nat :: a <= p && IsTarget(t, e, taken, a) && Sent(t, p, Issuer(t, a))
    else Sent(t, p, Issuer(t, e))
  }

  /** The number in force in front of p: that of the last line taken as a message which ends in one. */
  ghost function NumberAt(t: seq<Entry>, e: nat, taken: set<nat>, p: nat): string
    requires e < |t| && p <= |t|
  {
    if p <= e + 1 then "" else
    var k := p - 1;
    if k in taken && (Own(t, e, taken, k) || Unsigned(t, k)) && t[k].Line? && MessageNumber(Message(t[k].dat)) != ""
    then MessageNumber(Message(t[k].dat)) else NumberAt(t, e, taken, k)
  }

  /** The line goes on with the message whose number is in force. */
  ghost predicate GoesOn(t: seq<Entry>, e: nat, taken: set<nat>, p: nat)
    requires e < |t| && p < |t|
  {
    t[p].Line? && Continues(t[p].dat, NumberAt(t, e, taken, p))
  }

  /**
   * The lines of a block: no commands but such as go on with a message; of the others
   * those from the answer's source or unsigned that hold a message, and those that go on
   * with one.
   */
  ghost predicate Belongs(t: seq<Entry>, e: nat, taken: set<nat>, p: nat)
    requires e < |t| && p < |t|
  {
    && t[p].Line? && (IsCommand(t, e, p) ==> GoesOn(t, e, taken, p))
    && if Own(t, e, taken, p) || Unsigned(t, p) then |t[p].dat| > 24 else GoesOn(t, e, taken, p)
  }

  /** What ends a block: the issuer's next command; and once it has a line, a line from elsewhere. */
  ghost predicate EndsBlock(t: seq<Entry>, e: nat, taken: set<nat>, p: nat)
    requires e < |t| && p < |t|
  {
    && t[p].Line? && !GoesOn(t, e, taken, p)
    && ((Sent(t, p, Issuer(t, e)) && IsCommand(t, e, p))
        || (!NothingTaken(taken, p) && !Own(t, e, taken, p) && !Unsigned(t, p)))
  }

  /** The block behind the echo at e: it runs to end, and taken are its lines. */
  ghost predicate IsBlock(t: seq<Entry>, e: nat, taken: set<nat>, end: nat)
    requires e < |t|
  {
    && e < end <= |t| && (forall p :: p in taken ==> e < p < end)
    && (forall p :: e < p < end ==> (p in taken <==> Belongs(t, e, taken, p)) && !EndsBlock(t, e, taken, p))
    && (end == |t| || EndsBlock(t, e, taken, end))
  }

  /** What is answered of a line taken: the message, or what stands behind the number. */
  ghost function TextAt(t: seq<Entry>, e: nat, taken: set<nat>, p: nat): string
    requires e < |t| && p < |t|
  {
    if t[p].NoEntry? then ""
    else if Own(t, e, taken, p) || Unsigned(t, p) then Message(t[p].dat)
    else if GoesOn(t, e, taken, p) then ContinuedText(t[p].dat, NumberAt(t, e, taken, p))
    else ""
  }

  /** The texts of the lines taken from p to end, in order. */
  ghost function Answers(t: seq<Entry>, e: nat, taken: set<nat>, p: nat, end: nat): seq<string>
    requires e < p <= end <= |t|
    decreases end - p
  {
    if p == end then [] else
    (if p in taken then [TextAt(t, e, taken, p)] else []) + Answers(t, e, taken, p + 1, end)
  }

  // --- what a line is depends on the lines in front of it ---------------------------------

  ghost predicate SameBefore(a: set<nat>, b: set<nat>, p: nat) { forall k :: k < p ==> (k in a <==> k in b) }

  lemma TargetAlike(t: seq<Entry>, e: nat, a: set<nat>, b: set<nat>, p: nat, k: nat)
    requires e < |t| && SameBefore(a, b, p) && k <= p
    ensures IsTarget(t, e, a, k) == IsTarget(t, e, b, k) && NothingTaken(a, k) == NothingTaken(b, k)
  {
    assert NothingTaken(a, k) ==> forall i :: i in b && i < k ==> i in a;
    assert NothingTaken(b, k) ==> forall i :: i in a && i < k ==> i in b;
  }

  lemma OwnAlike(t: seq<Entry>, e: nat, a: set<nat>, b: set<nat>, p: nat, k: nat)
    requires e < |t| && k < |t| && SameBefore(a, b, p) && k <= p
    ensures Own(t, e, a, k) == Own(t, e, b, k)
  {
    forall i: nat | i <= k
      ensures IsTarget(t, e, a, i) == IsTarget(t, e, b, i)
    {
      TargetAlike(t, e, a, b, p, i);
    }
    hide IsTarget;
  }

  lemma {:induction false} NumberAlike(t: seq<Entry>, e: nat, a: set<nat>, b: set<nat>, p: nat, k: nat)
    requires e < |t| && k <= |t| && SameBefore(a, b, p) && k <= p
    ensures NumberAt(t, e, a, k) == NumberAt(t, e, b, k)
    decreases k
  {
    hide Own, MessageNumber, Message;
    if k > e + 1 {
      NumberAlike(t, e, a, b, p, k - 1);
      OwnAlike(t, e, a, b, p, k - 1);
    }
  }

  lemma LineAlike(t: seq<Entry>, e: nat, a: set<nat>, b: set<nat>, p: nat, k: nat)
    requires e < |t| && k < |t| && SameBefore(a, b, p) && k <= p
    ensures GoesOn(t, e, a, k) == GoesOn(t, e, b, k) && Own(t, e, a, k) == Own(t, e, b, k)
    ensures NumberAt(t, e, a, k) == NumberAt(t, e, b, k)
    ensures Belongs(t, e, a, k) == Belongs(t, e, b, k) && EndsBlock(t, e, a, k) == EndsBlock(t, e, b, k)
  {
    hide Own, NumberAt, IsCommand, Continues;
    OwnAlike(t, e, a, b, p, k);
    NumberAlike(t, e, a, b, p, k);
    TargetAlike(t, e, a, b, p, k);
  }

  lemma {:induction false} AnswersAlike(t: seq<Entry>, e: nat, a: set<nat>, b: set<nat>, p: nat, end: nat)
    requires e < p <= end <= |t| && SameBefore(a, b, end)
    ensures Answers(t, e, a, p, end) == Answers(t, e, b, p, end)
    decreases end - p
  {
    hide Own, NumberAt, IsCommand, Continues, ContinuedText, Message;
    if p < end {
      LineAlike(t, e, a, b, end, p);
      AnswersAlike(t, e, a, b, p + 1, end);
    }
  }

  /** There is one block only. */
  lemma {:induction false} BlocksAgree(t: seq<Entry>, e: nat, a: set<nat>, m: nat, b: set<nat>, n: nat, p: nat)
    requires e < p && e < |t| && IsBlock(t, e, a, m) && IsBlock(t, e, b, n) && p <= m && p <= n
    ensures SameBefore(a, b, p)
    decreases p
  {
    hide Belongs, EndsBlock;
    if p > e + 1 {
      BlocksAgree(t, e, a, m, b, n, p - 1);
      LineAlike(t, e, a, b, p - 1, p - 1);
    }
  }

  lemma BlockUnique(t: seq<Entry>, e: nat, a: set<nat>, m: nat, b: set<nat>, n: nat)
    requires e < |t| && IsBlock(t, e, a, m) && IsBlock(t, e, b, n)
    ensures m == n && a == b
  {
    hide Belongs, EndsBlock;
    var p := if m <= n then m else n;
    BlocksAgree(t, e, a, m, b, n, p);
    if p < |t| {
      LineAlike(t, e, a, b, p, p);
    }
    assert m == n;
    assert forall k :: k in a <==> k in b;
  }

  // --- the walk finds it --------------------------------------------------------------------

  /** In front of p those lines are taken that belong, and none ends the block. */
  ghost predicate Listed(t: seq<Entry>, e: nat, taken: set<nat>, p: nat)
    requires e < |t|
  {
    && e < p <= |t| && (forall k :: k in taken ==> e < k < p)
    && (forall k :: e < k < p ==> (k in taken <==> Belongs(t, e, taken, k)) && !EndsBlock(t, e, taken, k))
  }

  /** What the walk carries of its source is what the lines in front of p make of it. */
  ghost predicate Sourced(t: seq<Entry>, e: nat, taken: set<nat>, p: nat, w: Walker)
    requires e < |t|
  {
    && (w.adopted <==> exists a: nat :: a < p && IsTarget(t, e, taken, a))
    && (!w.adopted ==> w.src == Issuer(t, e))
    && forall a: nat :: a < p && IsTarget(t, e, taken, a) ==> w.src == Issuer(t, a)
  }

  /** The walk has come to p. */
  ghost predicate Come(t: seq<Entry>, e: nat, taken: set<nat>, p: nat, w: Walker)
    requires e < |t|
  {
    && Listed(t, e, taken, p) && Sourced(t, e, taken, p, w)
    && w.num == NumberAt(t, e, taken, p) && (w.taken == 0 <==> taken == {})
  }

  /** The line comes from the answer's source: it carries that of the walk, or is adopted for it. */
  lemma OwnRead(t: seq<Entry>, e: nat, taken: set<nat>, p: nat, w: Walker)
    requires e < |t| && t[e].Line? && p < |t| && t[p].Line? && Come(t, e, taken, p, w)
    ensures var f := FactsOf(EchoOf(t[e]), w, t[p].dat);
            && (Own(t, e, taken, p) <==> f.own || Adopts(f))
            && (IsTarget(t, e, taken, p) <==> Adopts(f))
  {
    hide NumberAt, Belongs, EndsBlock, IsTarget, FactsOf, Foreign, Listed;
    var f := FactsOf(EchoOf(t[e]), w, t[p].dat);
    TargetRead(t, e, taken, p, w);
    OneTarget(t, e, taken);
    FactsRead(t, e, w, p);
    if IsTarget(t, e, taken, p) {
      TargetSent(t, e, taken, p);
      OwnFrom(t, e, taken, p, p);
    } else if w.adopted {
      var a: nat :| a < p && IsTarget(t, e, taken, a);
      OwnFrom(t, e, taken, a, p);
    }
  }

  /** Once there is a target, its lines are the answer's. */
  lemma OwnFrom(t: seq<Entry>, e: nat, taken: set<nat>, a: nat, p: nat)
    requires e < |t| && a <= p < |t| && IsTarget(t, e, taken, a)
    ensures Own(t, e, taken, p) <==> Sent(t, p, Issuer(t, a))
  {
    OneTarget(t, e, taken);
    hide IsTarget, Sent, Issuer;
  }

  lemma TargetSent(t: seq<Entry>, e: nat, taken: set<nat>, p: nat)
    requires e < |t| && IsTarget(t, e, taken, p)
    ensures Sent(t, p, Issuer(t, p))
  {
  }

  /** What the walk reads off a line. */
  lemma FactsRead(t: seq<Entry>, e: nat, w: Walker, p: nat)
    requires e < |t| && t[e].Line? && p < |t| && t[p].Line?
    ensures var f := FactsOf(EchoOf(t[e]), w, t[p].dat);
            && f.own == Sent(t, p, w.src) && f.issuer == Sent(t, p, Issuer(t, e)) && f.blank == Unsigned(t, p)
            && f.cont == Continues(t[p].dat, w.num) && f.long == (|t[p].dat| > 24)
            && (IsCommand(t, e, p) <==> (f.issuer || f.blank) && f.command)
  {
    hide Continues, SecsOfDay, Message, IsCommandShaped;
  }

  lemma OneTarget(t: seq<Entry>, e: nat, taken: set<nat>)
    requires e < |t|
    ensures forall a: nat, b: nat :: IsTarget(t, e, taken, a) && IsTarget(t, e, taken, b) ==> a == b
  {
    hide NothingTaken, Foreign;
  }

  /** Without a target so far nothing foreign has come by, or a line has been taken. */
  lemma {:induction false} NoneForeign(t: seq<Entry>, e: nat, taken: set<nat>, p: nat)
    requires e < p < |t| && NothingTaken(taken, p) && forall a: nat :: a < p ==> !IsTarget(t, e, taken, a)
    ensures forall k :: e < k < p ==> !Foreign(t, e, k)
    decreases p
  {
    hide Foreign;
    if p > e + 1 {
      NoneForeign(t, e, taken, p - 1);
      assert !IsTarget(t, e, taken, p - 1);
    }
  }

  lemma TargetRead(t: seq<Entry>, e: nat, taken: set<nat>, p: nat, w: Walker)
    requires e < |t| && t[e].Line? && p < |t| && t[p].Line? && Come(t, e, taken, p, w)
    ensures IsTarget(t, e, taken, p) <==> Adopts(FactsOf(EchoOf(t[e]), w, t[p].dat))
  {
    hide Belongs, EndsBlock, SecsOfDay, NumberAt;
    if w.taken == 0 && !w.adopted {
      NoneForeign(t, e, taken, p);
      NoNumber(t, e, taken, p);
    } else if w.adopted {
      var a: nat :| a < p && IsTarget(t, e, taken, a);
    } else {
      var k :| k in taken;
    }
  }

  lemma {:induction false} NoNumber(t: seq<Entry>, e: nat, taken: set<nat>, p: nat)
    requires e < p <= |t| && taken == {}
    ensures NumberAt(t, e, taken, p) == ""
    decreases p
  {
    hide Own, Message, MessageNumber;
    if p > e + 1 {
      NoNumber(t, e, taken, p - 1);
    }
  }

  /** What the walk carries behind p. */
  ghost function NextWalker(t: seq<Entry>, e: nat, taken: set<nat>, p: nat, w: Walker): Walker
    requires e < |t| && p < |t| && t[p].Line?
  {
    var n := MessageNumber(Message(t[p].dat));
    var v := if IsTarget(t, e, taken, p) then w.(src := Issuer(t, p), adopted := true) else w;
    if !Belongs(t, e, taken, p) then v
    else if n != "" && (Own(t, e, taken, p) || Unsigned(t, p)) then v.(taken := w.taken + 1, num := n)
    else v.(taken := w.taken + 1)
  }

  /** The decision on one line, by the account. */
  lemma DecisionTells(t: seq<Entry>, e: nat, taken: set<nat>, p: nat, w: Walker)
    requires e < |t| && t[e].Line? && p < |t| && t[p].Line? && Come(t, e, taken, p, w)
    ensures var f := FactsOf(EchoOf(t[e]), w, t[p].dat);
            var action := Decide(f, w.taken > 0);
            && (action == Ends <==> EndsBlock(t, e, taken, p))
            && (action == TakesContinued || action == TakesMessage <==>
                  Belongs(t, e, taken, p) && !EndsBlock(t, e, taken, p))
            && (action == TakesContinued ==> GoesOn(t, e, taken, p) && !Own(t, e, taken, p) && !Unsigned(t, p))
            && (action == TakesMessage ==> Own(t, e, taken, p) || Unsigned(t, p))
            && (action == Ends || action == Skips || action == TakesContinued ==> !Adopts(f) || action == Ends)
  {
    OwnRead(t, e, taken, p, w);
    FactsRead(t, e, w, p);
    NoneTakenYet(t, e, taken, p, w);
    hide FactsOf, IsTarget, IsCommand, Unsigned, Sent, Own, Continues, Foreign, NumberAt, NothingTaken, Listed, Sourced;
  }

  lemma NoneTakenYet(t: seq<Entry>, e: nat, taken: set<nat>, p: nat, w: Walker)
    requires e < |t| && Come(t, e, taken, p, w)
    ensures NothingTaken(taken, p) <==> w.taken == 0
  {
    if taken != {} {
      var k :| k in taken;
    }
  }

  /** Walker and account agree on one line. */
  lemma StepTells(t: seq<Entry>, e: nat, taken: set<nat>, p: nat, w: Walker)
    requires e < |t| && t[e].Line? && p < |t| && t[p].Line? && Come(t, e, taken, p, w)
    ensures var v := Step(EchoOf(t[e]), w, t[p]);
            && (v.Stop? <==> EndsBlock(t, e, taken, p))
            && (v.Take? <==> Belongs(t, e, taken, p) && !EndsBlock(t, e, taken, p))
            && (v.Take? ==> v.msg == TextAt(t, e, taken, p))
            && (!v.Stop? ==> v.w == NextWalker(t, e, taken, p, w))
  {
    hide FactsOf, IsTarget, Unsigned, MessageNumber, Message, ContinuedText, Continues, Belongs, EndsBlock, Decide, Own;
    hide NumberAt, Listed, Sourced;
    OwnRead(t, e, taken, p, w);
    DecisionTells(t, e, taken, p, w);
  }

  lemma ListedFurther(t: seq<Entry>, e: nat, taken: set<nat>, p: nat, all: set<nat>)
    requires e < |t| && p < |t| && Listed(t, e, taken, p) && !EndsBlock(t, e, taken, p)
    requires all == if Belongs(t, e, taken, p) then taken + {p} else taken
    ensures SameBefore(taken, all, p) && Listed(t, e, all, p + 1)
  {
    hide Belongs, EndsBlock;
    assert SameBefore(taken, all, p);
    forall k | e < k <= p
      ensures Belongs(t, e, all, k) == Belongs(t, e, taken, k) && EndsBlock(t, e, all, k) == EndsBlock(t, e, taken, k)
    {
      LineAlike(t, e, taken, all, p, k);
    }
    assert p !in taken;
  }

  lemma SourcedFurther(t: seq<Entry>, e: nat, taken: set<nat>, p: nat, all: set<nat>, w: Walker, v: Walker)
    requires e < |t| && p < |t| && SameBefore(taken, all, p) && Sourced(t, e, taken, p, w)
    requires if IsTarget(t, e, taken, p) then v.src == Issuer(t, p) && v.adopted
             else v.src == w.src && v.adopted == w.adopted
    ensures Sourced(t, e, all, p + 1, v)
  {
    hide IsTarget, Issuer;
    forall a: nat | a <= p
      ensures IsTarget(t, e, all, a) == IsTarget(t, e, taken, a)
    {
      TargetAlike(t, e, taken, all, p, a);
    }
    OneTarget(t, e, taken);
    if IsTarget(t, e, taken, p) {
      assert IsTarget(t, e, all, p);
    }
  }

  /** One line further. */
  lemma ComeFurther(t: seq<Entry>, e: nat, taken: set<nat>, p: nat, w: Walker)
    requires e < |t| && p < |t| && t[p].Line? && Come(t, e, taken, p, w) && !EndsBlock(t, e, taken, p)
    ensures var all := if Belongs(t, e, taken, p) then taken + {p} else taken;
            SameBefore(taken, all, p) && p !in taken && Come(t, e, all, p + 1, NextWalker(t, e, taken, p, w))
  {
    hide Belongs, EndsBlock, IsTarget, NumberAt, Message, MessageNumber, Own, Unsigned, Sourced;
    var all := if Belongs(t, e, taken, p) then taken + {p} else taken;
    ListedFurther(t, e, taken, p, all);
    SourcedFurther(t, e, taken, p, all, w, NextWalker(t, e, taken, p, w));
    NumberFurther(t, e, taken, all, p);
  }

  lemma NumberFurther(t: seq<Entry>, e: nat, taken: set<nat>, all: set<nat>, p: nat)
    requires e < p < |t| && t[p].Line? && SameBefore(taken, all, p)
    ensures var n := MessageNumber(Message(t[p].dat));
            NumberAt(t, e, all, p + 1) == if p in all && n != "" && (Own(t, e, taken, p) || Unsigned(t, p)) then n
                                          else NumberAt(t, e, taken, p)
  {
    hide Own, Message, MessageNumber;
    LineAlike(t, e, taken, all, p, p);
  }

  lemma ComeIs(t: seq<Entry>, e: nat, taken: set<nat>, p: nat, w: Walker)
    requires e < |t| && Come(t, e, taken, p, w) && (p == |t| || EndsBlock(t, e, taken, p))
    ensures IsBlock(t, e, taken, p)
  {
    hide Belongs, EndsBlock;
  }

  /** A slot without a line changes nothing. */
  lemma EmptySlot(t: seq<Entry>, e: nat, taken: set<nat>, p: nat, w: Walker)
    requires e < |t| && p < |t| && t[p].NoEntry? && Come(t, e, taken, p, w)
    ensures Come(t, e, taken, p + 1, w) && Step(EchoOf(t[e]), w, t[p]) == Pass(w) && p !in taken
  {
    assert !Belongs(t, e, taken, p) && !EndsBlock(t, e, taken, p) && !IsTarget(t, e, taken, p);
    assert NumberAt(t, e, taken, p + 1) == NumberAt(t, e, taken, p);
    hide Belongs, EndsBlock, IsTarget, NumberAt, Sourced;
    ListedFurther(t, e, taken, p, taken);
    SourcedFurther(t, e, taken, p, taken, w, w);
  }

  lemma TextAlike(t: seq<Entry>, e: nat, a: set<nat>, b: set<nat>, p: nat)
    requires e < |t| && p < |t| && SameBefore(a, b, p)
    ensures TextAt(t, e, a, p) == TextAt(t, e, b, p)
  {
    LineAlike(t, e, a, b, p, p);
    hide Own, NumberAt, Message;
  }

  /** One turn of the walk over the table cut behind p. */
  lemma CutStep(echo: Echo, w: Walker, t: seq<Entry>, p: nat)
    requires p <= |t|
    ensures forall m :: p < m <= |t| ==>
              (Block(echo, w, t[..m], p) ==
                match Step(echo, w, t[p])
                case Stop => []
                case Pass(v) => Block(echo, v, t[..m], p + 1)
                case Take(v, msg) => [msg] + Block(echo, v, t[..m], p + 1))
    ensures Block(echo, w, t[..p], p) == []
  {
    hide Step;
    forall m | p < m <= |t|
      ensures t[..m][p] == t[p]
    {
    }
  }

  lemma {:induction false} Walked(t: seq<Entry>, e: nat, taken: set<nat>, p: nat, w: Walker)
      returns (all: set<nat>, end: nat)
    requires e < p <= |t| && t[e].Line? && Come(t, e, taken, p, w)
    ensures IsBlock(t, e, all, end) && SameBefore(taken, all, p) && p <= end
    ensures Block(EchoOf(t[e]), w, t, p) == Answers(t, e, all, p, end)
    ensures forall m :: end <= m <= |t| ==> Block(EchoOf(t[e]), w, t[..m], p) == Block(EchoOf(t[e]), w, t, p)
    decreases |t| - p
  {
    hide Step, Belongs, EndsBlock, TextAt, EchoOf, NextWalker, Come;
    BlockStep(EchoOf(t[e]), w, t, p);
    CutStep(EchoOf(t[e]), w, t, p);
    hide Block;
    if p == |t| {
      all, end := taken, p;
      ComeIs(t, e, taken, p, w);
    } else if t[p].NoEntry? {
      EmptySlot(t, e, taken, p, w);
      all, end := Walked(t, e, taken, p + 1, w);
    } else {
      StepTells(t, e, taken, p, w);
      if EndsBlock(t, e, taken, p) {
        all, end := taken, p;
        ComeIs(t, e, taken, p, w);
      } else {
        ComeFurther(t, e, taken, p, w);
        var more := if Belongs(t, e, taken, p) then taken + {p} else taken;
        all, end := Walked(t, e, more, p + 1, NextWalker(t, e, taken, p, w));
        LineAlike(t, e, taken, all, p, p);
        TextAlike(t, e, taken, all, p);
      }
    }
  }

  /** Every echo has a block. */
  lemma BlockExists(t: seq<Entry>, e: nat) returns (taken: set<nat>, end: nat)
    requires e < |t| && t[e].Line?
    ensures IsBlock(t, e, taken, end)
    ensures LinesAfter(t, e) == Answers(t, e, taken, e + 1, end)
    ensures forall m :: end <= m <= |t| ==> LinesAfter(t[..m], e) == LinesAfter(t, e)
  {
    hide Belongs, EndsBlock, Block, Answers, IsTarget, NumberAt;
    var w := Walker(EchoOf(t[e]).issuer, "", 0, false);
    ComeFirst(t, e, w);
    taken, end := Walked(t, e, {}, e + 1, w);
  }

  /** The walk behind an echo answers the lines of its block. */
  lemma BlockAnswered(t: seq<Entry>, e: nat, taken: set<nat>, end: nat)
    requires e < |t| && t[e].Line? && IsBlock(t, e, taken, end)
    ensures LinesAfter(t, e) == Answers(t, e, taken, e + 1, end)
  {
    hide IsBlock, LinesAfter, Answers;
    var all, n := BlockExists(t, e);
    BlockUnique(t, e, all, n, taken, end);
  }

  /** And reads nothing from its end on. */
  lemma NothingBehind(t: seq<Entry>, e: nat, taken: set<nat>, end: nat, m: nat)
    requires e < |t| && t[e].Line? && IsBlock(t, e, taken, end) && end <= m <= |t|
    ensures e < m && LinesAfter(t[..m], e) == LinesAfter(t, e)
  {
    hide LinesAfter, Answers, Belongs, EndsBlock;
    var all, n := BlockExists(t, e);
    BlockUnique(t, e, all, n, taken, end);
  }

  lemma ComeFirst(t: seq<Entry>, e: nat, w: Walker)
    requires e < |t| && t[e].Line? && w == Walker(EchoOf(t[e]).issuer, "", 0, false)
    ensures Come(t, e, {}, e + 1, w)
  {
    hide Belongs, EndsBlock;
  }

  /** The issuer's next command ends the block, if it does not go on with a message: nothing from it on is answered. */
  lemma CommandEnds(t: seq<Entry>, e: nat, taken: set<nat>, end: nat, j: nat)
    requires e < j < |t| && t[e].Line? && IsBlock(t, e, taken, end)
    requires Sent(t, j, Issuer(t, e)) && IsCommand(t, e, j) && !GoesOn(t, e, taken, j)
    ensures end <= j && LinesAfter(t, e) == LinesAfter(t[..j], e)
  {
    EndIs(t, e, taken, end, j);
    hide EndsBlock, IsBlock, LinesAfter;
    NothingBehind(t, e, taken, end, j);
  }

  lemma EndIs(t: seq<Entry>, e: nat, taken: set<nat>, end: nat, j: nat)
    requires e < j < |t| && IsBlock(t, e, taken, end) && EndsBlock(t, e, taken, j)
    ensures end <= j
  {
    hide EndsBlock, Belongs;
  }

  /** So does a line from elsewhere, once a line has been taken. */
  lemma StrangerEnds(t: seq<Entry>, e: nat, taken: set<nat>, end: nat, j: nat)
    requires e < j < |t| && t[e].Line? && IsBlock(t, e, taken, end) && t[j].Line?
    requires !NothingTaken(taken, j) && !Own(t, e, taken, j) && !Unsigned(t, j) && !GoesOn(t, e, taken, j)
    ensures end <= j && LinesAfter(t, e) == LinesAfter(t[..j], e)
  {
    EndIs(t, e, taken, end, j);
    hide EndsBlock, IsBlock, LinesAfter;
    NothingBehind(t, e, taken, end, j);
  }

  // --- two commands --------------------------------------------------------------------------

  /** A line from src that holds a message. */
  predicate Said(dat: string, src: string) { |dat| > 24 && dat[14..22] == src }

  /** An echo, replies to it, and the next command from the same source, anywhere in a table. */
  function TwoEchoes(front: seq<Entry>, echo: string, replies: seq<string>, next: string, rest: seq<Entry>)
      : (t: seq<Entry>)
    ensures |t| == |front| + 1 + |replies| + 1 + |rest|
    ensures t[|front|] == Line(echo) && t[|front| + 1 + |replies|] == Line(next)
    ensures forall i :: 0 <= i < |replies| ==> t[|front| + 1 + i] == Line(replies[i])
  {
    var lines := seq(|replies|, i requires 0 <= i < |replies| => Line(replies[i]));
    front + [Line(echo)] + lines + [Line(next)] + rest
  }

  function Messages(dats: seq<string>): seq<string>
  {
    if dats == [] then [] else [Message(dats[0])] + Messages(dats[1..])
  }

  /** The replies between two commands of one source, no more and no less, answer the first. */
  lemma TwoCommands(front: seq<Entry>, echo: string, replies: seq<string>, next: string, rest: seq<Entry>, src: string)
    requires Said(echo, src) && src != "        "
    requires forall i :: 0 <= i < |replies| ==>
               && Said(replies[i], src) && !IsCommandShaped(Message(replies[i]))
               && MessageNumber(Message(replies[i])) == ""
    requires Said(next, src) && IsCommandShaped(Message(next))
    ensures LinesAfter(TwoEchoes(front, echo, replies, next, rest), |front|) == Messages(replies)
  {
    Arranged(front, echo, replies, next, rest, src);
    hide TwoEchoes, LinesAfter, Replied;
    RepliesAnswer(TwoEchoes(front, echo, replies, next, rest), |front|, |replies|, replies, src);
  }

  lemma RepliesAnswer(t: seq<Entry>, e: nat, n: nat, replies: seq<string>, src: string)
    requires e < |t| && Replied(t, e, n, replies, src)
    ensures LinesAfter(t, e) == Messages(replies)
  {
    hide LinesAfter, IsBlock, Answers, Between, Said, IsCommandShaped, Message, MessageNumber, Messages;
    RepliesTaken(t, e, n, replies, src);
    RepliesAnswered(t, e, n, replies, src, 0);
    BlockAnswered(t, e, Between(e, n), e + 1 + n);
    assert replies[0..] == replies;
  }

  /** The entries behind e are the replies, and then comes a command of that source. */
  predicate Replied(t: seq<Entry>, e: nat, n: nat, replies: seq<string>, src: string)
  {
    && e + 1 + n < |t| && |replies| == n && src != "        "
    && t[e].Line? && Said(t[e].dat, src)
    && (forall i :: 0 <= i < n ==>
          t[e + 1 + i] == Line(replies[i]) && Said(replies[i], src)
          && !IsCommandShaped(Message(replies[i])) && MessageNumber(Message(replies[i])) == "")
    && t[e + 1 + n].Line? && Said(t[e + 1 + n].dat, src) && IsCommandShaped(Message(t[e + 1 + n].dat))
  }

  lemma Arranged(front: seq<Entry>, echo: string, replies: seq<string>, next: string, rest: seq<Entry>, src: string)
    requires Said(echo, src) && src != "        "
    requires forall i :: 0 <= i < |replies| ==>
               && Said(replies[i], src) && !IsCommandShaped(Message(replies[i]))
               && MessageNumber(Message(replies[i])) == ""
    requires Said(next, src) && IsCommandShaped(Message(next))
    ensures Replied(TwoEchoes(front, echo, replies, next, rest), |front|, |replies|, replies, src)
  {
    hide TwoEchoes, Message, MessageNumber, IsCommandShaped, Said;
  }

  function Between(e: nat, n: nat): (s: set<nat>)
    ensures forall k: nat :: k in s <==> e < k <= e + n
  {
    if n == 0 then {} else Between(e, n - 1) + {e + n}
  }

  lemma {:induction false} NoneInForce(t: seq<Entry>, e: nat, n: nat, replies: seq<string>, src: string, p: nat)
    requires Replied(t, e, n, replies, src) && p <= e + 1 + n
    ensures NumberAt(t, e, Between(e, n), p) == ""
    decreases p
  {
    hide Message, MessageNumber, IsCommandShaped, Own;
    if p > e + 1 {
      NoneInForce(t, e, n, replies, src, p - 1);
      assert t[p - 1] == Line(replies[p - 1 - e - 1]);
    }
  }

  lemma ReplyOwn(t: seq<Entry>, e: nat, n: nat, replies: seq<string>, src: string, p: nat)
    requires Replied(t, e, n, replies, src) && e < p <= e + 1 + n
    ensures Own(t, e, Between(e, n), p) && t[p].Line? && Said(t[p].dat, src)
    ensures !GoesOn(t, e, Between(e, n), p) && Sent(t, p, Issuer(t, e))
    ensures IsCommand(t, e, p) <==> p == e + 1 + n
  {
    hide Message, MessageNumber, IsCommandShaped;
    ReplySent(t, e, n, replies, src, p);
    NoneInForce(t, e, n, replies, src, p);
    NoTarget(t, e, n, replies, src, p);
    hide Between, IsTarget, Foreign, NumberAt;
  }

  lemma ReplySent(t: seq<Entry>, e: nat, n: nat, replies: seq<string>, src: string, p: nat)
    requires Replied(t, e, n, replies, src) && e < p <= e + 1 + n
    ensures t[p].Line? && Said(t[p].dat, src) && Sent(t, p, Issuer(t, e))
    ensures IsCommandShaped(Message(t[p].dat)) <==> p == e + 1 + n
  {
    hide Message, MessageNumber, IsCommandShaped;
    if p <= e + n {
      assert t[p] == Line(replies[p - e - 1]);
    }
  }

  lemma NoTarget(t: seq<Entry>, e: nat, n: nat, replies: seq<string>, src: string, p: nat)
    requires Replied(t, e, n, replies, src) && e < p <= e + 1 + n
    ensures forall a: nat :: a <= p ==> !IsTarget(t, e, Between(e, n), a)
  {
    ReplySent(t, e, n, replies, src, e + 1);
    hide Replied;
    assert !Foreign(t, e, e + 1);
    assert n > 0 ==> e + 1 in Between(e, n);
    hide Foreign;
  }

  lemma RepliesTaken(t: seq<Entry>, e: nat, n: nat, replies: seq<string>, src: string)
    requires Replied(t, e, n, replies, src)
    ensures IsBlock(t, e, Between(e, n), e + 1 + n)
  {
    hide Message, MessageNumber, IsCommandShaped;
    forall p | e < p <= e + n
      ensures Belongs(t, e, Between(e, n), p) && !EndsBlock(t, e, Between(e, n), p)
    {
      ReplyOwn(t, e, n, replies, src, p);
    }
    ReplyOwn(t, e, n, replies, src, e + 1 + n);
    hide Belongs, Own, GoesOn, IsCommand, Replied, NothingTaken;
  }

  lemma {:induction false} RepliesAnswered(t: seq<Entry>, e: nat, n: nat, replies: seq<string>, src: string, i: nat)
    requires Replied(t, e, n, replies, src) && i <= n
    ensures Answers(t, e, Between(e, n), e + 1 + i, e + 1 + n)
         == Messages(replies[i..])
    decreases n - i
  {
    hide Message, MessageNumber, IsCommandShaped;
    if i < n {
      ReplyOwn(t, e, n, replies, src, e + 1 + i);
      RepliesAnswered(t, e, n, replies, src, i + 1);
      assert t[e + 1 + i] == Line(replies[i]);
      hide Own, NumberAt;
      assert TextAt(t, e, Between(e, n), e + 1 + i) == Message(replies[i]);
      assert e + 1 + i in Between(e, n);
      assert replies[i..][0] == replies[i] && replies[i..][1..] == replies[i + 1..];
    }
  }

  // --- the texts of a line ---------------------------------------------------------------------

  /** The message is what stands behind the 24 columns, its last blanks aside. */
  lemma MessageRead(columns: string, text: string, blanks: string)
    requires |columns| == 24 && text != "" && text[|text| - 1] != ' '
    requires forall i :: 0 <= i < |blanks| ==> blanks[i] == ' '
    ensures Message(columns + text + blanks) == text
  {
    var dat := columns + text + blanks;
    assert dat[24..] == text + blanks;
    TrimmedOff(text, blanks);
  }

  /** A message is shaped like a command exactly if its first word shows no digit. */
  lemma ShapeRead(word: string, rest: string)
    requires ' ' !in word && (rest == "" || rest[0] == ' ')
    ensures IsCommandShaped(word + rest) <==>
              word + rest != "" && forall i :: 0 <= i < |word| ==> word[i] !in "0123456789"
  {
    var msg := word + rest;
    forall i | 0 <= i < |word|
      ensures ' ' !in msg[..i + 1] && msg[i] == word[i] && (IsDigit(word[i]) <==> word[i] in "0123456789")
    {
      assert forall k :: 0 <= k <= i ==> msg[..i + 1][k] == word[k];
      DigitSpelled(word[i]);
    }
    forall i | |word| <= i < |msg|
      ensures msg[i] == ' ' || ' ' in msg[..i + 1]
    {
      assert msg[..i + 1][|word|] == rest[0];
    }
  }

  lemma DigitSpelled(c: char)
    ensures IsDigit(c) <==> c in "0123456789"
  {
    if '0' <= c <= '9' {
      DigitShown(c as int - '0' as int);
      assert c == "0123456789"[c as int - '0' as int];
    }
  }

  predicate Digits(s: string) { forall i :: 0 <= i < |s| ==> '0' <= s[i] <= '9' }

  /** A message shows a number exactly if its last word is one of up to eleven digits. */
  lemma NumberRead(front: string, word: string)
    requires front == "" || front[|front| - 1] == ' '
    requires forall i :: 0 <= i < |word| ==> word[i] != ' '
    ensures MessageNumber(front + word) == if 0 < |word| <= 11 && Digits(word) then word else ""
  {
    var msg := front + word;
    TokenIs(msg, |front|, |msg|);
    assert msg[|front|..] == word;
  }

  lemma {:induction false} TokenIs(s: string, k: nat, end: nat)
    requires k <= end <= |s| && (k == 0 || s[k - 1] == ' ') && forall i :: k <= i < end ==> s[i] != ' '
    ensures TokenStart(s, end) == k
    decreases end
  {
    if k < end {
      TokenIs(s, k, end - 1);
    }
  }

  predicate AllBlank(s: string) { forall i :: 0 <= i < |s| ==> s[i] == ' ' }

  predicate Trimmed(s: string) { s == "" || (s[0] != ' ' && s[|s| - 1] != ' ') }

  /** A line that goes on with a message answers what stands behind the number and the blanks around it. */
  lemma ContinuedRead(before: string, num: string, between: string, text: string, behind: string)
    requires num != "" && Digits(num) && Trimmed(text)
    requires AllBlank(before) && AllBlank(between) && AllBlank(behind)
    ensures var dat := before + (num + (between + (text + behind)));
            Continues(dat, num) && ContinuedText(dat, num) == text
  {
    var tail := between + (text + behind);
    var dat := before + (num + tail);
    assert num[0] != ' ';
    NumberStands(before, num, tail);
    hide TrimRight, BlanksEnd, AllBlank, Trimmed, Digits;
    assert BlanksEnd(dat, 0) == |before| by { BlanksPassed(before, num + tail); }
    assert Continues(dat, num);
    hide Continues;
    TextBehind(dat, before, num, between, text, behind);
  }

  lemma TextBehind(dat: string, before: string, num: string, between: string, text: string, behind: string)
    requires Trimmed(text) && AllBlank(between) && AllBlank(behind)
    requires dat == (before + num) + (between + (text + behind)) && BlanksEnd(dat, 0) == |before| && Continues(dat, num)
    ensures ContinuedText(dat, num) == text
  {
    hide TrimRight, BlanksEnd, AllBlank, Trimmed, Continues;
    TailRead(before + num, between, text, behind);
  }

  lemma NumberStands(before: string, num: string, tail: string)
    ensures var dat := before + (num + tail);
            dat[|before|..|before| + |num|] == num && dat == before + num + tail
  {
  }

  /** Blanks in front are passed over. */
  lemma BlanksPassed(before: string, rest: string)
    requires AllBlank(before) && (rest == "" || rest[0] != ' ')
    ensures BlanksEnd(before + rest, 0) == |before|
  {
    BlanksEndIs(before + rest, 0, |before|);
  }

  lemma TailRead(front: string, between: string, text: string, behind: string)
    requires Trimmed(text) && AllBlank(between) && AllBlank(behind)
    ensures var dat := front + (between + (text + behind));
            TrimRight(dat[BlanksEnd(dat, |front|)..]) == text
  {
    var dat := front + (between + (text + behind));
    hide TrimRight, BlanksEnd;
    if text == "" {
      BlankTail(dat, |front|);
    } else {
      var k := |front| + |between|;
      assert dat[k] == text[0];
      BlanksEndIs(dat, |front|, k);
      assert dat[k..] == text + behind;
      TrimmedOff(text, behind);
    }
  }

  lemma BlankTail(dat: string, p: nat)
    requires p <= |dat| && forall i :: p <= i < |dat| ==> dat[i] == ' '
    ensures TrimRight(dat[BlanksEnd(dat, p)..]) == ""
  {
    BlanksEndIs(dat, p, |dat|);
    assert dat[|dat|..] == "";
  }

  lemma {:induction false} BlanksEndIs(s: string, p: nat, q: nat)
    requires p <= q <= |s| && (forall i :: p <= i < q ==> s[i] == ' ') && (q < |s| ==> s[q] != ' ')
    ensures BlanksEnd(s, p) == q
    decreases q - p
  {
    if p < q {
      BlanksEndIs(s, p + 1, q);
    }
  }

  /** Without a second the newest echo is found, with one the oldest that carries it. */
  lemma EchoFound(t: seq<Entry>, cmd: string, want: int)
    ensures var k := FindEcho(t, cmd, want);
            if want < 0 then
              (k >= 0 ==> IsEcho(t[k], cmd)) && forall i :: k < i < |t| ==> !IsEcho(t[i], cmd)
            else
              var end := if k >= 0 then k else |t|;
              && (k >= 0 ==> IsEcho(t[k], cmd) && Stamp(t[k]) == want)
              && forall i :: 0 <= i < end ==> !(IsEcho(t[i], cmd) && Stamp(t[i]) == want)
    ensures SecsOfEcho(t, cmd, want) == if FindEcho(t, cmd, want) < 0 then -1 else Stamp(t[FindEcho(t, cmd, want)])
  {
    hide IsEcho;
    NewestFound(t, cmd, |t|);
    OldestFound(t, cmd, want, 0);
  }

  lemma {:induction false} NewestFound(t: seq<Entry>, cmd: string, n: nat)
    requires n <= |t|
    ensures var k := NewestEcho(t, cmd, n);
            (k >= 0 ==> IsEcho(t[k], cmd)) && forall i :: k < i < n ==> !IsEcho(t[i], cmd)
    decreases n
  {
    hide IsEcho;
    if n > 0 {
      NewestFound(t, cmd, n - 1);
    }
  }

  lemma {:induction false} OldestFound(t: seq<Entry>, cmd: string, want: int, from: nat)
    requires from <= |t|
    ensures want >= 0 ==>
              var k := OldestEcho(t, cmd, want, from);
              var end := if k >= 0 then k else |t|;
              && (k >= 0 ==> IsEcho(t[k], cmd) && Stamp(t[k]) == want)
              && forall i :: from <= i < end ==> !(IsEcho(t[i], cmd) && Stamp(t[i]) == want)
    decreases |t| - from
  {
    hide SecsOfDay, Message;
    if want >= 0 && from < |t| {
      OldestFound(t, cmd, want, from + 1);
    }
  }

  /** A line is the echo of a command if its message is that command, blanks at the ends aside. */
  lemma EchoRead(columns: string, cmd: string, blanks: string)
    requires |columns| == 24 && cmd != "" && cmd[|cmd| - 1] != ' '
    requires forall i :: 0 <= i < |blanks| ==> blanks[i] == ' '
    ensures forall other :: IsEcho(Line(columns + cmd + blanks), other) <==> TrimRight(other) == cmd
  {
    MessageRead(columns, cmd, blanks);
  }
}
