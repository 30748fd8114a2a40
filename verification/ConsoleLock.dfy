// The console correlation lock: which interleavings of acquire, issue, poll,
// release and abend the protocol of src/consapi.c and the recovery of
// src/router.c admit. Any number of workers; one ENQ, held by a task.
module ConsoleLock {
  import opened Wrappers

  const TRIES := 50

  /**
   * Where a worker stands in a console request. Got and Releasing lie between
   * the ENQ or DEQ and the record of it in the session; Unwinding lies between
   * the two in the recovery.
   */
  datatype Place =
    | Idle
    | Entered
    | Trying(tries: nat)
    | Got
    | Locked
    | Open        // the command is issued, its response bracket is open
    | Releasing
    | Tail
    | Abended
    | Unwinding

  /** recorded is session->console_lock. */
  datatype Worker = Worker(at: Place, recorded: bool)

  /** context: httpd keeps a context block to ENQ on. */
  datatype State = State(context: bool, holder: Option<nat>, workers: seq<Worker>)

  datatype Event =
    | Start                  // a request arrives, its session cleared
    | Refuse                 // the server is going down: nothing is issued
    | Try                    // one trylock()
    | Record                 // session->console_lock = anchor
    | Issue                  // SVC 34
    | Poll                   // any look at the table
    | Leave                  // console_lock_release(): the record is cleared
    | Unlock                 // and then the ENQ
    | Finish                 // the request ends
    | Abend                  // anywhere in the handler
    | Cleanup                // session_cleanup() reaches the lock
    | Unwind(works: bool)    // its protected DEQ, which may abend in turn

  function Initial(context: bool, n: nat): State
  {
    State(context, None, seq(n, i => Worker(Idle, false)))
  }

  function Put(s: State, w: nat, at: Place): State
    requires w < |s.workers|
  {
    s.(workers := s.workers[w := s.workers[w].(at := at)])
  }

  function Mark(s: State, w: nat, at: Place, recorded: bool): State
    requires w < |s.workers|
  {
    s.(workers := s.workers[w := Worker(at, recorded)])
  }

  /** One step of worker w; an event that cannot happen there changes nothing. */
  function After(s: State, w: nat, ev: Event): State
  {
    if w >= |s.workers| then s else
    var worker := s.workers[w];
    match (worker.at, ev)
    case (Idle, Start) => Mark(s, w, Entered, false)
    case (Idle, _) => s
    case (Abended, Cleanup) => if worker.recorded then Mark(s, w, Unwinding, false) else Put(s, w, Idle)
    case (Abended, _) => s
    case (Unwinding, Unwind(works)) => Put(if works then s.(holder := None) else s, w, Idle)
    case (Unwinding, _) => s
    case (_, Abend) => Put(s, w, Abended)
    case (Entered, Refuse) => Put(s, w, Tail)
    case (Entered, Try) => Put(s, w, Trying(0))
    case (Trying(k), Refuse) => if s.context then Put(s, w, Tail) else s
    case (Trying(k), Try) =>
      if !s.context then Put(s, w, Locked)                             // nothing to ENQ on: unserialized
      else if k >= TRIES then Put(s, w, Tail)                          // 429
      else if s.holder.None? then Put(s.(holder := Some(w)), w, Got)
      else Put(s, w, Trying(k + 1))
    case (Got, Record) => Mark(s, w, Locked, true)
    case (Locked, Issue) => Put(s, w, Open)
    case (Open, Poll) => s
    case (Open, Leave) => if worker.recorded then Mark(s, w, Releasing, false) else Put(s, w, Tail)
    case (Releasing, Unlock) => Put(s.(holder := None), w, Tail)
    case (Tail, Poll) => s
    case (Tail, Finish) => Put(s, w, Idle)
    case (_, _) => s
  }

  /** An abend that strikes between an ENQ or DEQ and its record, or a DEQ of the recovery that fails. */
  predicate Leaks(s: State, w: nat, ev: Event)
  {
    w < |s.workers| &&
    var at := s.workers[w].at;
    (ev.Abend? && (at.Got? || at.Releasing?)) || (at.Unwinding? && ev == Unwind(false))
  }

  /** One interleaving: which worker does what, in order. */
  type Run = seq<(nat, Event)>

  function Reached(s: State, run: Run): State
    decreases |run|
  {
    if run == [] then s else Reached(After(s, run[0].0, run[0].1), run[1..])
  }

  predicate AnyLeak(s: State, run: Run)
    decreases |run|
  {
    run != [] && (Leaks(s, run[0].0, run[0].1) || AnyLeak(After(s, run[0].0, run[0].1), run[1..]))
  }

  // --- what every step keeps -----------------------------------------------------------

  /** A worker that has the ENQ and will give it back if nothing more goes wrong. */
  predicate Owns(worker: Worker)
  {
    match worker.at
    case Got => true
    case Locked => worker.recorded
    case Open => worker.recorded
    case Releasing => true
    case Unwinding => true
    case Abended => worker.recorded
    case _ => false
  }

  ghost predicate Consistent(s: State)
  {
    && (forall w :: 0 <= w < |s.workers| && Owns(s.workers[w]) ==> s.holder == Some(w))
    && (forall w :: 0 <= w < |s.workers| && s.workers[w].recorded ==>
          s.workers[w].at.Locked? || s.workers[w].at.Open? || s.workers[w].at.Abended?)
    && (s.context ==>
          forall w :: 0 <= w < |s.workers| && (s.workers[w].at.Locked? || s.workers[w].at.Open?) ==>
              s.workers[w].recorded)
    && (!s.context ==> s.holder == None)
  }

  /** Whoever holds the ENQ still owns it. */
  ghost predicate Sound(s: State)
  {
    s.holder.Some? ==> s.holder.value < |s.workers| && Owns(s.workers[s.holder.value])
  }

  lemma OthersUntouched(s: State, w: nat, ev: Event)
    ensures var t := After(s, w, ev);
            && |t.workers| == |s.workers| && t.context == s.context
            && (forall v :: 0 <= v < |s.workers| && v != w ==> t.workers[v] == s.workers[v])
            && (w >= |s.workers| ==> t == s)
  {
  }

  /** What a step does to the worker that takes it, and to the ENQ. */
  lemma OwnStep(s: State, w: nat, ev: Event)
    requires w < |s.workers| && Consistent(s)
    ensures var t := After(s, w, ev);
            && |t.workers| == |s.workers|
            && (Owns(t.workers[w]) ==> t.holder == Some(w))
            && (t.workers[w].recorded ==> t.workers[w].at.Locked? || t.workers[w].at.Open? || t.workers[w].at.Abended?)
            && (s.context && (t.workers[w].at.Locked? || t.workers[w].at.Open?) ==> t.workers[w].recorded)
            && (!s.context ==> t.holder == None)
  {
  }

  /** The ENQ changes hands only from free to the stepping worker and back. */
  lemma HolderStep(s: State, w: nat, ev: Event)
    requires w < |s.workers| && Consistent(s)
    ensures var t := After(s, w, ev);
            && |t.workers| == |s.workers|
            && (t.holder == s.holder
                || (s.holder == None && t.holder == Some(w) && Owns(t.workers[w]) && !Leaks(s, w, ev))
                || (s.holder == Some(w) && Owns(s.workers[w]) && t.holder == None && !Leaks(s, w, ev)))
            && (t.holder == s.holder == Some(w) && Owns(s.workers[w]) ==> (Owns(t.workers[w]) <==> !Leaks(s, w, ev)))
            && (s.holder != Some(w) ==> !Leaks(s, w, ev))
            && (Leaks(s, w, ev) ==> Owns(s.workers[w]))
            && (s.holder == Some(w) && !Owns(s.workers[w]) ==> !Owns(t.workers[w]))
  {
  }

  lemma StepKeeps(s: State, w: nat, ev: Event)
    requires Consistent(s)
    ensures Consistent(After(s, w, ev))
    ensures Sound(s) ==> (Sound(After(s, w, ev)) <==> !Leaks(s, w, ev))
    ensures !Sound(s) ==> !Sound(After(s, w, ev)) && After(s, w, ev).holder == s.holder
    ensures |After(s, w, ev).workers| == |s.workers| && After(s, w, ev).context == s.context
  {
    hide After, Owns, Leaks;
    OthersUntouched(s, w, ev);
    if w < |s.workers| {
      OwnStep(s, w, ev);
      HolderStep(s, w, ev);
    } else {
      NobodyLeaks(s, w, ev);
    }
  }

  lemma NobodyLeaks(s: State, w: nat, ev: Event)
    requires w >= |s.workers|
    ensures !Leaks(s, w, ev)
  {
  }

  lemma {:induction false} RunKeeps(s: State, run: Run)
    requires Consistent(s)
    ensures Consistent(Reached(s, run))
    ensures Sound(s) ==> (Sound(Reached(s, run)) <==> !AnyLeak(s, run))
    ensures !Sound(s) ==> !Sound(Reached(s, run)) && Reached(s, run).holder == s.holder
    ensures |Reached(s, run).workers| == |s.workers| && Reached(s, run).context == s.context
    decreases |run|
  {
    hide After, Leaks, Consistent, Sound;
    if run != [] {
      StepKeeps(s, run[0].0, run[0].1);
      RunKeeps(After(s, run[0].0, run[0].1), run[1..]);
    }
  }

  lemma StartsWell(context: bool, n: nat)
    ensures Consistent(Initial(context, n)) && Sound(Initial(context, n))
  {
  }

  // --- the promises, over every interleaving with abends anywhere ------------------------

  /** At most one session has the lock recorded, and only while that session holds the ENQ. */
  lemma AtMostOneRecorded(context: bool, n: nat, run: Run, w: nat, v: nat)
    requires w < n && v < n
    ensures var s := Reached(Initial(context, n), run);
            && |s.workers| == n
            && (s.workers[w].recorded ==> s.holder == Some(w))
            && (s.workers[w].recorded && s.workers[v].recorded ==> w == v)
  {
    StartsWell(context, n);
    RunKeeps(Initial(context, n), run);
  }

  /** No two commands' response brackets are ever open at once. */
  lemma BracketsNeverOverlap(n: nat, run: Run, w: nat, v: nat)
    requires w < n && v < n
    ensures var s := Reached(Initial(true, n), run);
            && |s.workers| == n
            && (s.workers[w].at.Open? && s.workers[v].at.Open? ==> w == v)
  {
    StartsWell(true, n);
    RunKeeps(Initial(true, n), run);
  }

  /** A request that has finished or been recovered leaves nothing recorded. */
  lemma FinishedIsClear(context: bool, n: nat, run: Run, w: nat)
    requires w < n
    ensures var s := Reached(Initial(context, n), run);
            |s.workers| == n && (s.workers[w].at.Idle? ==> !s.workers[w].recorded)
  {
    StartsWell(context, n);
    RunKeeps(Initial(context, n), run);
  }

  /** In no worker is the record behind the ENQ: none is between the two. */
  predicate Settled(s: State)
  {
    forall w :: 0 <= w < |s.workers| ==>
      !s.workers[w].at.Got? && !s.workers[w].at.Releasing? && !s.workers[w].at.Unwinding?
  }

  /**
   * The record is exact if and only if no abend ever fell between an ENQ or DEQ and
   * its record: then, at every settled moment, the session that holds the ENQ is the
   * one that has it recorded, and with all requests over the ENQ is free.
   */
  lemma RecordExact(context: bool, n: nat, run: Run)
    ensures var s := Reached(Initial(context, n), run);
            && |s.workers| == n
            && (Settled(s) ==>
                  (!AnyLeak(Initial(context, n), run) <==>
                   forall w: nat :: s.holder == Some(w) ==> w < n && s.workers[w].recorded))
            && ((forall w :: 0 <= w < n ==> s.workers[w].at.Idle?) ==>
                  (s.holder == None <==> !AnyLeak(Initial(context, n), run)))
  {
    StartsWell(context, n);
    RunKeeps(Initial(context, n), run);
    var s := Reached(Initial(context, n), run);
    if s.holder.Some? && s.holder.value < n {
      assert Owns(s.workers[s.holder.value]) || !Sound(s);
    }
  }

  /** One leaked ENQ closes the console for good: no command is ever issued again. */
  lemma LeakIsForEver(n: nat, run: Run, more: Run, w: nat)
    requires w < n && AnyLeak(Initial(true, n), run)
    ensures var s := Reached(Reached(Initial(true, n), run), more);
            && |s.workers| == n
            && s.holder.Some? && s.holder == Reached(Initial(true, n), run).holder
            && !s.workers[w].at.Open?
  {
    StartsWell(true, n);
    RunKeeps(Initial(true, n), run);
    RunKeeps(Reached(Initial(true, n), run), more);
  }

  lemma ReachedSnoc(s: State, run: Run, w: nat, ev: Event)
    ensures Reached(s, run + [(w, ev)]) == After(Reached(s, run), w, ev)
    decreases |run|
  {
    hide After;
    if run == [] {
      assert ([] + [(w, ev)])[1..] == [];
    } else {
      assert (run + [(w, ev)])[1..] == run[1..] + [(w, ev)];
      ReachedSnoc(After(s, run[0].0, run[0].1), run[1..], w, ev);
    }
  }

  /** The window is real: an abend right behind the ENQ leaves it held with the worker idle again. */
  lemma LeakWitness() returns (run: Run)
    ensures Reached(Initial(true, 1), run) == State(true, Some(0), [Worker(Idle, false)])
  {
    var s := Initial(true, 1);
    run := [];
    ReachedSnoc(s, [], 0, Start);
    ReachedSnoc(s, [] + [(0, Start)], 0, Try);
    ReachedSnoc(s, [] + [(0, Start)] + [(0, Try)], 0, Try);
    ReachedSnoc(s, [] + [(0, Start)] + [(0, Try)] + [(0, Try)], 0, Abend);
    ReachedSnoc(s, [] + [(0, Start)] + [(0, Try)] + [(0, Try)] + [(0, Abend)], 0, Cleanup);
    run := [] + [(0, Start)] + [(0, Try)] + [(0, Try)] + [(0, Abend)] + [(0, Cleanup)];
  }

  /** Without a context to ENQ on two commands can be open at once: the lock is not unconditional. */
  lemma UnserializedWitness() returns (run: Run)
    ensures var s := Reached(Initial(false, 2), run);
            |s.workers| == 2 && s.workers[0].at.Open? && s.workers[1].at.Open?
  {
    var s := Initial(false, 2);
    var a: Run := [] + [(0, Start)] + [(0, Try)] + [(0, Try)] + [(0, Issue)];
    ReachedSnoc(s, [], 0, Start);
    ReachedSnoc(s, [] + [(0, Start)], 0, Try);
    ReachedSnoc(s, [] + [(0, Start)] + [(0, Try)], 0, Try);
    ReachedSnoc(s, [] + [(0, Start)] + [(0, Try)] + [(0, Try)], 0, Issue);
    assert Reached(s, a) == State(false, None, [Worker(Open, false), Worker(Idle, false)]);
    ReachedSnoc(s, a, 1, Start);
    ReachedSnoc(s, a + [(1, Start)], 1, Try);
    ReachedSnoc(s, a + [(1, Start)] + [(1, Try)], 1, Try);
    ReachedSnoc(s, a + [(1, Start)] + [(1, Try)] + [(1, Try)], 1, Issue);
    run := a + [(1, Start)] + [(1, Try)] + [(1, Try)] + [(1, Issue)];
  }

  // --- the calls themselves ---------------------------------------------------------------

  const LOCK_BUSY := -1
  const LOCK_QUIESCED := -2

  /** What one turn of the acquire loop meets: the ENQ held elsewhere, the server going down. */
  datatype Turn = Turn(taken: bool, quiescing: bool)

  class Enq {
    var holder: Option<nat>
  }

  /** The number of turns the acquire loop makes before it stops, from turn i on. */
  function Stops(turns: seq<Turn>, i: nat): (k: nat)
    requires i <= 50 <= |turns|
    ensures i <= k <= 50
    ensures forall j :: i <= j < k ==> turns[j].taken && !turns[j].quiescing
    ensures k < 50 ==> !turns[k].taken || turns[k].quiescing
    decreases TRIES - i
  {
    if i == TRIES || !turns[i].taken || turns[i].quiescing then i else Stops(turns, i + 1)
  }

  class Session {
    const task: nat
    var recorded: bool

    constructor (task: nat)
      ensures this.task == task && !recorded
    {
      this.task, recorded := task, false;
    }

    /** console_lock_acquire(): the ENQ is this session's exactly when it is recorded here. */
    method Acquire(enq: Enq, context: bool, turns: seq<Turn>) returns (rc: int)
      requires |turns| >= 50 && !recorded && enq.holder != Some(task)
      modifies this`recorded, enq`holder
      ensures !context ==> rc == 0 && !recorded && enq.holder == old(enq.holder)
      ensures context ==>
                var k := Stops(turns, 0);
                && rc == (if k == 50 then -1 else if !turns[k].taken then 0 else -2)
                && recorded == (rc == 0) == (enq.holder == Some(task))
                && (rc != 0 ==> enq.holder == old(enq.holder))
    {
      if !context {
        return 0;
      }
      var i := 0;
      while i < TRIES
        invariant i <= TRIES && !recorded && enq.holder == old(enq.holder) && Stops(turns, 0) == Stops(turns, i)
      {
        if !turns[i].taken {
          enq.holder := Some(task);
          recorded := true;
          return 0;
        }
        if turns[i].quiescing {
          return LOCK_QUIESCED;
        }
        i := i + 1;
      }
      return LOCK_BUSY;
    }

    /** console_lock_release(): harmless when nothing is recorded. */
    method Release(enq: Enq)
      requires recorded ==> enq.holder == Some(task)
      modifies this`recorded, enq`holder
      ensures !recorded
      ensures enq.holder == if old(recorded) then None else old(enq.holder)
    {
      if !recorded {
        return;
      }
      recorded := false;
      enq.holder := None;
    }

    /** session_cleanup(): dequeued says whether the protected DEQ got through. */
    method Cleanup(enq: Enq, dequeued: bool)
      requires recorded ==> enq.holder == Some(task)
      modifies this`recorded, enq`holder
      ensures !recorded
      ensures enq.holder == if old(recorded) && dequeued then None else old(enq.holder)
    {
      if recorded {
        recorded := false;
        if dequeued {
          enq.holder := None;
        }
      }
    }
  }

  // --- the calls are runs of the protocol ----------------------------------------------------

  ghost predicate Without(run: Run, w: nat) { forall i :: 0 <= i < |run| ==> run[i].0 != w }

  /** What the others do leaves a worker where it is. */
  lemma {:induction false} OthersRun(s: State, run: Run, w: nat)
    requires w < |s.workers| && Without(run, w)
    ensures var t := Reached(s, run);
            |t.workers| == |s.workers| && t.workers[w] == s.workers[w] && t.context == s.context
    decreases |run|
  {
    hide After;
    if run != [] {
      OthersUntouched(s, run[0].0, run[0].1);
      OthersRun(After(s, run[0].0, run[0].1), run[1..], w);
    }
  }

  /** The state in which the i-th try is made: before it and between tries the others take their steps. */
  function TryingAt(s: State, w: nat, others: seq<Run>, i: nat): State
    requires i < |others|
    decreases i
  {
    Reached(if i == 0 then s else After(TryingAt(s, w, others, i - 1), w, Try), others[i])
  }

  /** The turns of the acquire loop see the ENQ as it is when they try. */
  ghost predicate Sees(s: State, w: nat, others: seq<Run>, turns: seq<Turn>)
  {
    && |others| == |turns| > TRIES
    && (forall i :: 0 <= i < |others| ==> Without(others[i], w))
    && forall i :: 0 <= i < |others| ==> turns[i].taken == TryingAt(s, w, others, i).holder.Some?
  }

  lemma {:induction false} StillTrying(s: State, w: nat, others: seq<Run>, turns: seq<Turn>, i: nat)
    requires s.context && w < |s.workers| && s.workers[w] == Worker(Trying(0), false)
    requires Sees(s, w, others, turns) && i <= Stops(turns, 0)
    ensures var t := TryingAt(s, w, others, i);
            t.context && w < |t.workers| && t.workers[w] == Worker(Trying(i), false)
    decreases i
  {
    hide After, Reached;
    if i == 0 {
      OthersRun(s, others[0], w);
    } else {
      StillTrying(s, w, others, turns, i - 1);
      var t := TryingAt(s, w, others, i - 1);
      TriedInVain(t, w, i - 1);
      OthersRun(After(t, w, Try), others[i], w);
    }
  }

  lemma TriedInVain(t: State, w: nat, k: nat)
    requires t.context && w < |t.workers| && t.workers[w] == Worker(Trying(k), false) && k < TRIES && t.holder.Some?
    ensures var u := After(t, w, Try);
            u.context && w < |u.workers| && u.workers[w] == Worker(Trying(k + 1), false)
  {
  }

  /** Where the loop stops, by what it meets there. */
  function LastSteps(turns: seq<Turn>): seq<Event>
    requires |turns| >= TRIES
  {
    var k := Stops(turns, 0);
    if k == TRIES then [Try] else if !turns[k].taken then [Try, Record] else [Try, Refuse]
  }

  function Steps(s: State, w: nat, events: seq<Event>): State
    decreases |events|
  {
    if events == [] then s else Steps(After(s, w, events[0]), w, events[1..])
  }

  lemma OneStep(s: State, w: nat, a: Event)
    ensures Steps(s, w, [a]) == After(s, w, a)
  {
    hide After;
    assert [a][1..] == [];
    assert Steps(After(s, w, a), w, []) == After(s, w, a);
  }

  lemma TwoSteps(s: State, w: nat, a: Event, b: Event)
    ensures Steps(s, w, [a, b]) == After(After(s, w, a), w, b)
  {
    hide After;
    assert [a, b][1..] == [b];
    OneStep(After(s, w, a), w, b);
  }

  /** Acquire: in every interleaving the worker gets where the call's answer says, with the record it says. */
  lemma AcquireIsRun(s: State, w: nat, others: seq<Run>, turns: seq<Turn>)
    requires s.context && w < |s.workers| && s.workers[w] == Worker(Entered, false)
    requires Sees(After(s, w, Try), w, others, turns)
    ensures var k := Stops(turns, 0);
            var t := TryingAt(After(s, w, Try), w, others, k);
            var u := Steps(t, w, LastSteps(turns));
            && w < |u.workers|
            && (k < 50 && !turns[k].taken ==> u.workers[w] == Worker(Locked, true) && u.holder == Some(w))
            && (k == 50 || turns[k].taken ==> u.workers[w] == Worker(Tail, false) && u.holder == t.holder)
  {
    hide TryingAt;
    var first := After(s, w, Try);
    var k := Stops(turns, 0);
    StillTrying(first, w, others, turns, k);
    var t := TryingAt(first, w, others, k);
    hide Steps;
    OneStep(t, w, Try);
    TwoSteps(t, w, Try, Record);
    TwoSteps(t, w, Try, Refuse);
  }

  /** Release: the record and then the ENQ. */
  lemma ReleaseIsRun(s: State, w: nat)
    requires w < |s.workers| && s.workers[w].at.Open?
    ensures var recorded := s.workers[w].recorded;
            var t := Steps(s, w, if recorded then [Leave, Unlock] else [Leave]);
            && w < |t.workers| && t.workers[w] == Worker(Tail, false)
            && t.holder == if recorded then None else s.holder
  {
    hide Steps;
    OneStep(s, w, Leave);
    TwoSteps(s, w, Leave, Unlock);
  }

  /** Cleanup: the record, and the ENQ if its DEQ gets through. */
  lemma CleanupIsRun(s: State, w: nat, dequeued: bool)
    requires w < |s.workers| && s.workers[w].at.Abended?
    ensures var recorded := s.workers[w].recorded;
            var t := Steps(s, w, if recorded then [Cleanup, Unwind(dequeued)] else [Cleanup]);
            && w < |t.workers| && t.workers[w] == Worker(Idle, false)
            && t.holder == if recorded && dequeued then None else s.holder
  {
    hide Steps;
    OneStep(s, w, Cleanup);
    TwoSteps(s, w, Cleanup, Unwind(dequeued));
  }
}
