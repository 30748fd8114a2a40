// The store every worker shares, created by whoever needs it first:
// mvsmf_kvstore() of src/mvsmfctx.c, double-checked under the context latch.
module LazyStore {
  import opened Wrappers

  /** A storage block: what GETMAIN returned, and whether nt_store_init() has run on it. */
  datatype Block = Block(initialised: bool)

  datatype Place =
    | Outside
    | Looked          // saw no store
    | Latched         // has the latch
    | Stamped         // the context block's length and version are set
    | Empty           // looked again: still none
    | Has(block: nat) // storage obtained
    | Filled(block: nat)
    | Done            // published, or found one; the latch is still held
    | Leaving         // latch given back
    | Answered(store: Option<nat>)

  /** blocks: every storage block obtained so far; published: ctx->kvstore. */
  datatype State =
    State(published: Option<nat>, stamped: bool, latch: Option<nat>, blocks: seq<Block>, workers: seq<Place>)

  datatype Event =
    | Look | Latch | Stamp | LookAgain | Obtain(works: bool) | Fill | Publish | Unlatch | Answer | Abend | Again

  function Put(s: State, w: nat, at: Place): State
    requires w < |s.workers|
  {
    s.(workers := s.workers[w := at])
  }

  /** One step of worker w; an event that cannot happen there changes nothing. */
  function After(s: State, w: nat, ev: Event): State
  {
    if w >= |s.workers| then s else
    match (s.workers[w], ev)
    case (Outside, Look) => if s.published.Some? then Put(s, w, Leaving) else Put(s, w, Looked)
    case (Outside, _) => s
    case (Answered(_), Again) => Put(s, w, Outside)
    case (Answered(_), _) => s
    case (_, Abend) => Put(s, w, Outside)                    // nothing releases the latch here
    case (Looked, Latch) => if s.latch.None? then Put(s.(latch := Some(w)), w, Latched) else s
    case (Latched, Stamp) => Put(s.(stamped := true), w, Stamped)
    case (Stamped, LookAgain) => Put(s, w, if s.published.Some? then Done else Empty)
    case (Empty, Obtain(works)) =>
      if works then Put(s.(blocks := s.blocks + [Block(false)]), w, Has(|s.blocks|)) else Put(s, w, Done)
    case (Has(b), Fill) => if b < |s.blocks| then Put(s.(blocks := s.blocks[b := Block(true)]), w, Filled(b)) else s
    case (Filled(b), Publish) => Put(s.(published := Some(b)), w, Done)
    case (Done, Unlatch) => Put(s.(latch := None), w, Leaving)
    case (Leaving, Answer) => Put(s, w, Answered(s.published))
    case (_, _) => s
  }

  type Run = seq<(nat, Event)>

  function Reached(s: State, run: Run): State
    decreases |run|
  {
    if run == [] then s else Reached(After(s, run[0].0, run[0].1), run[1..])
  }

  function Initial(n: nat): State
  {
    State(None, false, None, [], seq(n, i => Outside))
  }

  /** Between taking the latch and giving it back. */
  predicate Inside(at: Place)
  {
    at.Latched? || at.Stamped? || at.Empty? || at.Has? || at.Filled? || at.Done?
  }

  ghost predicate Consistent(s: State)
  {
    && (forall w :: 0 <= w < |s.workers| && Inside(s.workers[w]) ==> s.latch == Some(w))
    && (forall w :: 0 <= w < |s.workers| ==> PlaceOk(s, s.workers[w]))
    && (s.published.Some? ==> s.published.value < |s.blocks| && s.blocks[s.published.value].initialised)
  }

  ghost predicate PlaceOk(s: State, at: Place)
  {
    && (at.Empty? || at.Has? || at.Filled? ==> s.published.None?)
    && (at.Has? ==> at.block < |s.blocks|)
    && (at.Filled? ==> at.block < |s.blocks| && s.blocks[at.block].initialised)
    && (at.Answered? && at.store.Some? ==> at.store == s.published)
  }

  /** A published store stays the one it is, and stays initialised. */
  ghost predicate Later(s: State, t: State)
  {
    && (s.published.Some? ==> t.published == s.published)
    && |s.blocks| <= |t.blocks|
    && (forall b :: 0 <= b < |s.blocks| && s.blocks[b].initialised ==> t.blocks[b].initialised)
    && |t.workers| == |s.workers|
  }

  /** A step keeps a published store and the blocks initialised. */
  lemma StepIsLater(s: State, w: nat, ev: Event)
    requires Consistent(s) && w < |s.workers|
    ensures Later(s, After(s, w, ev))
  {
    assert PlaceOk(s, s.workers[w]);
  }

  /** Where it leaves the worker that takes it. */
  lemma OwnPlace(s: State, w: nat, ev: Event)
    requires Consistent(s) && w < |s.workers|
    ensures var t := After(s, w, ev);
            && |t.workers| == |s.workers|
            && PlaceOk(t, t.workers[w]) && (Inside(t.workers[w]) ==> t.latch == Some(w))
  {
    assert PlaceOk(s, s.workers[w]);
  }

  /** What it does to the published store. */
  lemma PublishedStep(s: State, w: nat, ev: Event)
    requires Consistent(s) && w < |s.workers|
    ensures var t := After(s, w, ev);
            && (t.published.Some? ==> t.published.value < |t.blocks| && t.blocks[t.published.value].initialised)
            && (t.published != s.published ==> s.latch == Some(w))
  {
    assert PlaceOk(s, s.workers[w]);
  }

  /** Only its holder gives the latch up. */
  lemma LatchStep(s: State, w: nat, ev: Event)
    requires Consistent(s) && w < |s.workers|
    ensures After(s, w, ev).latch != s.latch ==> s.latch.None? || s.latch == Some(w)
    ensures forall v :: 0 <= v < |s.workers| && v != w ==> After(s, w, ev).workers[v] == s.workers[v]
    ensures |After(s, w, ev).workers| == |s.workers|
  {
  }

  lemma StepKeeps(s: State, w: nat, ev: Event)
    requires Consistent(s)
    ensures Consistent(After(s, w, ev)) && Later(s, After(s, w, ev))
  {
    if w < |s.workers| {
      hide After;
      StepIsLater(s, w, ev);
      OwnPlace(s, w, ev);
      PublishedStep(s, w, ev);
      LatchStep(s, w, ev);
      var t := After(s, w, ev);
      forall v | 0 <= v < |t.workers|
        ensures PlaceOk(t, t.workers[v]) && (Inside(t.workers[v]) ==> t.latch == Some(v))
      {
        assert PlaceOk(s, s.workers[v]);
      }
    }
  }

  lemma {:induction false} RunKeeps(s: State, run: Run)
    requires Consistent(s)
    ensures Consistent(Reached(s, run)) && Later(s, Reached(s, run))
    decreases |run|
  {
    hide After, Consistent;
    if run != [] {
      StepKeeps(s, run[0].0, run[0].1);
      RunKeeps(After(s, run[0].0, run[0].1), run[1..]);
    }
  }

  /**
   * Over every interleaving, abends included: whatever store a worker is given is
   * initialised, it is the same one for every worker, and it is never replaced.
   */
  lemma OneStoreForAll(n: nat, run: Run, more: Run, w: nat, v: nat)
    requires w < n && v < n
    ensures var s := Reached(Initial(n), run);
            var t := Reached(s, more);
            && |s.workers| == n == |t.workers|
            && (s.workers[w].Answered? && s.workers[w].store.Some? ==>
                  && s.workers[w].store.value < |t.blocks| && t.blocks[s.workers[w].store.value].initialised
                  && t.published == s.workers[w].store
                  && (t.workers[v].Answered? && t.workers[v].store.Some? ==> t.workers[v].store == s.workers[w].store))
  {
    hide After;
    RunKeeps(Initial(n), run);
    RunKeeps(Reached(Initial(n), run), more);
    assert PlaceOk(Reached(Initial(n), run), Reached(Initial(n), run).workers[w]);
    assert PlaceOk(Reached(Reached(Initial(n), run), more), Reached(Reached(Initial(n), run), more).workers[v]);
  }

  // --- somebody is answered --------------------------------------------------------------------

  /** Nobody behind the latch, or leaving, is without a store. */
  ghost predicate Served(s: State)
  {
    forall w :: 0 <= w < |s.workers| ==>
      && (s.workers[w].Done? || s.workers[w].Leaving? ==> s.published.Some?)
      && (s.workers[w].Answered? ==> s.workers[w].store.Some?)
  }

  ghost predicate NoneRefused(run: Run) { forall i :: 0 <= i < |run| ==> run[i].1 != Obtain(false) }

  lemma {:induction false} AllServed(s: State, run: Run)
    requires Consistent(s) && Served(s) && NoneRefused(run)
    ensures Served(Reached(s, run))
    decreases |run|
  {
    if run != [] {
      hide Consistent;
      StepKeeps(s, run[0].0, run[0].1);
      assert run[0].1 != Obtain(false);
      ServedStep(s, run[0].0, run[0].1);
      assert NoneRefused(run[1..]) by {
        assert forall i :: 0 <= i < |run| - 1 ==> run[1..][i] == run[i + 1];
      }
      AllServed(After(s, run[0].0, run[0].1), run[1..]);
    }
  }

  lemma ServedStep(s: State, w: nat, ev: Event)
    requires Served(s) && ev != Obtain(false)
    ensures Served(After(s, w, ev))
  {
  }

  /** Whoever is answered is given a store, abends or not, unless storage was refused. */
  lemma AnsweredHaveStores(n: nat, run: Run, w: nat)
    requires w < n && NoneRefused(run)
    ensures var s := Reached(Initial(n), run);
            |s.workers| == n && (s.workers[w].Answered? ==> s.workers[w].store.Some?)
  {
    RunKeeps(Initial(n), run);
    AllServed(Initial(n), run);
  }

  /** One worker, undisturbed, from its call up to its second look. */
  function UpToLook(s: State, w: nat): State
  {
    After(After(After(After(s, w, Look), w, Latch), w, Stamp), w, LookAgain)
  }

  /** Storage had, initialised and published, the latch given back, and the answer. */
  function FromObtain(s: State, w: nat): State
  {
    After(After(After(After(After(s, w, Obtain(true)), w, Fill), w, Publish), w, Unlatch), w, Answer)
  }

  /** While the latch is free a worker left alone gets a store: the one there is, or a new one, initialised, for all. */
  lemma AloneIsAnswered(s: State, w: nat)
    requires Consistent(s) && w < |s.workers| && s.workers[w] == Outside && s.latch.None?
    ensures s.published.None? ==>
              FromObtain(UpToLook(s, w), w)
                == State(Some(|s.blocks|), true, None, s.blocks + [Block(true)],
                         s.workers[w := Answered(Some(|s.blocks|))])
    ensures s.published.Some? ==>
              After(After(s, w, Look), w, Answer) == s.(workers := s.workers[w := Answered(s.published)])
  {
    hide Consistent;
    if s.published.None? {
      assert UpToLook(s, w) == s.(latch := Some(w), stamped := true, workers := s.workers[w := Empty]);
      hide UpToLook;
      StoreMade(UpToLook(s, w), w);
    }
  }

  lemma StoreMade(s: State, w: nat)
    requires w < |s.workers| && s.workers[w] == Empty && s.latch == Some(w)
    ensures FromObtain(s, w)
         == State(Some(|s.blocks|), s.stamped, None, s.blocks + [Block(true)],
                  s.workers[w := Answered(Some(|s.blocks|))])
  {
    var a := After(s, w, Obtain(true));
    assert a == s.(blocks := s.blocks + [Block(false)], workers := s.workers[w := Has(|s.blocks|)]);
    var b := After(a, w, Fill);
    assert b == s.(blocks := s.blocks + [Block(true)], workers := s.workers[w := Filled(|s.blocks|)]);
  }
}
