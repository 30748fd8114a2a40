// Who may see a job on the spool, and the cache of one request: src/jwn.c.
module SpoolAccess {
  import opened Texts
  import opened Wrappers

  const COMP_MAX := 8
  const ENT_SIZE := 27
  const KEY_LEN := 8
  const CACHE_MAX := 16
  const CHARS := "ABCDEFGHI" + "JKLMNOPQR" + "STUVWXYZ" + "0123456789" + "$#@"
  const NUL: char := '\0'

  datatype Level = Unusable | NoProfile | NoAccess | Reads | Updates

  datatype Decision = Hide | Allow | NoPurge

  datatype Reason = BadAnswer | Own | NoUser | BadComponent | LacksProfile | LacksAccess | HasRead | HasUpdate

  datatype Op = ListJobs | ReadSpool | Purge

  /** The one question to the security product, and its return code. */
  type Oracle = (string, bool) -> int

  // --- entities ----------------------------------------------------------------------------

  predicate ComponentOk(s: string) { 0 < |s| <= COMP_MAX && forall i :: 0 <= i < |s| ==> s[i] in CHARS }

  predicate Accepted(owner: string, jobname: string, jobid: string)
  {
    (owner == "" || ComponentOk(owner)) && ComponentOk(jobname) && ComponentOk(jobid)
  }

  lemma JoinedLength(owner: string, jobname: string, jobid: string)
    ensures |Joined(owner, jobname, jobid)| == |owner| + |jobname| + |jobid| + 2
  {
  }

  function Joined(owner: string, jobname: string, jobid: string): string
  {
    owner + "." + jobname + "." + jobid
  }

  /** jwn_component_ok(): stops at the ninth character. */
  method CheckComponent(s: string) returns (ok: bool)
    ensures ok <==> ComponentOk(s)
  {
    if s == "" {
      return false;
    }
    var i := 0;
    while i < |s|
      invariant 0 <= i <= |s| && i <= COMP_MAX && forall k :: 0 <= k < i ==> s[k] in CHARS
    {
      if i >= COMP_MAX || s[i] !in CHARS {
        return false;
      }
      i := i + 1;
    }
    return true;
  }

  method CopyTo(out: array<char>, at: nat, s: string)
    requires at + |s| <= out.Length
    modifies out
    ensures out[..at + |s|] == old(out[..at]) + s
  {
    for i := 0 to |s|
      invariant out[..at + i] == old(out[..at]) + s[..i]
    {
      out[at + i] := s[i];
      assert out[..at + i + 1] == out[..at + i] + [s[i]];
    }
  }

  method FillFront(out: array<char>, owner: string, jobname: string)
    requires |owner| + |jobname| + 2 <= out.Length
    modifies out
    ensures out[..|owner| + |jobname| + 2] == owner + "." + jobname + "."
  {
    CopyTo(out, 0, owner);
    assert out[..|owner|] == owner by { EmptyFront(out[..0], owner); }
    CopyTo(out, |owner|, ".");
    CopyTo(out, |owner| + 1, jobname);
    CopyTo(out, |owner| + 1 + |jobname|, ".");
  }

  method FillEntity(out: array<char>, owner: string, jobname: string, jobid: string)
    requires |owner| + |jobname| + |jobid| + 2 < out.Length
    modifies out
    ensures var n := |owner| + |jobname| + |jobid| + 2; out[..n] == Joined(owner, jobname, jobid) && out[n] == NUL
  {
    hide Joined;
    var at := |owner| + |jobname| + 2;
    FillFront(out, owner, jobname);
    CopyTo(out, at, jobid);
    JoinedIs(owner, jobname, jobid);
    out[at + |jobid|] := NUL;
    assert out[..at + |jobid|] == Joined(owner, jobname, jobid);
  }

  lemma EmptyFront(s: string, t: string)
    requires s == ""
    ensures s + t == t
  {
  }

  lemma JoinedIs(owner: string, jobname: string, jobid: string)
    ensures Joined(owner, jobname, jobid) == owner + "." + jobname + "." + jobid
  {
  }

  /** jwn_entity(): the length, or -1 with an empty string left in the buffer. */
  method BuildEntity(out: array<char>, owner: string, jobname: string, jobid: string) returns (n: int)
    modifies out
    ensures n >= 0 <==> Accepted(owner, jobname, jobid) && |Joined(owner, jobname, jobid)| < out.Length
    ensures n >= 0 ==>
            n == |Joined(owner, jobname, jobid)| && out[..n] == Joined(owner, jobname, jobid) && out[n] == NUL
    ensures n < 0 ==> n == -1 && (out.Length > 0 ==> out[0] == NUL)
  {
    if out.Length < 1 {
      return -1;
    }
    out[0] := NUL;
    if owner != "" {
      var ok := CheckComponent(owner);
      if !ok {
        return -1;
      }
    }
    var okName := CheckComponent(jobname);
    if !okName {
      return -1;
    }
    var okId := CheckComponent(jobid);
    if !okId {
      return -1;
    }
    hide Joined, ComponentOk;
    JoinedLength(owner, jobname, jobid);
    var need := |owner| + 1 + |jobname| + 1 + |jobid|;
    if need + 1 > out.Length {
      return -1;
    }
    FillEntity(out, owner, jobname, jobid);
    return need;
  }

  lemma NoDot(s: string)
    requires s == "" || ComponentOk(s)
    ensures |s| <= COMP_MAX && forall i :: 0 <= i < |s| ==> s[i] != '.'
  {
    assert '.' !in CHARS;
  }

  /** Two entities are equal only for the same job; and every accepted one fits. */
  lemma EntityInjective(o1: string, n1: string, i1: string, o2: string, n2: string, i2: string)
    requires Accepted(o1, n1, i1) && Accepted(o2, n2, i2)
    ensures Joined(o1, n1, i1) == Joined(o2, n2, i2) ==> o1 == o2 && n1 == n2 && i1 == i2
    ensures |Joined(o1, n1, i1)| < ENT_SIZE
  {
    NoDot(o1);
    NoDot(n1);
    NoDot(i1);
    NoDot(o2);
    NoDot(n2);
    JoinedLength(o1, n1, i1);
    hide ComponentOk;
    if Joined(o1, n1, i1) == Joined(o2, n2, i2) {
      JoinedRight(o1, n1, i1);
      JoinedRight(o2, n2, i2);
      hide Joined;
      FirstDot(o1, n1 + ("." + i1), o2, n2 + ("." + i2));
      FirstDot(n1, i1, n2, i2);
    }
  }

  lemma JoinedRight(owner: string, jobname: string, jobid: string)
    ensures Joined(owner, jobname, jobid) == owner + ("." + (jobname + ("." + jobid)))
  {
  }

  lemma FirstDot(a: string, x: string, b: string, y: string)
    requires a + ("." + x) == b + ("." + y)
    requires forall i :: 0 <= i < |a| ==> a[i] != '.'
    requires forall i :: 0 <= i < |b| ==> b[i] != '.'
    ensures a == b && x == y
  {
    var s := a + ("." + x);
    assert s[|a|] == '.' && s[|b|] == '.';
    assert forall i :: 0 <= i < |a| ==> s[i] == a[i];
    assert forall i :: 0 <= i < |b| ==> s[i] == b[i];
    assert s[..|a|] == a && s[..|b|] == b && s[|a| + 1..] == x && s[|b| + 1..] == y;
  }

  // --- levels --------------------------------------------------------------------------------

  /** The level found, the last return code, and how often was asked. */
  datatype Found = Found(level: Level, rc: int, calls: nat)

  /** jwn_level() */
  function LevelOf(auth: Option<Oracle>, entity: string, update: bool): (f: Found)
    ensures !f.level.Unusable? ==> auth.Some? && f.rc in {0, 4, 8}
    ensures f.level.Reads? || f.level.Updates? ==> auth.Some? && auth.value(entity, false) == 0
    ensures f.level.Updates? ==> update && auth.value(entity, true) == 0
  {
    if auth.None? then Found(Unusable, -1, 0) else
    var rc := auth.value(entity, false);
    if rc == 4 then Found(NoProfile, rc, 1)
    else if rc == 8 then Found(NoAccess, rc, 1)
    else if rc != 0 then Found(Unusable, rc, 1)
    else if !update then Found(Reads, rc, 1)
    else
      var again := auth.value(entity, true);
      Found(if again == 0 then Updates else if again == 8 then Reads else Unusable, again, 2)
  }

  /** What a caller of the cache can see of it. */
  function Answer(f: Found): (Level, int) { (f.level, f.rc) }

  function Key(entity: string): string { if |entity| > KEY_LEN then entity[..KEY_LEN] else entity }

  datatype Entry = Entry(key: string, update: bool, level: Level, rc: int)

  predicate Hit(e: Entry, key: string, update: bool) { e.update == update && e.key == key }

  /** The first entry for the question. */
  function Lookup(es: seq<Entry>, key: string, update: bool): (r: Option<Entry>)
    ensures r.Some? ==> r.value in es && Hit(r.value, key, update)
    ensures r.None? ==> forall e :: e in es ==> !Hit(e, key, update)
  {
    if es == [] then None else if Hit(es[0], key, update) then Some(es[0]) else Lookup(es[1..], key, update)
  }

  lemma LookupStep(es: seq<Entry>, i: nat, key: string, update: bool)
    requires i <= |es|
    ensures Lookup(es[i..], key, update)
         == if i == |es| then None else if Hit(es[i], key, update) then Some(es[i])
            else Lookup(es[i + 1..], key, update)
  {
    assert i < |es| ==> es[i..][1..] == es[i + 1..];
  }

  /** level_cached() on what the cache holds: the answer, and what it holds then. */
  function Cached(auth: Option<Oracle>, es: seq<Entry>, entity: string, update: bool): (Found, seq<Entry>)
  {
    var hit := Lookup(es, Key(entity), update);
    if hit.Some? then (Found(hit.value.level, hit.value.rc, 0), es) else
    var f := LevelOf(auth, entity, update);
    (f, if !f.level.Unusable? && |es| < CACHE_MAX then es + [Entry(Key(entity), update, f.level, f.rc)] else es)
  }

  class Cache {
    const e: array<Entry>
    var n: nat

    predicate Valid()
      reads this
    {
      e.Length == CACHE_MAX && n <= CACHE_MAX
    }

    function Held(): seq<Entry>
      reads this, e
      requires Valid()
    {
      e[..n]
    }

    /** jwn_cache_init() */
    constructor ()
      ensures Valid() && Held() == [] && fresh(e)
    {
      e, n := new Entry[CACHE_MAX](i => Entry("", false, Unusable, 0)), 0;
    }

    method Find(key: string, update: bool) returns (hit: Option<Entry>)
      requires Valid()
      ensures hit == Lookup(Held(), key, update)
    {
      hide Lookup, Hit;
      ghost var es := Held();
      assert es[0..] == es;
      for i := 0 to n
        invariant Lookup(es, key, update) == Lookup(es[i..], key, update)
      {
        LookupStep(es, i, key, update);
        if Hit(e[i], key, update) {
          return Some(e[i]);
        }
      }
      LookupStep(es, n, key, update);
      return None;
    }

    /** level_cached() with a cache. */
    method Ask(auth: Option<Oracle>, entity: string, update: bool) returns (f: Found)
      requires Valid()
      modifies this, e
      ensures Valid() && (f, Held()) == Cached(auth, old(Held()), entity, update)
    {
      hide LevelOf, Lookup;
      var hit := Find(Key(entity), update);
      if hit.Some? {
        return Found(hit.value.level, hit.value.rc, 0);
      }
      f := LevelOf(auth, entity, update);
      if !f.level.Unusable? && n < CACHE_MAX {
        ghost var es := Held();
        e[n] := Entry(Key(entity), update, f.level, f.rc);
        n := n + 1;
        assert e[..n] == es + [Entry(Key(entity), update, f.level, f.rc)];
      }
    }
  }

  // --- the cache cannot be noticed -------------------------------------------------------------

  datatype Question = Question(entity: string, update: bool)

  /** The answers to a request's questions, in order. */
  function Answers(auth: Option<Oracle>, es: seq<Entry>, qs: seq<Question>): seq<(Level, int)>
    decreases |qs|
  {
    if qs == [] then [] else
    var (f, next) := Cached(auth, es, qs[0].entity, qs[0].update);
    [Answer(f)] + Answers(auth, next, qs[1..])
  }

  function Direct(auth: Option<Oracle>, qs: seq<Question>): seq<(Level, int)>
  {
    if qs == [] then [] else [Answer(LevelOf(auth, qs[0].entity, qs[0].update))] + Direct(auth, qs[1..])
  }

  /** A usable answer is the answer for every entity that starts alike. */
  ghost predicate KeyDecides(auth: Option<Oracle>)
  {
    forall a: string, b: string, update: bool :: Key(a) == Key(b) ==> SameAnswer(auth, a, b, update)
  }

  ghost predicate SameAnswer(auth: Option<Oracle>, a: string, b: string, update: bool)
  {
    !LevelOf(auth, a, update).level.Unusable? ==> Answer(LevelOf(auth, b, update)) == Answer(LevelOf(auth, a, update))
  }

  /** Every entry holds what would be answered now, to any entity of its key. */
  ghost predicate Current(auth: Option<Oracle>, es: seq<Entry>)
  {
    forall e, entity: string :: e in es && Key(entity) == e.key ==>
      Answer(LevelOf(auth, entity, e.update)) == (e.level, e.rc)
  }

  lemma CachedIsDirect(auth: Option<Oracle>, es: seq<Entry>, entity: string, update: bool)
    requires KeyDecides(auth) && Current(auth, es)
    ensures var (f, next) := Cached(auth, es, entity, update);
            Answer(f) == Answer(LevelOf(auth, entity, update)) && Current(auth, next)
  {
    hide LevelOf;
    var f := LevelOf(auth, entity, update);
    forall e, other: string | e in Cached(auth, es, entity, update).1 && Key(other) == e.key
      ensures Answer(LevelOf(auth, other, e.update)) == (e.level, e.rc)
    {
      if e !in es {
        assert SameAnswer(auth, entity, other, update);
      }
    }
  }

  lemma {:induction false} AnswersAreDirect(auth: Option<Oracle>, es: seq<Entry>, qs: seq<Question>)
    requires KeyDecides(auth) && Current(auth, es)
    ensures Answers(auth, es, qs) == Direct(auth, qs)
    decreases |qs|
  {
    hide KeyDecides, Current, Cached, LevelOf;
    if qs != [] {
      CachedIsDirect(auth, es, qs[0].entity, qs[0].update);
      var (f, next) := Cached(auth, es, qs[0].entity, qs[0].update);
      AnswersAreDirect(auth, next, qs[1..]);
    }
  }

  /** Two questions the cache confuses, if the key does not decide. */
  lemma Confused(auth: Option<Oracle>, a: string, b: string, update: bool)
    requires Key(a) == Key(b)
    requires Answers(auth, [], [Question(a, update), Question(b, update)])
             == Direct(auth, [Question(a, update), Question(b, update)])
    ensures SameAnswer(auth, a, b, update)
  {
    hide LevelOf;
    if LevelOf(auth, a, update).level.Unusable? {
      return;
    }
    var qs := [Question(a, update), Question(b, update)];
    var f := LevelOf(auth, a, update);
    var held := [] + [Entry(Key(a), update, f.level, f.rc)];
    assert Cached(auth, [], a, update) == (f, held);
    assert held[0].key == Key(b);
    assert qs[1..] == [Question(b, update)] && qs[1..][1..] == [];
    var rest := Answers(auth, held, qs[1..]);
    assert rest == [Answer(f)] + Answers(auth, held, []);
    assert Answers(auth, [], qs)[1] == rest[0];
    assert Direct(auth, qs)[1] == Direct(auth, qs[1..])[0];
  }

  /** No request can tell the cache from asking every time. */
  ghost predicate Unnoticed(auth: Option<Oracle>)
  {
    forall qs: seq<Question> :: Answers(auth, [], qs) == Direct(auth, qs)
  }

  lemma UnnoticedDecides(auth: Option<Oracle>)
    requires Unnoticed(auth)
    ensures KeyDecides(auth)
  {
    hide Answers, Direct, SameAnswer, Key;
    forall a: string, b: string, update: bool | Key(a) == Key(b)
      ensures SameAnswer(auth, a, b, update)
    {
      Confused(auth, a, b, update);
    }
  }

  /** The cache is invisible, beyond its sixteenth key as well, exactly if the key decides. */
  lemma Transparent(auth: Option<Oracle>)
    ensures Unnoticed(auth) <==> KeyDecides(auth)
  {
    hide Answers, Direct, KeyDecides;
    if Unnoticed(auth) {
      UnnoticedDecides(auth);
    }
    if KeyDecides(auth) {
      forall qs: seq<Question>
        ensures Answers(auth, [], qs) == Direct(auth, qs)
      {
        AnswersAreDirect(auth, [], qs);
      }
    }
  }

  /** More keys than there is room for are never stored, whatever is asked. */
  lemma NeverMoreThanSixteen(auth: Option<Oracle>, es: seq<Entry>, entity: string, update: bool)
    requires |es| <= 16
    ensures |Cached(auth, es, entity, update).1| <= 16 && es <= Cached(auth, es, entity, update).1
    ensures LevelOf(auth, entity, update).level.Unusable? ==> Cached(auth, es, entity, update).1 == es
  {
  }

  // --- the decision ------------------------------------------------------------------------------

  predicate Filler(s: string) { exists i :: 0 <= i < |s| && s[i] <= ' ' }

  /** jwn_mine() */
  predicate Mine(owner: Option<string>, user: string)
  {
    owner.Some? && owner.value != "" && user != "" && !Filler(owner.value) && owner.value == user
  }

  function Decide(op: Op, level: Level): Decision
  {
    match level
    case Reads => if op.Purge? then NoPurge else Allow
    case Updates => Allow
    case _ => Hide
  }

  function ReasonOf(level: Level): Reason
  {
    match level
    case NoProfile => LacksProfile
    case NoAccess => LacksAccess
    case Reads => HasRead
    case Updates => HasUpdate
    case Unusable => BadAnswer
  }

  /** JWN_RES, but for the number of calls. */
  datatype Result = Result(decision: Decision, reason: Reason, level: Level, rc: int, elen: nat)

  datatype Job = Job(owner: Option<string>, name: Option<string>, id: Option<string>)

  function OrEmpty(s: Option<string>): string { if s.Some? then s.value else "" }

  /** jwn_check() when every question is asked. */
  function Checked(acee: bool, user: Option<string>, auth: Option<Oracle>, op: Op, job: Job): Result
  {
    var (owner, name, id) := (OrEmpty(job.owner), OrEmpty(job.name), OrEmpty(job.id));
    if !acee || OrEmpty(user) == "" then Result(Hide, NoUser, Unusable, -1, 0)
    else if Mine(job.owner, user.value) then Result(Allow, Own, Unusable, -1, 0)
    else if !Accepted(owner, name, id) then Result(Hide, BadComponent, Unusable, -1, 0)
    else
      var entity := Joined(owner, name, id);
      var f := LevelOf(auth, entity, op.Purge?);
      Result(Decide(op, f.level), ReasonOf(f.level), f.level, f.rc, |entity|)
  }

  /** jwn_check(), with the cache of the request: the same result as without. */
  method Check(acee: bool, user: Option<string>, auth: Option<Oracle>, cache: Cache?, op: Op, job: Job)
      returns (r: Result)
    requires cache != null ==> cache.Valid() && KeyDecides(auth) && Current(auth, cache.Held())
    modifies cache, if cache != null then {cache.e} else {}
    ensures r == Checked(acee, user, auth, op, job)
    ensures cache != null ==> cache.Valid() && Current(auth, cache.Held())
  {
    hide LevelOf, Mine, Accepted, Current, KeyDecides, Cached, Lookup;
    r := Result(Hide, BadAnswer, Unusable, -1, 0);
    if !acee || OrEmpty(user) == "" {
      return r.(reason := NoUser);
    }
    if Mine(job.owner, user.value) {
      return r.(decision := Allow, reason := Own);
    }
    var owner, name, id := OrEmpty(job.owner), OrEmpty(job.name), OrEmpty(job.id);
    var out := new char[ENT_SIZE](i => NUL);
    var n := BuildEntity(out, owner, name, id);
    if Accepted(owner, name, id) {
      EntityInjective(owner, name, id, owner, name, id);
    }
    if n < 0 {
      return r.(reason := BadComponent);
    }
    var entity := out[..n];
    var f;
    if cache != null {
      CachedIsDirect(auth, cache.Held(), entity, op.Purge?);
      f := cache.Ask(auth, entity, op.Purge?);
    } else {
      f := LevelOf(auth, entity, op.Purge?);
    }
    return Result(Decide(op, f.level), ReasonOf(f.level), f.level, f.rc, n);
  }

  /** A job is shown only to its owner, or on a READ for its entity; purged only by its owner or on an UPDATE. */
  lemma ClosedByDefault(acee: bool, user: Option<string>, auth: Option<Oracle>, op: Op, job: Job)
    ensures var r := Checked(acee, user, auth, op, job);
            var entity := Joined(OrEmpty(job.owner), OrEmpty(job.name), OrEmpty(job.id));
            && (!r.decision.Hide? ==>
                  acee && user.Some? && (job.owner == user || (auth.Some? && auth.value(entity, false) == 0)))
            && (r.decision.Allow? && op.Purge? ==> job.owner == user || auth.value(entity, true) == 0)
  {
  }

  // --- exactly who is let through -------------------------------------------------------------

  predicate LetterOrDigit(c: char)
  {
    'A' <= c <= 'Z' || '0' <= c <= '9' || c == '$' || c == '#' || c == '@'
  }

  /** One to eight letters, digits or national characters. */
  predicate Spelled(s: string) { 1 <= |s| <= 8 && forall i :: 0 <= i < |s| ==> LetterOrDigit(s[i]) }

  lemma InRun(run: string, c: char)
    requires 0 < |run| <= 10 && forall k :: 0 <= k < |run| ==> run[k] as int == run[0] as int + k
    ensures c in run <==> run[0] <= c && c as int < run[0] as int + |run|
  {
    if run[0] <= c && c as int < run[0] as int + |run| {
      assert run[c as int - run[0] as int] == c;
    }
  }

  lemma InChars(c: char)
    ensures c in CHARS <==> LetterOrDigit(c)
  {
    InRun("ABCDEFGHI", c);
    InRun("JKLMNOPQR", c);
    InRun("STUVWXYZ", c);
    InRun("0123456789", c);
  }

  lemma ComponentSpelled(s: string)
    ensures ComponentOk(s) <==> Spelled(s)
  {
    forall i | 0 <= i < |s|
      ensures s[i] in CHARS <==> LetterOrDigit(s[i])
    {
      InChars(s[i]);
    }
  }

  /** The job is the user's: its owner is named, holds no filler and is the user. */
  ghost predicate Owned(user: string, job: Job)
  {
    job.owner == Some(user) && user != "" && forall i :: 0 <= i < |user| ==> user[i] > ' '
  }

  /** The three names of a job as they can be asked about; no owner counts as an empty one. */
  predicate Named(owner: string, name: string, id: string)
  {
    (owner == "" || Spelled(owner)) && Spelled(name) && Spelled(id)
  }

  lemma FillerExact(s: string)
    ensures Filler(s) <==> exists i :: 0 <= i < |s| && s[i] <= ' '
  {
  }

  /**
   * Exactly who is let through, with what reason, by the return codes for read and update
   * access: a user's own job always; another's to see on a 0 for read, and to purge on a
   * 0 for both, or for read alone with an 8 for update seen but not purged; all else hidden.
   */
  lemma DecidedExactly(user: string, auth: Oracle, op: Op, owner: string, name: string, id: string)
    requires user != ""
    ensures var job := Job(Some(owner), Some(name), Some(id));
            var r := Checked(true, Some(user), Some(auth), op, job);
            var entity := owner + "." + name + "." + id;
            var read, update := auth(entity, false), auth(entity, true);
            if Owned(user, job) then r.decision == Allow && r.reason == Own
            else if !Named(owner, name, id) then r.decision == Hide && r.reason == BadComponent
            else if read == 4 then r.decision == Hide && r.reason == LacksProfile
            else if read == 8 then r.decision == Hide && r.reason == LacksAccess
            else if read != 0 then r.decision == Hide && r.reason == BadAnswer
            else if !op.Purge? then r.decision == Allow && r.reason == HasRead
            else if update == 0 then r.decision == Allow && r.reason == HasUpdate
            else if update == 8 then r.decision == NoPurge && r.reason == HasRead
            else r.decision == Hide && r.reason == BadAnswer
  {
    FillerExact(owner);
    ComponentSpelled(owner);
    ComponentSpelled(name);
    ComponentSpelled(id);
    hide ComponentOk, Spelled, Filler;
  }

  /** How often is asked, and the last return code: once, and twice only to purge what may be read. */
  lemma AskedExactly(auth: Oracle, entity: string, update: bool)
    ensures var f := LevelOf(Some(auth), entity, update);
            if update && auth(entity, false) == 0 then f.calls == 2 && f.rc == auth(entity, true)
            else f.calls == 1 && f.rc == auth(entity, false)
    ensures LevelOf(None, entity, update).calls == 0 && LevelOf(None, entity, update).rc == -1
  {
  }

  /** An answer is remembered under the first eight characters, unless it is unusable or sixteen are. */
  lemma RememberedExactly(auth: Oracle, es: seq<Entry>, a: string, b: string, update: bool)
    requires Lookup(es, Key(a), update).None? && |es| < 16
    ensures var f := LevelOf(Some(auth), a, update);
            var held := Cached(Some(auth), es, a, update).1;
            if f.level.Unusable? then held == es
            else (a[..Least(8, |a|)] == b[..Least(8, |b|)] ==>
                    Cached(Some(auth), held, b, update).0 == Found(f.level, f.rc, 0))
                 && (a[..Least(8, |a|)] != b[..Least(8, |b|)] && Lookup(es, Key(b), update).None? ==>
                       Cached(Some(auth), held, b, update).0 == LevelOf(Some(auth), b, update))
  {
    FirstEight(a);
    FirstEight(b);
    hide LevelOf, Key, Lookup;
    var f := LevelOf(Some(auth), a, update);
    LookupSnoc(es, Entry(Key(a), update, f.level, f.rc), Key(b), update);
  }

  lemma FirstEight(s: string)
    ensures Key(s) == s[..Least(8, |s|)]
  {
  }

  lemma {:induction false} LookupSnoc(es: seq<Entry>, e: Entry, key: string, update: bool)
    ensures Lookup(es + [e], key, update)
         == if Lookup(es, key, update).Some? then Lookup(es, key, update) else if Hit(e, key, update) then Some(e)
            else None
  {
    if es != [] {
      assert (es + [e])[0] == es[0] && (es + [e])[1..] == es[1..] + [e];
      LookupSnoc(es[1..], e, key, update);
    } else {
      assert es + [e] == [e] && [e][1..] == [];
    }
  }

  /** Without a user, or without anyone to ask, nothing of another's is let through. */
  lemma NobodyAsked(acee: bool, user: Option<string>, auth: Option<Oracle>, op: Op, job: Job)
    ensures !acee || user.None? || user == Some("") ==>
              Checked(acee, user, auth, op, job) == Result(Hide, NoUser, Unusable, -1, 0)
    ensures acee && user.Some? && auth.None? && !Owned(user.value, job) ==>
              Checked(acee, user, auth, op, job).decision == Hide
  {
    if user.Some? {
      FillerExact(user.value);
    }
  }
}
