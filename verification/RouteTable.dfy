// The routes registered by main() in src/mvsmf.c and the lookup of src/router.c.
module RouteTable {
  import opened Wrappers
  import opened PathPatterns

  const MAX_ROUTES := 100

  datatype Verb = GET | POST | PUT | DELETE | HEAD | OPTIONS | PATCH

  datatype JobTail = OneJob | JobFiles | JobRecords

  datatype DatasetTail = Whole | MemberList | OneMember

  /** The resources the registered patterns name. */
  datatype Place =
    | Info
    | Test
    | TestWildcard
    | Authenticate
    | JobList
    | Job(job: JobTail)
    | DatasetList
    | Dataset(onVolume: bool, tail: DatasetTail)
    | UssList
    | UssPath
    | Console
    | Collect
    | Detect
    | Log

  /** One registered route; its pattern is the place's. */
  datatype Route = Route(verb: Verb, place: Place, handler: string)

  // --- the patterns ----------------------------------------------------------------------

  function Zosmf(word: string, next: Pattern): Pattern
  {
    Slash(Word("zosmf", Slash(Word(word, next))))
  }

  /** /{job-name}/{jobid} and what follows it. */
  function JobPattern(next: Pattern): (p: Pattern)
    ensures p.Slash?
  {
    Slash(Var("job-name", Slash(Var("jobid", next))))
  }

  function JobEnd(t: JobTail): Pattern
  {
    match t
    case OneJob => End
    case JobFiles => Slash(Word("files", End))
    case JobRecords => Slash(Word("files", Slash(Var("ddid", Slash(Word("records", End))))))
  }

  /** /{dataset-name} or /-({volume-serial})/{dataset-name}, and what follows it. */
  function DatasetPattern(onVolume: bool, next: Pattern): (p: Pattern)
    ensures p.Slash?
  {
    if onVolume then
      Slash(Word("-", Open(Var("volume-serial", Close(Slash(Var("dataset-name", next)))))))
    else
      Slash(Var("dataset-name", next))
  }

  function DatasetEnd(t: DatasetTail): Pattern
  {
    match t
    case Whole => End
    case MemberList => Slash(Word("member", End))
    case OneMember => Open(Var("member-name", Close(End)))
  }

  /** The word behind /zosmf/. */
  function Family(place: Place): string
  {
    match place
    case Info => "info"
    case Test => "test"
    case TestWildcard => "test"
    case Authenticate => "services"
    case JobList => "restjobs"
    case Job(_) => "restjobs"
    case DatasetList => "restfiles"
    case Dataset(_, _) => "restfiles"
    case UssList => "restfiles"
    case UssPath => "restfiles"
    case Console => "restconsoles"
    case Collect => "restconsoles"
    case Detect => "restconsoles"
    case Log => "restconsoles"
  }

  /** What follows that word. */
  function Tail(place: Place): Pattern
  {
    match place
    case Info => End
    case Test => End
    case TestWildcard => Slash(Word("wildcard", Slash(Wild("filepath"))))
    case Authenticate => Slash(Word("authenticate", End))
    case JobList => Slash(Word("jobs", End))
    case Job(t) => Slash(Word("jobs", JobPattern(JobEnd(t))))
    case DatasetList => Slash(Word("ds", End))
    case Dataset(v, t) => Slash(Word("ds", DatasetPattern(v, DatasetEnd(t))))
    case UssList => Slash(Word("fs", End))
    case UssPath => Slash(Word("fs", Slash(Wild("filepath"))))
    case Console => Slash(Word("consoles", Slash(Var("console-name", End))))
    case Collect => Slash(Word("consoles", Slash(Var("console-name",
        Slash(Word("solmsgs", Slash(Var("cmd-response-key", End))))))))
    case Detect => Slash(Word("consoles", Slash(Var("console-name",
        Slash(Word("detections", Slash(Var("detection-key", End))))))))
    case Log => Slash(Word("v1", Slash(Word("log", End))))
  }

  function PatternOf(place: Place): Pattern
  {
    Zosmf(Family(place), Tail(place))
  }

  // --- no path suits two places -------------------------------------------------------------

  predicate Sane(p: Pattern) { WellFormed(p) && Segmented(p) }

  lemma SaneDelimited(p: Pattern)
    requires Sane(p)
    ensures Sane(Slash(p)) && Sane(Open(p)) && Sane(Close(p))
  {
  }

  lemma SaneSpan(p: Pattern, name: string)
    requires Sane(p) && StartsDelimited(p)
    requires name != "" && forall i :: 0 <= i < |name| ==>
             !IsDelimiter(name[i]) && name[i] != '{' && name[i] != '}' && name[i] != '*'
    ensures Sane(Word(name, p)) && Sane(Var(name, p)) && Sane(Wild(name))
  {
  }

  lemma JobSane(next: Pattern)
    requires Sane(next) && StartsDelimited(next)
    ensures Sane(JobPattern(next))
  {
    SaneSpan(next, "jobid");
    SaneDelimited(Var("jobid", next));
    SaneSpan(Slash(Var("jobid", next)), "job-name");
  }

  lemma DatasetSane(onVolume: bool, next: Pattern)
    requires Sane(next) && StartsDelimited(next)
    ensures Sane(DatasetPattern(onVolume, next))
  {
    SaneSpan(next, "dataset-name");
    var name := Slash(Var("dataset-name", next));
    SaneDelimited(Var("dataset-name", next));
    SaneDelimited(name);
    SaneSpan(Close(name), "volume-serial");
    SaneDelimited(Var("volume-serial", Close(name)));
    SaneSpan(Open(Var("volume-serial", Close(name))), "-");
  }

  lemma JobEndSane(t: JobTail)
    ensures Sane(JobEnd(t)) && StartsDelimited(JobEnd(t))
  {
    SaneSpan(End, "files");
    SaneSpan(End, "records");
    SaneDelimited(Word("records", End));
    SaneSpan(Slash(Word("records", End)), "ddid");
    SaneDelimited(Var("ddid", Slash(Word("records", End))));
    SaneSpan(Slash(Var("ddid", Slash(Word("records", End)))), "files");
  }

  lemma DatasetEndSane(t: DatasetTail)
    ensures Sane(DatasetEnd(t)) && StartsDelimited(DatasetEnd(t))
  {
    SaneSpan(End, "member");
    SaneDelimited(Word("member", End));
    SaneSpan(Close(End), "member-name");
    SaneDelimited(Var("member-name", Close(End)));
  }

  lemma ZosmfSane(word: string, next: Pattern)
    requires Sane(next) && StartsDelimited(next)
    requires word != "" && forall i :: 0 <= i < |word| ==>
             !IsDelimiter(word[i]) && word[i] != '{' && word[i] != '}' && word[i] != '*'
    ensures Sane(Zosmf(word, next)) && Sane(Slash(Word(word, next)))
  {
    SaneSpan(next, word);
    SaneDelimited(Word(word, next));
    SaneSpan(Slash(Word(word, next)), "zosmf");
  }

  lemma ZosmfClash(v: string, w: string, x: Pattern, y: Pattern)
    ensures Clash(Zosmf(v, x), Zosmf(w, y)) <==> v != w || Clash(x, y)
  {
    assert Clash(Slash(Word(v, x)), Slash(Word(w, y))) <==> v != w || Clash(x, y);
  }

  lemma FamiliesDiffer(a: Place, b: Place)
    requires Family(a) == Family(b)
    ensures (a.Info? <==> b.Info?) && (a.Test? || a.TestWildcard? <==> b.Test? || b.TestWildcard?)
    ensures (a.Authenticate? <==> b.Authenticate?) && (a.JobList? || a.Job? <==> b.JobList? || b.Job?)
    ensures a.DatasetList? || a.Dataset? || a.UssList? || a.UssPath?
            <==> b.DatasetList? || b.Dataset? || b.UssList? || b.UssPath?
  {
    var w := [ "info", "test", "services", "restjobs", "restfiles", "restconsoles" ];
    assert w[0][0] == 'i' && w[1][0] == 't' && w[2][0] == 's';
    assert w[3][0] == 'r' && w[3][4] == 'j' && w[4][0] == 'r' && w[4][4] == 'f' && w[5][0] == 'r' && w[5][4] == 'c';
  }

  lemma JobsClash(a: Place, b: Place)
    requires a != b && (a.JobList? || a.Job?) && (b.JobList? || b.Job?)
    ensures Clash(Tail(a), Tail(b))
  {
    if a.Job? && b.Job? {
      var x, y := JobEnd(a.job), JobEnd(b.job);
      assert Clash(x, y);
      assert Clash(Slash(Var("jobid", x)), Slash(Var("jobid", y)));
      assert Clash(JobPattern(x), JobPattern(y));
    } else {
      assert JobPattern(JobEnd(if a.Job? then a.job else b.job)).Slash?;
    }
  }

  lemma DatasetsClash(v: bool, s: DatasetTail, w: bool, t: DatasetTail)
    requires v != w || s != t
    ensures Clash(DatasetPattern(v, DatasetEnd(s)), DatasetPattern(w, DatasetEnd(t)))
  {
    var x, y := DatasetEnd(s), DatasetEnd(t);
    assert s != t ==> Clash(x, y);
    var nx, ny := Slash(Var("dataset-name", x)), Slash(Var("dataset-name", y));
    assert s != t ==> Clash(nx, ny);
    var vx, vy := Var("volume-serial", Close(nx)), Var("volume-serial", Close(ny));
    assert s != t ==> Clash(vx, vy);
    assert s != t ==> Clash(Word("-", Open(vx)), Word("-", Open(vy)));
    if v != w {
      DatasetVolumeClash(s, vy);
      DatasetVolumeClash(t, vx);
    }
  }

  /** A plain data set name has no parenthesis, and a member form ends behind its own. */
  lemma DatasetVolumeClash(s: DatasetTail, vy: Pattern)
    requires vy.Var? && vy.next.Close? && vy.next.next.Slash?
    ensures Clash(Slash(Var("dataset-name", DatasetEnd(s))), Slash(Word("-", Open(vy))))
    ensures Clash(Slash(Word("-", Open(vy))), Slash(Var("dataset-name", DatasetEnd(s))))
  {
    var x := DatasetEnd(s);
    if s.OneMember? {
      assert Clash(Close(End), vy.next) && Clash(vy.next, Close(End));
      assert Clash(Var("member-name", Close(End)), vy) && Clash(vy, Var("member-name", Close(End)));
    }
    assert Clash(x, Open(vy)) && Clash(Open(vy), x);
  }

  lemma FilesClash(a: Place, b: Place)
    requires a != b
    requires a.DatasetList? || a.Dataset? || a.UssList? || a.UssPath?
    requires b.DatasetList? || b.Dataset? || b.UssList? || b.UssPath?
    ensures Clash(Tail(a), Tail(b))
  {
    assert "ds"[0] != "fs"[0];
    if a.Dataset? && b.Dataset? {
      DatasetsClash(a.onVolume, a.tail, b.onVolume, b.tail);
    }
  }

  /** What follows the name of a console. */
  function ConsoleEnd(place: Place): Pattern
  {
    match place
    case Collect => Slash(Word("solmsgs", Slash(Var("cmd-response-key", End))))
    case Detect => Slash(Word("detections", Slash(Var("detection-key", End))))
    case _ => End
  }

  lemma ConsoleEndsClash(a: Place, b: Place)
    requires a != b && (a.Console? || a.Collect? || a.Detect?) && (b.Console? || b.Collect? || b.Detect?)
    ensures Clash(ConsoleEnd(a), ConsoleEnd(b))
  {
    assert |"solmsgs"| != |"detections"|;
  }

  lemma ConsolesClash(a: Place, b: Place)
    requires a != b && (a.Console? || a.Collect? || a.Detect? || a.Log?)
             && (b.Console? || b.Collect? || b.Detect? || b.Log?)
    ensures Clash(Tail(a), Tail(b))
  {
    if a.Log? || b.Log? {
      assert |"consoles"| != |"v1"|;
    } else {
      ConsoleEndsClash(a, b);
      var x, y := ConsoleEnd(a), ConsoleEnd(b);
      hide ConsoleEnd;
      assert Clash(Slash(Var("console-name", x)), Slash(Var("console-name", y)));
      assert Tail(a) == Slash(Word("consoles", Slash(Var("console-name", x)))) by { ConsoleTail(a); }
      assert Tail(b) == Slash(Word("consoles", Slash(Var("console-name", y)))) by { ConsoleTail(b); }
    }
  }

  lemma ConsoleTail(place: Place)
    requires place.Console? || place.Collect? || place.Detect?
    ensures Tail(place) == Slash(Word("consoles", Slash(Var("console-name", ConsoleEnd(place)))))
  {
  }

  /** Different places never share a path. */
  lemma PlacesClash(a: Place, b: Place)
    requires a != b
    ensures Clash(PatternOf(a), PatternOf(b))
  {
    ZosmfClash(Family(a), Family(b), Tail(a), Tail(b));
    if Family(a) == Family(b) {
      FamiliesDiffer(a, b);
      hide Family;
      if a.JobList? || a.Job? {
        hide Tail;
        JobsClash(a, b);
      } else if a.DatasetList? || a.Dataset? || a.UssList? || a.UssPath? {
        hide Tail;
        FilesClash(a, b);
      } else if a.Console? || a.Collect? || a.Detect? || a.Log? {
        hide Tail;
        ConsolesClash(a, b);
      }
    }
  }

  lemma PatternsAreSane(place: Place)
    ensures Sane(PatternOf(place))
  {
    TailSane(place);
    ZosmfSane(Family(place), Tail(place));
  }

  lemma TailSane(place: Place)
    ensures Sane(Tail(place)) && StartsDelimited(Tail(place))
  {
    hide WellFormed, Segmented, JobEnd, JobPattern, DatasetEnd, DatasetPattern;
    assert Sane(End) by { EndSane(); }
    match place {
      case Info =>
      case Test =>
      case TestWildcard =>
        SaneSpan(End, "filepath");
        SaneDelimited(Wild("filepath"));
        ZosmfSane("wildcard", Slash(Wild("filepath")));
      case Authenticate => ZosmfSane("authenticate", End);
      case JobList => ZosmfSane("jobs", End);
      case Job(t) =>
        JobEndSane(t);
        JobSane(JobEnd(t));
        ZosmfSane("jobs", JobPattern(JobEnd(t)));
      case DatasetList => ZosmfSane("ds", End);
      case Dataset(v, t) =>
        DatasetEndSane(t);
        DatasetSane(v, DatasetEnd(t));
        ZosmfSane("ds", DatasetPattern(v, DatasetEnd(t)));
      case UssList => ZosmfSane("fs", End);
      case UssPath =>
        SaneSpan(End, "filepath");
        SaneDelimited(Wild("filepath"));
        ZosmfSane("fs", Slash(Wild("filepath")));
      case Console => ConsoleSane(End);
      case Collect =>
        SaneSpan(End, "cmd-response-key");
        SaneDelimited(Var("cmd-response-key", End));
        ZosmfSane("solmsgs", Slash(Var("cmd-response-key", End)));
        ConsoleSane(Slash(Word("solmsgs", Slash(Var("cmd-response-key", End)))));
      case Detect =>
        SaneSpan(End, "detection-key");
        SaneDelimited(Var("detection-key", End));
        ZosmfSane("detections", Slash(Var("detection-key", End)));
        ConsoleSane(Slash(Word("detections", Slash(Var("detection-key", End)))));
      case Log =>
        ZosmfSane("log", End);
        ZosmfSane("v1", Slash(Word("log", End)));
    }
  }

  lemma EndSane()
    ensures Sane(End)
  {
  }

  lemma ConsoleSane(next: Pattern)
    requires Sane(next) && StartsDelimited(next)
    ensures Sane(Slash(Word("consoles", Slash(Var("console-name", next)))))
  {
    SaneSpan(next, "console-name");
    SaneDelimited(Var("console-name", next));
    ZosmfSane("consoles", Slash(Var("console-name", next)));
  }

  /** A path that two places match is the path of one place. */
  lemma OnePlace(a: Place, b: Place, path: string)
    requires Matches(Text(PatternOf(a)), path) && Matches(Text(PatternOf(b)), path)
    ensures a == b
  {
    if a != b {
      hide PatternOf, Clash, Matches, Text, Sane;
      PlacesClash(a, b);
      SaneParts(a);
      SaneParts(b);
      ClashExcludes(PatternOf(a), PatternOf(b), path);
      assert false;
    }
  }

  lemma SaneParts(place: Place)
    ensures WellFormed(PatternOf(place)) && Segmented(PatternOf(place))
  {
    hide PatternOf;
    PatternsAreSane(place);
  }

  // --- the table ------------------------------------------------------------------------------

  function HandlerOf(verb: Verb, place: Place): string
  {
    match place
    case Info => "info"
    case Test => "test"
    case TestWildcard => "testWildcard"
    case Authenticate => if verb.POST? then "authLogin" else "authLogout"
    case JobList => if verb.GET? then "jobList" else "jobSubmit"
    case Job(OneJob) => if verb.GET? then "jobStatus" else if verb.PUT? then "jobCancel" else "jobPurge"
    case Job(JobFiles) => "jobFiles"
    case Job(JobRecords) => "jobRecords"
    case DatasetList => "datasetList"
    case Dataset(_, Whole) =>
      if verb.GET? then "datasetGet" else if verb.PUT? then "datasetPut"
      else if verb.POST? then "datasetCreate" else "datasetDelete"
    case Dataset(_, MemberList) => "memberList"
    case Dataset(_, OneMember) => if verb.GET? then "memberGet" else if verb.PUT? then "memberPut" else "memberDelete"
    case UssList => "ussList"
    case UssPath =>
      if verb.GET? then "ussGet" else if verb.PUT? then "ussPut" else if verb.POST? then "ussCreate" else "ussDelete"
    case Console => "consoleIssue"
    case Collect => "consoleCollect"
    case Detect => "consoleDetect"
    case Log => "consoleLog"
  }

  function At(verb: Verb, place: Place): Route
  {
    Route(verb, place, HandlerOf(verb, place))
  }

  /** The routes in the order of main(); the test endpoint is a development build's. */
  function Registered(dev: bool): seq<Route>
  {
    [At(GET, Info)] + (if dev then [At(GET, Test), At(GET, TestWildcard)] else [])
    + JobRoutes() + DatasetRoutes() + OtherRoutes() + FileRoutes()
  }

  function JobRoutes(): seq<Route>
  {
    [At(POST, Authenticate), At(DELETE, Authenticate),
     At(GET, JobList), At(GET, Job(JobFiles)), At(GET, Job(JobRecords)), At(PUT, JobList),
     At(GET, Job(OneJob)), At(PUT, Job(OneJob)), At(DELETE, Job(OneJob))]
  }

  function DatasetRoutes(): seq<Route>
  {
    [At(GET, DatasetList),
     At(GET, Dataset(false, Whole)), At(GET, Dataset(true, Whole)),
     At(PUT, Dataset(false, Whole)), At(PUT, Dataset(true, Whole)),
     At(POST, Dataset(false, Whole)),
     At(DELETE, Dataset(false, Whole)), At(DELETE, Dataset(true, Whole)),
     At(GET, Dataset(false, MemberList)), At(GET, Dataset(true, MemberList)),
     At(GET, Dataset(false, OneMember)), At(GET, Dataset(true, OneMember)),
     At(PUT, Dataset(false, OneMember)), At(PUT, Dataset(true, OneMember)),
     At(DELETE, Dataset(false, OneMember)), At(DELETE, Dataset(true, OneMember))]
  }

  function OtherRoutes(): seq<Route>
  {
    [At(GET, UssList),
     At(PUT, Console), At(GET, Collect), At(GET, Detect), At(GET, Log)]
  }

  function FileRoutes(): seq<Route>
  {
    [At(GET, UssPath), At(PUT, UssPath), At(POST, UssPath), At(DELETE, UssPath)]
  }

  /** Every route is one of main()'s: it serves its place with that place's handler. */
  ghost predicate Genuine(rs: seq<Route>)
  {
    forall i :: 0 <= i < |rs| ==> rs[i] == At(rs[i].verb, rs[i].place)
  }

  predicate Serves(r: Route, verb: Verb, path: string)
  {
    r.verb == verb && Matches(Text(PatternOf(r.place)), path)
  }

  /** find_route(): the first route that serves the request. */
  function Lookup(rs: seq<Route>, verb: Verb, path: string): (found: Option<Route>)
  {
    if rs == [] then None else if Serves(rs[0], verb, path) then Some(rs[0]) else Lookup(rs[1..], verb, path)
  }

  class Router {
    const routes: array<Route>
    var count: nat

    constructor ()
      ensures fresh(routes) && routes.Length == MAX_ROUTES && count == 0
    {
      routes := new Route[MAX_ROUTES](i => At(GET, Info));
      count := 0;
    }

    predicate Valid()
      reads this
    {
      routes.Length == MAX_ROUTES && count <= MAX_ROUTES
    }

    /** add_route(): a route beyond the hundredth is dropped. */
    method AddRoute(r: Route)
      requires Valid()
      modifies this`count, routes
      ensures Valid()
      ensures routes[..count] == if old(count) < 100 then old(routes[..count]) + [r] else old(routes[..count])
    {
      if count >= MAX_ROUTES {
        return;
      }
      routes[count] := r;
      count := count + 1;
    }

    /** The registration in main(). */
    method Register(rs: seq<Route>)
      requires Valid() && count + |rs| <= MAX_ROUTES
      modifies this`count, routes
      ensures Valid() && routes[..count] == old(routes[..count]) + rs
    {
      for i := 0 to |rs|
        invariant Valid() && count == old(count) + i
        invariant routes[..count] == old(routes[..count]) + rs[..i]
      {
        AddRoute(rs[i]);
      }
    }

    method FindRoute(verb: Verb, path: string) returns (found: Option<Route>)
      requires Valid()
      ensures found == Lookup(routes[..count], verb, path)
    {
      hide PatternOf, Matches, Text;
      for i := 0 to count
        invariant Lookup(routes[..count], verb, path) == Lookup(routes[i..count], verb, path)
      {
        assert routes[i..count][0] == routes[i] && routes[i..count][1..] == routes[i + 1..count];
        if routes[i].verb == verb {
          var matched := PatternMatch(Text(PatternOf(routes[i].place)), path);
          if matched {
            return Some(routes[i]);
          }
        }
      }
      return None;
    }

    /** path_is_known(): some route serves the path with some verb. */
    method PathIsKnown(path: string) returns (known: bool)
      requires Valid()
      ensures known <==> exists i :: 0 <= i < count && Matches(Text(PatternOf(routes[i].place)), path)
    {
      hide PatternOf, Matches, Text;
      for i := 0 to count
        invariant forall j :: 0 <= j < i ==> !Matches(Text(PatternOf(routes[j].place)), path)
      {
        known := PatternMatch(Text(PatternOf(routes[i].place)), path);
        if known {
          return;
        }
      }
      return false;
    }
  }

  lemma {:induction false} LookupFinds(rs: seq<Route>, verb: Verb, path: string)
    ensures Lookup(rs, verb, path).None? <==> forall r :: r in rs ==> !Serves(r, verb, path)
    ensures var found := Lookup(rs, verb, path);
            found.Some? ==> found.value in rs && Serves(found.value, verb, path)
  {
    hide Serves;
    if rs != [] {
      LookupFinds(rs[1..], verb, path);
      assert forall r :: r in rs <==> r == rs[0] || r in rs[1..];
    }
  }

  /** The table is unambiguous: no request is served by two different routes. */
  lemma AtMostOneRoute(rs: seq<Route>, verb: Verb, path: string, i: nat, j: nat)
    requires Genuine(rs) && i < |rs| && j < |rs|
    requires Serves(rs[i], verb, path) && Serves(rs[j], verb, path)
    ensures rs[i] == rs[j]
  {
    OnePlace(rs[i].place, rs[j].place, path);
  }

  lemma RegisteredIsGenuine(dev: bool)
    ensures Genuine(Registered(dev)) && |Registered(dev)| <= 100
  {
    hide HandlerOf;
  }

  /** So the order of registration does not matter: any arrangement of the table answers alike. */
  lemma OrderIrrelevant(dev: bool, rs: seq<Route>, verb: Verb, path: string)
    requires forall r :: r in rs <==> r in Registered(dev)
    ensures Lookup(rs, verb, path) == Lookup(Registered(dev), verb, path)
  {
    hide Registered, Lookup, Serves;
    var table := Registered(dev);
    RegisteredIsGenuine(dev);
    LookupFinds(rs, verb, path);
    LookupFinds(table, verb, path);
    var a, b := Lookup(rs, verb, path), Lookup(table, verb, path);
    if a.Some? && b.Some? {
      var i :| 0 <= i < |table| && table[i] == a.value;
      var j :| 0 <= j < |table| && table[j] == b.value;
      AtMostOneRoute(table, verb, path, i, j);
    }
  }

  // --- the texts as they are registered --------------------------------------------------------

  function Path(segments: seq<string>): string
  {
    if segments == [] then "" else "/" + segments[0] + Path(segments[1..])
  }

  function JobSegments(t: JobTail): seq<string>
  {
    match t
    case OneJob => []
    case JobFiles => ["files"]
    case JobRecords => ["files", "{ddid}", "records"]
  }

  function DatasetSegments(t: DatasetTail): seq<string>
  {
    match t
    case Whole => ["{dataset-name}"]
    case MemberList => ["{dataset-name}", "member"]
    case OneMember => ["{dataset-name}({member-name})"]
  }

  /** What main() registers a place under, segment by segment behind /zosmf. */
  function Segments(place: Place): seq<string>
  {
    match place
    case Info => ["info"]
    case Test => ["test"]
    case TestWildcard => ["test", "wildcard", "{*filepath}"]
    case Authenticate => ["services", "authenticate"]
    case JobList => ["restjobs", "jobs"]
    case Job(t) => ["restjobs", "jobs", "{job-name}", "{jobid}"] + JobSegments(t)
    case DatasetList => ["restfiles", "ds"]
    case Dataset(false, t) => ["restfiles", "ds"] + DatasetSegments(t)
    case Dataset(true, t) => ["restfiles", "ds", "-({volume-serial})"] + DatasetSegments(t)
    case UssList => ["restfiles", "fs"]
    case UssPath => ["restfiles", "fs", "{*filepath}"]
    case Console => ["restconsoles", "consoles", "{console-name}"]
    case Collect => ["restconsoles", "consoles", "{console-name}", "solmsgs", "{cmd-response-key}"]
    case Detect => ["restconsoles", "consoles", "{console-name}", "detections", "{detection-key}"]
    case Log => ["restconsoles", "v1", "log"]
  }

  lemma WordPath(word: string, next: Pattern, segments: seq<string>)
    requires Text(next) == Path(segments)
    ensures Text(Slash(Word(word, next))) == Path([word] + segments)
  {
    assert ([word] + segments)[1..] == segments;
    assert Text(Word(word, next)) == word + Text(next);
  }

  lemma VarPath(name: string, segment: string, next: Pattern, segments: seq<string>)
    requires Text(next) == Path(segments) && segment == "{" + name + "}"
    ensures Text(Slash(Var(name, next))) == Path([segment] + segments)
  {
    assert ([segment] + segments)[1..] == segments;
    assert Text(Var(name, next)) == segment + Text(next);
  }

  lemma WildPath(name: string, segment: string)
    requires segment == "{*" + name + "}"
    ensures Text(Slash(Wild(name))) == Path([segment])
  {
    assert [segment][1..] == [];
    assert Text(Wild(name)) == segment;
  }

  lemma EndPath()
    ensures Text(End) == Path([])
  {
  }

  lemma JobPath(t: JobTail)
    ensures Text(JobPattern(JobEnd(t))) == Path(["{job-name}", "{jobid}"] + JobSegments(t))
  {
    hide Text, Path;
    EndPath();
    match t {
      case OneJob =>
      case JobFiles => WordPath("files", End, []);
      case JobRecords =>
        WordPath("records", End, []);
        assert ["records"] + [] == ["records"];
        VarPath("ddid", "{ddid}", Slash(Word("records", End)), ["records"]);
        assert ["{ddid}"] + ["records"] == ["{ddid}", "records"];
        WordPath("files", Slash(Var("ddid", Slash(Word("records", End)))), ["{ddid}", "records"]);
        assert ["files"] + ["{ddid}", "records"] == JobSegments(t);
    }
    assert JobSegments(JobFiles) == ["files"] + [];
    VarPath("jobid", "{jobid}", JobEnd(t), JobSegments(t));
    VarPath("job-name", "{job-name}", Slash(Var("jobid", JobEnd(t))), ["{jobid}"] + JobSegments(t));
    assert ["{job-name}"] + (["{jobid}"] + JobSegments(t)) == ["{job-name}", "{jobid}"] + JobSegments(t);
  }

  /** A variable in parentheses. */
  lemma ParenthesisText(name: string, braced: string, next: Pattern)
    requires braced == "{" + name + "}"
    ensures Text(Open(Var(name, Close(next)))) == "(" + braced + ")" + Text(next)
  {
    assert Text(Close(next)) == ")" + Text(next);
    assert Text(Var(name, Close(next))) == braced + (")" + Text(next));
    assert "(" + (braced + (")" + Text(next))) == "(" + braced + ")" + Text(next);
  }

  lemma MemberText()
    ensures Text(Var("dataset-name", DatasetEnd(OneMember))) == "{dataset-name}({member-name})"
  {
    assert "{" + "member-name" + "}" == "{member-name}" && "{" + "dataset-name" + "}" == "{dataset-name}";
    ParenthesisText("member-name", "{member-name}", End);
    assert Text(Var("dataset-name", DatasetEnd(OneMember))) == "{dataset-name}" + Text(DatasetEnd(OneMember));
    hide Text;
    assert Text(End) == "" by { EndText(); }
    assert "{dataset-name}" + ("(" + "{member-name}" + ")" + "") == "{dataset-name}({member-name})";
  }

  lemma EndText()
    ensures Text(End) == ""
  {
  }

  lemma MemberPath()
    ensures Text(Slash(Var("dataset-name", DatasetEnd(OneMember)))) == Path(DatasetSegments(OneMember))
  {
    MemberText();
    var last := "{dataset-name}({member-name})";
    assert [last][1..] == [] && "/" + last + "" == "/" + last;
  }

  lemma DatasetPath(t: DatasetTail)
    ensures Text(Slash(Var("dataset-name", DatasetEnd(t)))) == Path(DatasetSegments(t))
  {
    hide Text, Path;
    EndPath();
    match t {
      case Whole =>
        VarPath("dataset-name", "{dataset-name}", End, []);
        assert ["{dataset-name}"] + [] == DatasetSegments(t);
      case MemberList =>
        WordPath("member", End, []);
        assert ["member"] + [] == ["member"];
        VarPath("dataset-name", "{dataset-name}", Slash(Word("member", End)), ["member"]);
        assert ["{dataset-name}"] + ["member"] == DatasetSegments(t);
      case OneMember => MemberPath();
    }
  }

  /** The volume in front of a data set. */
  lemma VolumePath(next: Pattern, segments: seq<string>)
    requires Text(next) == Path(segments)
    ensures Text(Slash(Word("-", Open(Var("volume-serial", Close(next)))))) == Path(["-({volume-serial})"] + segments)
  {
    VolumeText(next);
    var first := "-({volume-serial})";
    assert ([first] + segments)[1..] == segments;
  }

  lemma VolumeNames()
    ensures "{" + "volume-serial" + "}" == "{volume-serial}"
            && "-" + "(" + "{volume-serial}" + ")" == "-({volume-serial})"
  {
  }

  /** A word in front of it. */
  lemma WordParenthesis(word: string, name: string, braced: string, next: Pattern)
    requires braced == "{" + name + "}"
    ensures Text(Word(word, Open(Var(name, Close(next))))) == word + "(" + braced + ")" + Text(next)
  {
    ParenthesisText(name, braced, next);
    var inner := Text(Open(Var(name, Close(next))));
    assert Text(Word(word, Open(Var(name, Close(next))))) == word + inner;
    hide Text;
    assert word + ("(" + braced + ")" + Text(next)) == word + "(" + braced + ")" + Text(next);
  }

  lemma VolumeText(next: Pattern)
    ensures Text(Word("-", Open(Var("volume-serial", Close(next))))) == "-({volume-serial})" + Text(next)
  {
    hide Text;
    VolumeNames();
    WordParenthesis("-", "volume-serial", "{volume-serial}", next);
  }

  /** Two words, and what follows them. */
  lemma TwoWords(first: string, second: string, next: Pattern, segments: seq<string>)
    requires Text(next) == Path(segments)
    ensures Text(Slash(Word(first, Slash(Word(second, next))))) == Path([first, second] + segments)
  {
    hide Text, Path;
    WordPath(second, next, segments);
    WordPath(first, Slash(Word(second, next)), [second] + segments);
    assert [first] + ([second] + segments) == [first, second] + segments;
  }

  lemma SimplePath(place: Place)
    requires !place.Job? && !place.Dataset? && !place.Console? && !place.Collect? && !place.Detect?
    ensures Text(Slash(Word(Family(place), Tail(place)))) == Path(Segments(place))
  {
    EndPath();
    WildPath("filepath", "{*filepath}");
    hide Text, Path;
    match place {
      case Info => WordPath("info", End, []);
      case Test => WordPath("test", End, []);
      case TestWildcard => TwoWords("test", "wildcard", Slash(Wild("filepath")), ["{*filepath}"]);
      case Authenticate => TwoWords("services", "authenticate", End, []);
      case JobList => TwoWords("restjobs", "jobs", End, []);
      case DatasetList => TwoWords("restfiles", "ds", End, []);
      case UssList => TwoWords("restfiles", "fs", End, []);
      case UssPath => TwoWords("restfiles", "fs", Slash(Wild("filepath")), ["{*filepath}"]);
      case Log =>
        WordPath("log", End, []);
        assert ["log"] + [] == ["log"];
        TwoWords("restconsoles", "v1", Slash(Word("log", End)), ["log"]);
    }
    assert Segments(place) == Segments(place) + [];
  }

  lemma ConsolePath(place: Place)
    requires place.Console? || place.Collect? || place.Detect?
    ensures Text(Slash(Word(Family(place), Tail(place)))) == Path(Segments(place))
  {
    EndPath();
    hide Text, Path;
    var end: seq<string> := [];
    match place {
      case Console =>
      case Collect =>
        VarPath("cmd-response-key", "{cmd-response-key}", End, []);
        WordPath("solmsgs", Slash(Var("cmd-response-key", End)), ["{cmd-response-key}"] + []);
        end := ["solmsgs", "{cmd-response-key}"];
        assert ["solmsgs"] + (["{cmd-response-key}"] + []) == end;
      case Detect =>
        VarPath("detection-key", "{detection-key}", End, []);
        WordPath("detections", Slash(Var("detection-key", End)), ["{detection-key}"] + []);
        end := ["detections", "{detection-key}"];
        assert ["detections"] + (["{detection-key}"] + []) == end;
    }
    VarPath("console-name", "{console-name}", ConsoleEnd(place), end);
    TwoWords("restconsoles", "consoles", Slash(Var("console-name", ConsoleEnd(place))), ["{console-name}"] + end);
    assert ["restconsoles", "consoles"] + (["{console-name}"] + end) == Segments(place);
  }

  lemma TailPath(place: Place)
    ensures Text(Slash(Word(Family(place), Tail(place)))) == Path(Segments(place))
  {
    hide Text, Path;
    match place {
      case Job(t) =>
        JobPath(t);
        TwoWords("restjobs", "jobs", JobPattern(JobEnd(t)), ["{job-name}", "{jobid}"] + JobSegments(t));
        assert ["restjobs", "jobs"] + (["{job-name}", "{jobid}"] + JobSegments(t)) == Segments(place);
      case Dataset(false, t) =>
        DatasetPath(t);
        TwoWords("restfiles", "ds", Slash(Var("dataset-name", DatasetEnd(t))), DatasetSegments(t));
      case Dataset(true, t) =>
        DatasetPath(t);
        VolumePath(Slash(Var("dataset-name", DatasetEnd(t))), DatasetSegments(t));
        TwoWords("restfiles", "ds", DatasetPattern(true, DatasetEnd(t)), ["-({volume-serial})"] + DatasetSegments(t));
        assert ["restfiles", "ds"] + (["-({volume-serial})"] + DatasetSegments(t)) == Segments(place);
      case Console => ConsolePath(place);
      case Collect => ConsolePath(place);
      case Detect => ConsolePath(place);
      case _ => SimplePath(place);
    }
  }

  /** The patterns of the places are the texts registered. */
  lemma TextIsRegistered(place: Place)
    ensures Text(PatternOf(place)) == Path(["zosmf"] + Segments(place))
  {
    TailPath(place);
    hide Text, Path, Tail, Segments, Family;
    WordPath("zosmf", Slash(Word(Family(place), Tail(place))), Segments(place));
  }

  // --- the table spelled --------------------------------------------------------------------------

  /** A registration: the verb, the path segment by segment behind /zosmf, and the handler. */
  datatype Entry = Entry(verb: Verb, segments: seq<string>, handler: string)

  function Entries(dev: bool): seq<Entry>
  {
    [Entry(GET, ["info"], "info")]
    + (if dev then [Entry(GET, ["test"], "test"), Entry(GET, ["test", "wildcard", "{*filepath}"], "testWildcard")]
       else [])
    + JobEntries() + DatasetEntries() + OtherEntries() + FileEntries()
  }

  function JobEntries(): seq<Entry>
  {
    [Entry(POST, ["services", "authenticate"], "authLogin"),
     Entry(DELETE, ["services", "authenticate"], "authLogout"),
     Entry(GET, ["restjobs", "jobs"], "jobList"),
     Entry(GET, ["restjobs", "jobs", "{job-name}", "{jobid}", "files"], "jobFiles"),
     Entry(GET, ["restjobs", "jobs", "{job-name}", "{jobid}", "files", "{ddid}", "records"], "jobRecords"),
     Entry(PUT, ["restjobs", "jobs"], "jobSubmit"),
     Entry(GET, ["restjobs", "jobs", "{job-name}", "{jobid}"], "jobStatus"),
     Entry(PUT, ["restjobs", "jobs", "{job-name}", "{jobid}"], "jobCancel"),
     Entry(DELETE, ["restjobs", "jobs", "{job-name}", "{jobid}"], "jobPurge")]
  }

  function DatasetEntries(): seq<Entry>
  {
    [Entry(GET, ["restfiles", "ds"], "datasetList"),
     Entry(GET, ["restfiles", "ds", "{dataset-name}"], "datasetGet"),
     Entry(GET, ["restfiles", "ds", "-({volume-serial})", "{dataset-name}"], "datasetGet"),
     Entry(PUT, ["restfiles", "ds", "{dataset-name}"], "datasetPut"),
     Entry(PUT, ["restfiles", "ds", "-({volume-serial})", "{dataset-name}"], "datasetPut"),
     Entry(POST, ["restfiles", "ds", "{dataset-name}"], "datasetCreate"),
     Entry(DELETE, ["restfiles", "ds", "{dataset-name}"], "datasetDelete"),
     Entry(DELETE, ["restfiles", "ds", "-({volume-serial})", "{dataset-name}"], "datasetDelete"),
     Entry(GET, ["restfiles", "ds", "{dataset-name}", "member"], "memberList"),
     Entry(GET, ["restfiles", "ds", "-({volume-serial})", "{dataset-name}", "member"], "memberList"),
     Entry(GET, ["restfiles", "ds", "{dataset-name}({member-name})"], "memberGet"),
     Entry(GET, ["restfiles", "ds", "-({volume-serial})", "{dataset-name}({member-name})"], "memberGet"),
     Entry(PUT, ["restfiles", "ds", "{dataset-name}({member-name})"], "memberPut"),
     Entry(PUT, ["restfiles", "ds", "-({volume-serial})", "{dataset-name}({member-name})"], "memberPut"),
     Entry(DELETE, ["restfiles", "ds", "{dataset-name}({member-name})"], "memberDelete"),
     Entry(DELETE, ["restfiles", "ds", "-({volume-serial})", "{dataset-name}({member-name})"], "memberDelete")]
  }

  function OtherEntries(): seq<Entry>
  {
    [Entry(GET, ["restfiles", "fs"], "ussList"),
     Entry(PUT, ["restconsoles", "consoles", "{console-name}"], "consoleIssue"),
     Entry(GET, ["restconsoles", "consoles", "{console-name}", "solmsgs", "{cmd-response-key}"], "consoleCollect"),
     Entry(GET, ["restconsoles", "consoles", "{console-name}", "detections", "{detection-key}"], "consoleDetect"),
     Entry(GET, ["restconsoles", "v1", "log"], "consoleLog")]
  }

  function FileEntries(): seq<Entry>
  {
    [Entry(GET, ["restfiles", "fs", "{*filepath}"], "ussGet"),
     Entry(PUT, ["restfiles", "fs", "{*filepath}"], "ussPut"),
     Entry(POST, ["restfiles", "fs", "{*filepath}"], "ussCreate"),
     Entry(DELETE, ["restfiles", "fs", "{*filepath}"], "ussDelete")]
  }

  /** The route serves what the registration says, with the handler it names. */
  ghost predicate IsEntry(r: Route, e: Entry)
  {
    r.verb == e.verb && Text(PatternOf(r.place)) == Path(["zosmf"] + e.segments) && r.handler == e.handler
  }

  lemma EntryOf(r: Route, e: Entry)
    requires r.verb == e.verb && Segments(r.place) == e.segments && r.handler == e.handler
    ensures IsEntry(r, e)
  {
    TextIsRegistered(r.place);
  }

  lemma SegmentsSpelled()
    ensures Segments(Authenticate) == ["services", "authenticate"] && Segments(JobList) == ["restjobs", "jobs"]
    ensures Segments(DatasetList) == ["restfiles", "ds"] && Segments(UssList) == ["restfiles", "fs"]
    ensures Segments(UssPath) == ["restfiles", "fs", "{*filepath}"] && Segments(Log) == ["restconsoles", "v1", "log"]
    ensures Segments(Console) == ["restconsoles", "consoles", "{console-name}"]
    ensures Segments(Collect) == ["restconsoles", "consoles", "{console-name}", "solmsgs", "{cmd-response-key}"]
    ensures Segments(Detect) == ["restconsoles", "consoles", "{console-name}", "detections", "{detection-key}"]
    ensures Segments(Job(OneJob)) == ["restjobs", "jobs", "{job-name}", "{jobid}"]
    ensures Segments(Job(JobFiles)) == ["restjobs", "jobs", "{job-name}", "{jobid}", "files"]
    ensures Segments(Job(JobRecords)) == ["restjobs", "jobs", "{job-name}", "{jobid}", "files", "{ddid}", "records"]
    ensures Segments(Dataset(false, Whole)) == ["restfiles", "ds", "{dataset-name}"]
    ensures Segments(Dataset(true, Whole)) == ["restfiles", "ds", "-({volume-serial})", "{dataset-name}"]
    ensures Segments(Dataset(false, MemberList)) == ["restfiles", "ds", "{dataset-name}", "member"]
    ensures Segments(Dataset(true, MemberList)) == ["restfiles", "ds", "-({volume-serial})", "{dataset-name}", "member"]
    ensures Segments(Dataset(false, OneMember)) == ["restfiles", "ds", "{dataset-name}({member-name})"]
    ensures Segments(Dataset(true, OneMember))
            == ["restfiles", "ds", "-({volume-serial})", "{dataset-name}({member-name})"]
  {
  }

  ghost predicate Lists(rs: seq<Route>, es: seq<Entry>)
  {
    |rs| == |es| && forall i :: 0 <= i < |rs| ==> IsEntry(rs[i], es[i])
  }

  lemma JobsSpelled()
    ensures Lists(JobRoutes(), JobEntries())
  {
    hide IsEntry, Segments;
    SegmentsSpelled();
    forall i | 0 <= i < |JobRoutes()|
      ensures IsEntry(JobRoutes()[i], JobEntries()[i])
    {
      EntryOf(JobRoutes()[i], JobEntries()[i]);
    }
  }

  lemma DatasetsSpelled()
    ensures Lists(DatasetRoutes(), DatasetEntries())
  {
    hide IsEntry, Segments;
    SegmentsSpelled();
    forall i | 0 <= i < |DatasetRoutes()|
      ensures IsEntry(DatasetRoutes()[i], DatasetEntries()[i])
    {
      EntryOf(DatasetRoutes()[i], DatasetEntries()[i]);
    }
  }

  lemma OthersSpelled()
    ensures Lists(OtherRoutes(), OtherEntries())
  {
    hide IsEntry, Segments;
    SegmentsSpelled();
    forall i | 0 <= i < |OtherRoutes()|
      ensures IsEntry(OtherRoutes()[i], OtherEntries()[i])
    {
      EntryOf(OtherRoutes()[i], OtherEntries()[i]);
    }
  }

  lemma FilesSpelled()
    ensures Lists(FileRoutes(), FileEntries())
  {
    hide IsEntry, Segments;
    SegmentsSpelled();
    forall i | 0 <= i < |FileRoutes()|
      ensures IsEntry(FileRoutes()[i], FileEntries()[i])
    {
      EntryOf(FileRoutes()[i], FileEntries()[i]);
    }
  }

  /** Route by route, the table is the registrations spelled out. */
  lemma TableSpelled(dev: bool)
    ensures Lists(Registered(dev), Entries(dev))
  {
    EntryOf(At(GET, Info), Entry(GET, ["info"], "info"));
    EntryOf(At(GET, Test), Entry(GET, ["test"], "test"));
    EntryOf(At(GET, TestWildcard), Entry(GET, ["test", "wildcard", "{*filepath}"], "testWildcard"));
    hide IsEntry, HandlerOf, JobRoutes, DatasetRoutes, OtherRoutes, FileRoutes;
    hide JobEntries, DatasetEntries, OtherEntries, FileEntries;
    JobsSpelled();
    DatasetsSpelled();
    OthersSpelled();
    FilesSpelled();
  }
}
