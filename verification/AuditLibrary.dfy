/** The three hooks over their three static variables, and whole loader runs of them. */
module AuditLibrary {
  import opened Common
  import opened AuditPath
  import opened AuditRun

  /** The first path that opens. */
  function FirstOpen(paths: seq<string>, opens: string -> bool): Option<string> {
    if paths == [] then None else if opens(paths[0]) then Some(paths[0]) else FirstOpen(paths[1..], opens)
  }

  lemma {:induction false} FirstOpenAfterFailures(paths: seq<string>, tried: seq<string>, opens: string -> bool)
    requires tried <= paths
    ensures AllFailed(tried, opens) && tried == paths ==> FirstOpen(paths, opens) == None
    ensures tried != [] && AllFailed(tried[..|tried| - 1], opens) && opens(tried[|tried| - 1]) ==>
      FirstOpen(paths, opens) == Some(tried[|tried| - 1])
    decreases |tried|
  {
    if tried != [] {
      var more, rest := tried[1..], paths[1..];
      assert |tried| == |more| + 1 && (more != [] ==> more[|more| - 1] == tried[|tried| - 1]);
      assert more != [] ==> more[..|more| - 1] == tried[..|tried| - 1][1..];
      assert AllFailed(tried[..|tried| - 1], opens) && more != [] ==> !opens(tried[0]) by {
        if AllFailed(tried[..|tried| - 1], opens) && more != [] { assert tried[..|tried| - 1][0] == tried[0]; }
      }
      assert AllFailed(tried[..|tried| - 1], opens) && more != [] ==> AllFailed(more[..|more| - 1], opens);
      FirstOpenAfterFailures(rest, more, opens);
    }
  }

  /** The state after `la_version` with the files `paths` to look at: the first that opens is the shipped library,
      provided its version can be read. */
  ghost predicate RightStart(w: World, paths: seq<string>, s: State) {
    && (forall i :: 0 <= i < |paths| && FirstAt(paths, w.opens, i) ==>
         if w.probe(paths[i]).Readable? then s.version == w.probe(paths[i]).version && s.path == Some(paths[i])
         else s.version == 0xDEADBEEF && s.path == None)
    && ((forall i :: 0 <= i < |paths| ==> !w.opens(paths[i])) ==> s.version == 0xDEADBEEF && s.path == None)
  }

  ghost predicate FirstAt(paths: seq<string>, opens: string -> bool, i: nat) {
    i < |paths| && opens(paths[i]) && forall j :: 0 <= j < i ==> !opens(paths[j])
  }

  lemma {:induction false} FirstOpenIff(paths: seq<string>, opens: string -> bool)
    ensures FirstOpen(paths, opens) == None <==> forall i :: 0 <= i < |paths| ==> !opens(paths[i])
    ensures forall i: nat :: FirstAt(paths, opens, i) ==> FirstOpen(paths, opens) == Some(paths[i])
    decreases |paths|
  {
    if paths != [] {
      var rest := paths[1..];
      FirstOpenIff(rest, opens);
      assert opens(paths[0]) ==> FirstAt(paths, opens, 0);
      assert forall i :: 0 < i < |paths| ==> paths[i] == rest[i - 1];
      assert forall i :: 0 <= i < |rest| ==> rest[i] == paths[i + 1];
      forall i: nat | FirstAt(paths, opens, i) ensures FirstOpen(paths, opens) == Some(paths[i]) {
        if i > 0 { assert FirstAt(rest, opens, i - 1) by { assert forall j :: 0 <= j < i - 1 ==> rest[j] == paths[j + 1]; } }
      }
    }
  }

  lemma {:induction false} FirstOpenConcat(a: seq<string>, b: seq<string>, opens: string -> bool)
    ensures FirstOpen(a + b, opens) == if FirstOpen(a, opens).Some? then FirstOpen(a, opens) else FirstOpen(b, opens)
    decreases |a|
  {
    if a == [] {
      assert a + b == b;
    } else {
      assert (a + b)[1..] == a[1..] + b;
      FirstOpenConcat(a[1..], b, opens);
    }
  }

  /** DT_RUNPATH is looked through before DT_RPATH. */
  lemma StartIsRight(w: World, runpath: string, rpath: string, origin: string)
    ensures RightStart(w, Candidates(runpath, origin) + Candidates(rpath, origin), StartState(w, runpath, rpath, origin))
  {
    FirstOpenConcat(Candidates(runpath, origin), Candidates(rpath, origin), w.opens);
    FirstOpenIff(Candidates(runpath, origin) + Candidates(rpath, origin), w.opens);
  }

  /** Where the shipped library is: along DT_RUNPATH, else along DT_RPATH. */
  function ShippedPath(w: World, runpath: string, rpath: string, origin: string): Option<string> {
    var first := FirstOpen(Candidates(runpath, origin), w.opens);
    if first.Some? then first else FirstOpen(Candidates(rpath, origin), w.opens)
  }

  class Library {
    const world: World
    const mem: Memory
    var version: nat           // shipped_glibcxx_version
    var path: array?<char>     // shipped_libstdcxx_path
    var len: nat               // len_shipped_path_buffer
    ghost var name: string     // the string at `path`

    constructor (world: World, mem: Memory)
      ensures this.world == world && this.mem == mem && version == INVALID_VERSION && path == null && Valid()
    {
      this.world, this.mem := world, mem;
      version, path, len, name := INVALID_VERSION, null, 0, "";
    }

    /** A recorded path is a live mapping of the recorded length. */
    ghost predicate Valid()
      reads this, mem, path
    {
      path != null ==> path in mem.live && path.Length == len && Holds(path, name)
    }

    ghost function Abstract(): State
      reads this
    {
      State(version, if path == null then None else Some(name))
    }

    /** One search of `la_version`. */
    method Locate(searchPath: string, origin: string) returns (found: bool)
      requires path == null && NoNul(searchPath) && NoNul(origin)
      requires forall x :: x in mem.live ==> allocated(x)
      modifies this, mem
      ensures version == old(version) && Valid() && (found <==> path != null) && mem.requests >= old(mem.requests)
      ensures found ==> fresh(path) && mem.live == old(mem.live) + {path} && FirstOpen(Candidates(searchPath, origin), world.opens) == Some(name)
      ensures !found ==> mem.live == old(mem.live) && (FirstOpen(Candidates(searchPath, origin), world.opens) == None || mem.Refused(old(mem.requests)))
    {
      var tried;
      path, len, tried := FindLibstdcxx(mem, searchPath, origin, world.opens);
      FirstOpenAfterFailures(Candidates(searchPath, origin), tried, world.opens);
      found := path != null;
      if found { name := tried[|tried| - 1]; }
    }

    /** `la_version` after the program headers have been read. Unless a mapping was refused it records
        the first library found and its version; if there is none, or its version cannot be read, the
        library stays inactive and nothing stays mapped. */
    method LaVersion(runpath: string, rpath: string, origin: string)
      requires version == INVALID_VERSION && path == null
      requires NoNul(runpath) && NoNul(rpath) && NoNul(origin)
      requires forall x :: x in mem.live ==> allocated(x)
      modifies this, mem
      ensures Valid()
      ensures path != null ==> mem.live == old(mem.live) + {path} && world.probe(name) == Readable(version)
      ensures path == null ==> mem.live == old(mem.live) && version == INVALID_VERSION
      ensures !mem.Refused(old(mem.requests)) ==> Abstract() == StartState(world, runpath, rpath, origin)
      ensures !mem.Refused(old(mem.requests)) ==> RightStart(world, Candidates(runpath, origin) + Candidates(rpath, origin), Abstract())
    {
      StartIsRight(world, runpath, rpath, origin);
      var found := false;
      if runpath != "" {
        found := Locate(runpath, origin);
      } else {
        NoCandidates(origin);
      }
      if !found { found := Locate(rpath, origin); }
      if !found { return; }
      var shipped := CString(path, name);
      match world.probe(shipped) {
        case Readable(v) => version := v;
        case _ =>
          version := INVALID_VERSION;
          mem.Munmap(path);
          path := null;
      }
    }

    /** `la_objsearch` */
    method LaObjsearch(searched: string, flag: SearchFlag) returns (a: Answer)
      requires Valid()
      modifies `version
      ensures Valid() && a == Reply(world, old(Abstract()), Search(searched, flag))
      ensures Abstract() == Next(world, old(Abstract()), Search(searched, flag))
      ensures RightSearch(world, old(Abstract()), searched, flag, a, Abstract())
    {
      RightReply(world, Abstract(), Search(searched, flag));
      if version == INVALID_VERSION || path == null { return Name(searched); }
      if |searched| < |REL_PATH| || searched[|searched| - |REL_PATH|..] != REL_PATH { return Name(searched); }
      if flag == RunPath { return Null; }
      if !world.opens(searched) { return Name(searched); }
      var systemVersion := 0;
      match world.probe(searched) {
        case Readable(v) => systemVersion := v;
        case Unreadable =>
        case OtherClass => return Null;
      }
      if systemVersion < version {
        var shipped := CString(path, name);
        return Shipped(shipped);
      }
      version := systemVersion;
      return Name(searched);
    }

    /** `la_activity` */
    method LaActivity(consistent: bool)
      requires Valid()
      modifies this, mem`live
      ensures Valid() && Abstract() == Next(world, old(Abstract()), Activity(consistent))
      ensures path == (if consistent then null else old(path)) && name == old(name)
      ensures mem.live == if consistent && old(path) != null then old(mem.live) - {old(path)} else old(mem.live)
    {
      if consistent && path != null {
        mem.Munmap(path);
        path := null;
      }
    }

    /** One call from the loader. */
    method Dispatch(e: Event) returns (a: Answer)
      requires Valid()
      modifies this, mem`live
      ensures Valid() && a == Reply(world, old(Abstract()), e) && Abstract() == Next(world, old(Abstract()), e)
      ensures path == if e == Activity(true) then null else old(path)
      ensures mem.live == if e == Activity(true) && old(path) != null then old(mem.live) - {old(path)} else old(mem.live)
    {
      a := NoAnswer;
      match e {
        case Search(searched, flag) => a := LaObjsearch(searched, flag);
        case Activity(consistent) => LaActivity(consistent);
      }
    }

    /** A loader run after `la_version`: every answer and the final state are those of the run, the
        buffer is released exactly when loading becomes consistent, and nothing is released twice. */
    method LoaderRun(events: seq<Event>) returns (answers: seq<Answer>)
      requires Valid()
      modifies this, mem`live
      ensures Valid() && Abstract() == Run(world, old(Abstract()), events)
      ensures |answers| == |events|
      ensures forall i :: 0 <= i < |events| ==> Answered(world, old(Abstract()), events, i, answers[i])
      ensures exists states :: RightRun(world, old(Abstract()), events, answers, states) && states[|events|] == Abstract()
      ensures mem.live == if Activity(true) in events && old(path) != null then old(mem.live) - {old(path)} else old(mem.live)
    {
      answers := [];
      for i := 0 to |events|
        invariant Valid() && Abstract() == Run(world, old(Abstract()), events[..i])
        invariant |answers| == i
        invariant forall j :: 0 <= j < i ==> Answered(world, old(Abstract()), events, j, answers[j])
        invariant path == if Activity(true) in events[..i] then null else old(path)
        invariant mem.live == if Activity(true) in events[..i] && old(path) != null then old(mem.live) - {old(path)} else old(mem.live)
      {
        RunSnoc(world, old(Abstract()), events, i);
        var a := Dispatch(events[i]);
        answers := answers + [a];
      }
      assert events[..|events|] == events;
      ghost var states := RightAnswers(world, old(Abstract()), events, answers);
    }
  }

  /** Answer `i` of a run. */
  ghost predicate Answered(w: World, s: State, events: seq<Event>, i: nat, a: Answer)
    requires i < |events|
  {
    a == Reply(w, Run(w, s, events[..i]), events[i])
  }

  lemma RunSnoc(w: World, s: State, events: seq<Event>, i: nat)
    requires i < |events|
    ensures Run(w, s, events[..i + 1]) == Next(w, Run(w, s, events[..i]), events[i])
    ensures events[..i + 1] == events[..i] + [events[i]]
  {
    assert events[..i + 1][..i] == events[..i];
  }

  lemma NoCandidates(origin: string)
    ensures Candidates("", origin) == []
  {
    assert Split("") == [""] && NonEmpty([""]) == [];
  }

  /** What `la_version` leaves behind when memory is available. */
  function StartState(w: World, runpath: string, rpath: string, origin: string): State {
    match ShippedPath(w, runpath, rpath, origin)
    case None => State(INVALID_VERSION, None)
    case Some(t) =>
      match w.probe(t)
      case Readable(v) => State(v, Some(t))
      case _ => State(INVALID_VERSION, None)
  }
}
