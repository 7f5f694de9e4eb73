/** The audit library over whole loader runs: `la_version` finds the shipped libstdc++.so.6,
    `la_objsearch` answers every search, `la_activity` releases the path when loading is done. */
module AuditRun {
  import opened Common
  import opened AuditPath

  const INVALID_VERSION: nat := 0xDEADBEEF

  /** The largest 0x00AABBCC version. */
  const MAX_VERSION: nat := 0x00FFFFFF

  /** What `get_libstdcxx_version` reports: success, a fatal error, or another ELF class. */
  datatype Probe = Readable(version: nat) | Unreadable | OtherClass

  /** The file system as the library sees it. */
  datatype World = World(opens: string -> bool, probe: string -> Probe) {
    ghost predicate Packed() {
      forall name :: probe(name).Readable? ==> probe(name).version <= MAX_VERSION
    }
  }

  /** `shipped_glibcxx_version` and the string at `shipped_libstdcxx_path`. */
  datatype State = State(version: nat, path: Option<string>)

  datatype SearchFlag = RunPath | OtherSearch

  datatype Event = Search(name: string, flag: SearchFlag) | Activity(consistent: bool)

  /** The loader is given back its name, a null pointer, or the shipped path. */
  datatype Answer = Name(name: string) | Null | Shipped(path: string) | NoAnswer

  predicate IsLibstdcxx(name: string) {
    |REL_PATH| <= |name| && name[|name| - |REL_PATH|..] == REL_PATH
  }

  /** The version an opened candidate is compared with; an unreadable one counts as 0. */
  function Candidate(p: Probe): Option<nat> {
    match p
    case Readable(v) => Some(v)
    case Unreadable => Some(0)
    case OtherClass => None
  }

  /** The search reaches the comparison, with this candidate version. */
  function Decided(w: World, s: State, e: Event): Option<nat> {
    if e.Search? && s.version != INVALID_VERSION && s.path.Some? && IsLibstdcxx(e.name) && e.flag != RunPath && w.opens(e.name)
    then Candidate(w.probe(e.name)) else None
  }

  predicate Accepts(w: World, s: State, e: Event) {
    Decided(w, s, e).Some? && s.version <= Decided(w, s, e).value
  }

  function Reply(w: World, s: State, e: Event): Answer {
    if e.Activity? then NoAnswer
    else if s.version == INVALID_VERSION || s.path.None? || !IsLibstdcxx(e.name) then Name(e.name)
    else if e.flag == RunPath then Null
    else if !w.opens(e.name) then Name(e.name)
    else match Candidate(w.probe(e.name))
      case None => Null
      case Some(v) => if v < s.version then Shipped(s.path.value) else Name(e.name)
  }

  function Next(w: World, s: State, e: Event): State {
    if e == Activity(true) then s.(path := None)
    else if Accepts(w, s, e) then s.(version := Decided(w, s, e).value)
    else s
  }

  // ----- what each answer has to be, case by case -----

  ghost predicate SearchesLibstdcxx(name: string) {
    exists directory :: name == directory + "/libstdc++.so.6"
  }

  /** A candidate without a readable version counts as version 0. */
  function VersionAt(p: Probe): nat {
    if p.Readable? then p.version else 0
  }

  /** Names that do not end in the library's pass through, and so does everything while there is no shipped
      library. Along RUNPATH, and for another ELF class, the candidate is refused; below the tracked version it is
      replaced by the shipped library; otherwise it is accepted, and its version tracked from then on. */
  ghost predicate RightSearch(w: World, s: State, name: string, flag: SearchFlag, a: Answer, after: State) {
    var examined := s.version != 0xDEADBEEF && s.path.Some? && SearchesLibstdcxx(name);
    var refused := flag == RunPath || (w.opens(name) && w.probe(name) == OtherClass);
    var compared := examined && flag != RunPath && w.opens(name) && w.probe(name) != OtherClass;
    var found := VersionAt(w.probe(name));
    && (a == Null <==> examined && refused)
    && (a.Shipped? <==> compared && found < s.version)
    && (a.Shipped? ==> s.path == Some(a.path))
    && (a != Null && !a.Shipped? ==> a == Name(name))
    && after.path == s.path
    && after.version == if compared && found >= s.version then found else s.version
  }

  ghost predicate RightEvent(w: World, s: State, e: Event, a: Answer, after: State) {
    match e
    case Search(name, flag) => RightSearch(w, s, name, flag, a, after)
    case Activity(consistent) => a == NoAnswer && after.version == s.version && after.path == if consistent then None else s.path
  }

  /** Each answer and each state is right, from `s` on. */
  ghost predicate RightRun(w: World, s: State, events: seq<Event>, answers: seq<Answer>, states: seq<State>) {
    && |answers| == |events| && |states| == |events| + 1 && states[0] == s
    && forall i :: 0 <= i < |events| ==> RightEvent(w, states[i], events[i], answers[i], states[i + 1])
  }

  lemma LibstdcxxIff(name: string)
    ensures IsLibstdcxx(name) <==> SearchesLibstdcxx(name)
  {
    if IsLibstdcxx(name) { assert name == name[..|name| - |REL_PATH|] + "/libstdc++.so.6"; }
  }

  lemma RightReply(w: World, s: State, e: Event)
    ensures RightEvent(w, s, e, Reply(w, s, e), Next(w, s, e))
  {
    if e.Search? { LibstdcxxIff(e.name); }
  }

  lemma RightAnswers(w: World, s: State, events: seq<Event>, answers: seq<Answer>) returns (states: seq<State>)
    requires |answers| == |events| && forall i :: 0 <= i < |events| ==> answers[i] == Reply(w, Run(w, s, events[..i]), events[i])
    ensures RightRun(w, s, events, answers, states) && states[|events|] == Run(w, s, events)
  {
    states := seq(|events| + 1, i requires 0 <= i <= |events| => Run(w, s, events[..i]));
    assert events[..|events|] == events && events[..0] == [];
    forall i | 0 <= i < |events| ensures RightEvent(w, states[i], events[i], answers[i], states[i + 1]) {
      var next := i + 1;
      assert events[..next][..i] == events[..i] && events[..next][i] == events[i];
      RightReply(w, states[i], events[i]);
    }
  }

  function Run(w: World, s: State, events: seq<Event>): State {
    if events == [] then s else Next(w, Run(w, s, events[..|events| - 1]), events[|events| - 1])
  }

  /** Versions of the system libraries accepted during a run, oldest first. */
  function Accepted(w: World, s: State, events: seq<Event>): seq<nat> {
    if events == [] then []
    else
      var before, e := events[..|events| - 1], events[|events| - 1];
      Accepted(w, s, before) + if Accepts(w, Run(w, s, before), e) then [Decided(w, Run(w, s, before), e).value] else []
  }

  function Maximum(first: nat, more: seq<nat>): nat {
    if more == [] then first
    else
      var m, last := Maximum(first, more[..|more| - 1]), more[|more| - 1];
      if m < last then last else m
  }

  predicate NonDecreasing(s: seq<nat>) {
    forall i, j :: 0 <= i < j < |s| ==> s[i] <= s[j]
  }

  /** `version` is what tracking leaves after the shipped version `first` and the accepted `acc`. */
  predicate Tracks(first: nat, acc: seq<nat>, version: nat) {
    && version == Maximum(first, acc) && first <= version <= MAX_VERSION
    && NonDecreasing(acc) && (acc != [] ==> version == acc[|acc| - 1])
    && (forall i :: 0 <= i < |acc| ==> first <= acc[i])
  }

  lemma TracksMore(first: nat, acc: seq<nat>, version: nat, v: nat)
    requires Tracks(first, acc, version) && version <= v <= MAX_VERSION
    ensures Tracks(first, acc + [v], v)
  {
    assert (acc + [v])[..|acc|] == acc;
    assert forall i :: 0 <= i < |acc| ==> acc[i] <= v;
  }

  lemma AcceptedIsPacked(w: World, s: State, e: Event)
    requires w.Packed() && Accepts(w, s, e)
    ensures s.version <= Decided(w, s, e).value <= MAX_VERSION
    ensures Next(w, s, e).version == Decided(w, s, e).value
  {
    assert e.Search?;
  }

  /** Over every run the tracked version is the maximum of the shipped version and all accepted ones,
      accepted versions never decrease, and the sentinel is never reached. */
  lemma {:induction false} TrackedVersion(w: World, s: State, events: seq<Event>)
    requires w.Packed() && s.version <= MAX_VERSION
    ensures Tracks(s.version, Accepted(w, s, events), Run(w, s, events).version)
    ensures Run(w, s, events).version != INVALID_VERSION
    decreases |events|
  {
    if events != [] {
      var before, e := events[..|events| - 1], events[|events| - 1];
      TrackedVersion(w, s, before);
      var m, acc := Run(w, s, before), Accepted(w, s, before);
      if Accepts(w, m, e) {
        AcceptedIsPacked(w, m, e);
        TracksMore(s.version, acc, m.version, Decided(w, m, e).value);
      } else {
        assert acc + [] == acc;
      }
    }
  }

  /** The path stays what it was until a consistent activity, and is gone afterwards. */
  lemma {:induction false} PathDuringRun(w: World, s: State, events: seq<Event>)
    ensures Run(w, s, events).path == if Activity(true) in events then None else s.path
    decreases |events|
  {
    if events != [] {
      var before, e := events[..|events| - 1], events[|events| - 1];
      assert events == before + [e];
      PathDuringRun(w, s, before);
    }
  }

  /** The version of the library the loader ends up with when a candidate was decided. */
  function ChosenVersion(a: Answer, shipped: nat, candidate: nat): nat {
    if a.Shipped? then shipped else candidate
  }

  /** Until the first acceptance, every decided candidate yields the higher of candidate and shipped. */
  lemma {:induction false} HigherUntilFirstAcceptance(w: World, s: State, events: seq<Event>, e: Event)
    requires w.Packed() && s.version <= MAX_VERSION && Accepted(w, s, events) == []
    requires Decided(w, Run(w, s, events), e).Some?
    ensures var v := Decided(w, Run(w, s, events), e).value;
      ChosenVersion(Reply(w, Run(w, s, events), e), s.version, v) == Maximum(s.version, [v])
  {
    TrackedVersion(w, s, events);
    var v := Decided(w, Run(w, s, events), e).value;
    assert [v][..0] == [];
  }

  /** After an acceptance this can fail: only the tracked version is raised, not the path that is
      answered. At any point of any run the higher of candidate and shipped library is chosen exactly
      when the candidate does not lie strictly between the shipped and the tracked version. */
  lemma {:induction false} HigherChosenIff(w: World, s: State, events: seq<Event>, e: Event)
    requires w.Packed() && s.version <= MAX_VERSION
    requires Decided(w, Run(w, s, events), e).Some?
    ensures var m := Run(w, s, events);
      var v := Decided(w, m, e).value;
      ChosenVersion(Reply(w, m, e), s.version, v) == Maximum(s.version, [v]) <==> !(s.version < v < m.version)
  {
    TrackedVersion(w, s, events);
    var v := Decided(w, Run(w, s, events), e).value;
    assert [v][..0] == [];
  }

  /** A run in which the lower library is chosen: shipped 3, accepted 5, then candidate 4. */
  lemma LowerChosenAfterAcceptance()
    ensures exists w: World, s: State, events: seq<Event>, e: Event ::
      && w.Packed() && s.version <= MAX_VERSION && Decided(w, Run(w, s, events), e).Some?
      && ChosenVersion(Reply(w, Run(w, s, events), e), s.version, Decided(w, Run(w, s, events), e).value)
         < Maximum(s.version, [Decided(w, Run(w, s, events), e).value])
  {
    var w := World(_ => true, (name: string) => if |name| == |REL_PATH| then Readable(5) else Readable(4));
    var s := State(3, Some("/opt" + REL_PATH));
    var first, second := Search(REL_PATH, OtherSearch), Search("/" + REL_PATH, OtherSearch);
    assert Decided(w, s, first) == Some(5);
    assert [first][..0] == [] && Run(w, s, [first]) == Next(w, s, first) == s.(version := 5);
    assert ("/" + REL_PATH)[1..] == REL_PATH;
    assert Decided(w, s.(version := 5), second) == Some(4);
    assert [4][..0] == [];
  }

  /** After a consistent activity every name is passed through and the state is frozen. */
  lemma {:induction false} FrozenWhenConsistent(w: World, s: State, before: seq<Event>, after: seq<Event>, e: Event)
    requires Activity(true) in before
    ensures Run(w, s, before + after) == Run(w, s, before)
    ensures e.Search? ==> Reply(w, Run(w, s, before + after), e) == Name(e.name)
    decreases |after|
  {
    PathDuringRun(w, s, before);
    if after == [] {
      assert before + after == before;
    } else {
      var all, last := before + after, after[|after| - 1];
      assert all[..|all| - 1] == before + after[..|after| - 1] && all[|all| - 1] == last;
      FrozenWhenConsistent(w, s, before, after[..|after| - 1], last);
    }
  }
}
