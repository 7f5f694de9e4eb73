/** Finding the shipped libstdc++.so.6 along DT_RUNPATH or DT_RPATH: the search path as a list of
    candidate files, and `find_libstdcxx_from_dt_path` with its mapped, reused and manually owned
    path buffer. */
module AuditPath {
  import opened Common

  const REL_PATH: string := "/libstdc++.so.6"
  const ORIGIN_TOKEN: string := "$ORIGIN"

  // ----- the search path as a list of candidates -----

  function FirstColon(s: string): (n: nat)
    ensures n <= |s| && (n < |s| ==> s[n] == ':')
    ensures forall i :: 0 <= i < n ==> s[i] != ':'
  {
    if s == [] || s[0] == ':' then 0 else 1 + FirstColon(s[1..])
  }

  /** The colon-separated sections, empty ones included. */
  function Split(s: string): seq<string> {
    var n := FirstColon(s);
    if n == |s| then [s] else [s[..n]] + Split(s[n + 1..])
  }

  function Join(ss: seq<string>): string
    requires ss != []
  {
    if |ss| == 1 then ss[0] else ss[0] + ":" + Join(ss[1..])
  }

  /** `Split` is the one list of colon-free sections that joins back to the path. */
  lemma {:induction false} SplitJoins(s: string)
    ensures Split(s) != [] && Join(Split(s)) == s
    ensures forall i :: 0 <= i < |Split(s)| ==> ':' !in Split(s)[i]
    decreases |s|
  {
    var n := FirstColon(s);
    if n < |s| {
      SplitJoins(s[n + 1..]);
      var rest := Split(s[n + 1..]);
      assert Split(s)[1..] == rest;
      assert s == s[..n] + ":" + s[n + 1..];
    }
  }

  function NonEmpty(ss: seq<string>): seq<string> {
    if ss == [] then [] else (if ss[0] == "" then [] else [ss[0]]) + NonEmpty(ss[1..])
  }

  /** A leading $ORIGIN is replaced, and the library name appended. */
  function Expand(section: string, origin: string): string {
    (if ORIGIN_TOKEN <= section then origin + section[|ORIGIN_TOKEN|..] else section) + REL_PATH
  }

  function Map(f: string -> string, ss: seq<string>): seq<string> {
    if ss == [] then [] else [f(ss[0])] + Map(f, ss[1..])
  }

  function Files(path: string, f: string -> string): seq<string> {
    Map(f, NonEmpty(Split(path)))
  }

  function ExpandTo(origin: string): string -> string {
    (s: string) => Expand(s, origin)
  }

  /** The files to try, in order: the non-empty sections, each expanded. */
  function Candidates(path: string, origin: string): seq<string> {
    Files(path, ExpandTo(origin))
  }

  ghost predicate Expands(f: string -> string, origin: string) {
    forall s {:trigger Expand(s, origin)} :: f(s) == Expand(s, origin)
  }

  /** What is tried for a section, spelled out. */
  ghost predicate TriedFor(section: string, origin: string, name: string) {
    && (forall rest :: section == "$ORIGIN" + rest ==> name == origin + rest + "/libstdc++.so.6")
    && (!("$ORIGIN" <= section) ==> name == section + "/libstdc++.so.6")
  }

  lemma ExpandIsTried(section: string, origin: string)
    ensures TriedFor(section, origin, Expand(section, origin))
  {
    forall rest | section == "$ORIGIN" + rest ensures Expand(section, origin) == origin + rest + "/libstdc++.so.6" {
      assert section[7..] == rest;
    }
  }

  lemma NoColonNoSplit(s: string)
    requires ':' !in s
    ensures FirstColon(s) == |s| && Split(s) == [s]
  {
    assert forall i :: 0 <= i < |s| ==> s[i] in s;
  }

  lemma OneCandidate(section: string, origin: string)
    requires ':' !in section
    ensures Candidates(section, origin) == if section == "" then [] else [Expand(section, origin)]
  {
    NoColonNoSplit(section);
    var ss := if section == "" then [] else [section];
    assert [section][1..] == [] && NonEmpty([]) == [] && NonEmpty([section]) == ss;
    MapAt(ExpandTo(origin), ss);
  }

  /** A section that begins with $ORIGIN is looked up below the executable's directory. */
  lemma OriginReplaced(rest: string, origin: string)
    requires ':' !in rest
    ensures Candidates("$ORIGIN" + rest, origin) == [origin + rest + "/libstdc++.so.6"]
  {
    OneCandidate("$ORIGIN" + rest, origin);
    ExpandIsTried("$ORIGIN" + rest, origin);
  }

  /** Any other section is taken as it is, and an empty one stands for nothing. */
  lemma PlainKept(section: string, origin: string)
    requires ':' !in section && !("$ORIGIN" <= section)
    ensures Candidates(section, origin) == if section == "" then [] else [section + "/libstdc++.so.6"]
  {
    OneCandidate(section, origin);
    ExpandIsTried(section, origin);
  }

  /** A path is searched section by section, first section first. */
  lemma CandidatesConcat(section: string, path: string, origin: string)
    requires ':' !in section
    ensures Candidates(section + ":" + path, origin) == Candidates(section, origin) + Candidates(path, origin)
  {
    var s, f := section + ":" + path, ExpandTo(origin);
    assert FirstColon(s) == |section| by {
      assert s[|section|] == ':' && forall i :: 0 <= i < |section| ==> s[i] == section[i] && s[i] in section;
    }
    assert s[..|section|] == section && s[|section| + 1..] == path;
    OneCandidate(section, origin);
    var rest := Split(path);
    assert Split(s) == [section] + rest && ([section] + rest)[1..] == rest;
    if section == "" {
      assert NonEmpty(Split(s)) == NonEmpty(rest);
      assert [] + Candidates(path, origin) == Candidates(path, origin);
    } else {
      NonEmptyCons(section, rest);
      assert ([section] + NonEmpty(rest))[1..] == NonEmpty(rest);
    }
  }

  /** The names tried are those of the first non-empty sections. */
  ghost predicate TriedAlong(path: string, origin: string, tried: seq<string>) {
    var sections := NonEmpty(Split(path));
    |tried| <= |sections| && forall i :: 0 <= i < |tried| ==> TriedFor(sections[i], origin, tried[i])
  }

  lemma PrefixIsTried(path: string, origin: string, tried: seq<string>)
    requires tried <= Candidates(path, origin)
    ensures TriedAlong(path, origin, tried)
  {
    var sections := NonEmpty(Split(path));
    MapAt(ExpandTo(origin), sections);
    forall i | 0 <= i < |tried| ensures TriedFor(sections[i], origin, tried[i]) {
      ExpandIsTried(sections[i], origin);
      assert tried[i] == Expand(sections[i], origin);
    }
  }

  // ----- the sections as ranges of the path -----

  datatype Range = Range(from: nat, to: nat)

  /** Where the section that starts at `at` ends. */
  function EndAt(path: string, at: nat): (end: nat)
    ensures at <= |path| ==> at <= end <= |path| && (end < |path| ==> path[end] == ':')
    ensures forall i :: at <= i < end && i < |path| ==> path[i] != ':'
    decreases |path| - at
  {
    if |path| <= at || path[at] == ':' then at else EndAt(path, at + 1)
  }

  /** The sections from `at` on that are not empty. */
  function Ranges(path: string, at: nat): seq<Range>
    decreases |path| - at
  {
    if |path| <= at then []
    else
      var end := EndAt(path, at);
      if end == at then Ranges(path, at + 1) else [Range(at, end)] + Ranges(path, end + 1)
  }

  function SectionOf(path: string, r: Range): string {
    if r.from <= r.to <= |path| then path[r.from..r.to] else ""
  }

  function Sections(path: string, rs: seq<Range>): (ss: seq<string>)
    ensures |ss| == |rs| && forall i :: 0 <= i < |rs| ==> ss[i] == SectionOf(path, rs[i])
  {
    if rs == [] then [] else [SectionOf(path, rs[0])] + Sections(path, rs[1..])
  }

  lemma {:induction false} MapAt(f: string -> string, ss: seq<string>)
    ensures |Map(f, ss)| == |ss| && forall i :: 0 <= i < |ss| ==> Map(f, ss)[i] == f(ss[i])
    decreases |ss|
  {
    if ss != [] { MapAt(f, ss[1..]); }
  }

  lemma EndIsFirstColon(path: string, at: nat, r: string)
    requires at <= |path| && r == path[at..]
    ensures EndAt(path, at) == at + FirstColon(r)
  {
    var n, end := FirstColon(r), EndAt(path, at);
    assert n < |r| ==> path[at + n] == ':';
    assert end < |path| ==> r[end - at] == ':';
  }

  lemma EmptySection(path: string, at: nat, next: nat, later: seq<string>)
    requires at < |path| && EndAt(path, at) == at && next == at + 1 && Sections(path, Ranges(path, next)) == NonEmpty(later)
    ensures Sections(path, Ranges(path, at)) == NonEmpty([""] + later)
  {
    assert ([""] + later)[1..] == later && [] + NonEmpty(later) == NonEmpty(later);
  }

  lemma SectionsCons(path: string, r: Range, rs: seq<Range>, section: string)
    requires section == SectionOf(path, r)
    ensures Sections(path, [r] + rs) == [section] + Sections(path, rs)
  {
    assert ([r] + rs)[1..] == rs;
  }

  lemma NonEmptyCons(section: string, later: seq<string>)
    requires section != ""
    ensures NonEmpty([section] + later) == [section] + NonEmpty(later)
  {
    assert ([section] + later)[1..] == later;
  }

  lemma OneSection(path: string, at: nat, end: nat, next: nat, section: string, later: seq<string>)
    requires at < end == EndAt(path, at) && end <= |path| && next == end + 1 && section == SectionOf(path, Range(at, end))
    requires Sections(path, Ranges(path, next)) == NonEmpty(later)
    ensures Sections(path, Ranges(path, at)) == NonEmpty([section] + later)
  {
    var r, rs := Range(at, end), Ranges(path, next);
    assert Ranges(path, at) == [r] + rs;
    SectionsCons(path, r, rs, section);
    assert |section| == end - at;
    NonEmptyCons(section, later);
  }

  /** The walk over ranges meets the non-empty sections of the path, in order. */
  lemma {:induction false} RangesAreSections(path: string, at: nat, r: string)
    requires at <= |path| && r == path[at..]
    ensures Sections(path, Ranges(path, at)) == NonEmpty(Split(r))
    decreases |path| - at
  {
    EndIsFirstColon(path, at, r);
    if r == "" {
      assert Split(r) == [""] && NonEmpty([""]) == [];
    } else {
      var end, n := EndAt(path, at), FirstColon(r);
      var next := end + 1;
      var section, later := LaterSections(path, at, next, r, n);
      if end == at { EmptySection(path, at, next, later); } else { OneSection(path, at, end, next, section, later); }
    }
  }

  /** The first section and those behind it. */
  lemma {:induction false} LaterSections(path: string, at: nat, next: nat, r: string, n: nat) returns (section: string, later: seq<string>)
    requires at < |path| && r == path[at..] && n == FirstColon(r) && next == at + n + 1
    ensures section == path[at..next - 1] && Split(r) == [section] + later && Sections(path, Ranges(path, next)) == NonEmpty(later)
    decreases |path| - at, 0
  {
    section := r[..n];
    assert section == path[at..next - 1];
    if n < |r| {
      var rest := r[n + 1..];
      assert rest == path[next..];
      RangesAreSections(path, next, rest);
      later := Split(rest);
    } else {
      later := [];
      assert section == r && [r] + later == [r];
    }
  }

  function MaxLength(ss: seq<string>): nat {
    if ss == [] then 0 else
      var rest := MaxLength(ss[..|ss| - 1]);
      if rest < |ss[|ss| - 1]| then |ss[|ss| - 1]| else rest
  }

  // ----- C strings in a mapped buffer -----

  predicate NoNul(s: string) {
    '\0' !in s
  }

  /** The buffer holds the NUL-terminated string `t`. */
  predicate Holds(b: array<char>, t: string)
    reads b
  {
    |t| < b.Length && b[..|t|] == t && b[|t|] == '\0' && NoNul(t)
  }

  function Min(a: nat, b: nat): nat {
    if a < b then a else b
  }

  /** `strncat(b, src, n)`: the precondition is that no write leaves the buffer. */
  method Strncat(b: array<char>, ghost t: string, src: string, n: nat)
    requires Holds(b, t) && NoNul(src)
    requires |t| + Min(n, |src|) < b.Length
    modifies b
    ensures Holds(b, t + src[..Min(n, |src|)])
  {
    assert forall i :: 0 <= i < |t| ==> b[i] == t[i] && t[i] != '\0';
    var at := 0;
    while b[at] != '\0'
      invariant at <= |t|
      decreases |t| - at
    {
      at := at + 1;
    }
    var k := 0;
    while k < n && k < |src|
      invariant k <= Min(n, |src|)
      invariant b[..at] == t && b[at..at + k] == src[..k]
    {
      b[at + k] := src[k];
      k := k + 1;
    }
    b[at + k] := '\0';
    assert b[..at + k] == t + src[..k];
  }

  /** `b[len - 1] = '\0'` */
  method TerminateLast(b: array<char>, ghost t: string)
    requires Holds(b, t)
    modifies b
    ensures Holds(b, t)
  {
    b[b.Length - 1] := '\0';
  }

  // ----- the allocator -----

  /** Anonymous mappings. Whether the n-th request is granted is up to the system. */
  class Memory {
    const granted: nat -> bool
    var requests: nat
    ghost var live: set<array<char>>

    constructor (granted: nat -> bool)
      ensures this.granted == granted && requests == 0 && live == {}
    {
      this.granted, requests, live := granted, 0, {};
    }

    method Mmap(n: nat) returns (b: array?<char>)
      modifies this
      ensures requests == old(requests) + 1
      ensures b != null <==> granted(old(requests))
      ensures b == null ==> live == old(live)
      ensures b != null ==> fresh(b) && b.Length == n && live == old(live) + {b}
    {
      requests := requests + 1;
      b := null;
      if granted(requests - 1) {
        b := new char[n](_ => '\0');
        live := live + {b};
      }
    }

    /** The precondition rules out releasing a buffer twice. */
    method Munmap(b: array<char>)
      requires b in live
      modifies `live
      ensures live == old(live) - {b}
    {
      live := live - {b};
    }

    /** Some request since `from` was refused. */
    ghost predicate Refused(from: nat)
      reads this
    {
      exists n :: from <= n < requests && !granted(n)
    }
  }

  /** Grow the buffer if `needed` does not fit; on refusal nothing stays mapped. */
  method Reserve(mem: Memory, buf: array?<char>, needed: nat) returns (b: array?<char>)
    requires 0 < needed && (buf != null ==> buf in mem.live && 0 < buf.Length)
    modifies mem
    ensures mem.requests >= old(mem.requests)
    ensures buf != null && needed <= buf.Length ==> b == buf && mem.live == old(mem.live) && mem.requests == old(mem.requests)
    ensures !(buf != null && needed <= buf.Length) ==>
      && (b != null ==> fresh(b) && b.Length == needed && mem.live == old(mem.live) - {buf} + {b})
      && (b == null ==> mem.live == old(mem.live) - {buf} && mem.Refused(old(mem.requests)))
  {
    var len := if buf == null then 0 else buf.Length;
    b := buf;
    if needed > len {
      if len > 0 { mem.Munmap(buf); }
      b := mem.Mmap(needed);
      assert b == null ==> !mem.granted(old(mem.requests));
    }
  }

  /** `$ORIGIN` + rest of section + library name, in place. */
  method ComposeOrigin(b: array<char>, origin: string, rest: string, lenSection: nat)
    requires NoNul(origin) && NoNul(rest) && lenSection <= |rest|
    requires |origin| + lenSection + |REL_PATH| + 1 <= b.Length
    modifies b
    ensures Holds(b, origin + rest[..lenSection] + REL_PATH)
  {
    b[0] := '\0';
    Strncat(b, "", origin, b.Length - 1);
    assert "" + origin[..|origin|] == origin;
    TerminateLast(b, origin);
    if lenSection > 0 {
      Strncat(b, origin, rest, Min(lenSection, b.Length - 1 - |origin|));
      TerminateLast(b, origin + rest[..lenSection]);
    }
    assert Holds(b, origin + rest[..lenSection]) by { if lenSection == 0 { assert origin + rest[..0] == origin; } }
    Strncat(b, origin + rest[..lenSection], REL_PATH, b.Length - 1 - |origin| - lenSection);
    assert REL_PATH[..|REL_PATH|] == REL_PATH;
    TerminateLast(b, origin + rest[..lenSection] + REL_PATH);
  }

  method ComposePlain(b: array<char>, rest: string, lenSection: nat)
    requires NoNul(rest) && lenSection <= |rest|
    requires lenSection + |REL_PATH| + 1 <= b.Length
    modifies b
    ensures Holds(b, rest[..lenSection] + REL_PATH)
  {
    b[0] := '\0';
    Strncat(b, "", rest, Min(lenSection, b.Length - 1));
    assert "" + rest[..lenSection] == rest[..lenSection];
    TerminateLast(b, rest[..lenSection]);
    Strncat(b, rest[..lenSection], REL_PATH, b.Length - 1 - lenSection);
    assert REL_PATH[..|REL_PATH|] == REL_PATH;
    TerminateLast(b, rest[..lenSection] + REL_PATH);
  }

  /** A leading $ORIGIN cannot reach past its section. */
  lemma OriginInSection(r: string)
    ensures ORIGIN_TOKEN <= r ==> |ORIGIN_TOKEN| <= FirstColon(r)
    ensures ORIGIN_TOKEN <= r <==> ORIGIN_TOKEN <= r[..FirstColon(r)]
  {
  }

  /** The inner `for`: the end of the section at the cursor. */
  method EndOfSection(path: string, cursor: nat) returns (end: nat)
    requires cursor < |path| && NoNul(path)
    ensures end == EndAt(path, cursor)
  {
    end := cursor;
    while end < |path| && path[end] != ':' && path[end] != '\0'
      invariant cursor <= end <= |path| && EndAt(path, end) == EndAt(path, cursor)
    {
      end := end + 1;
    }
    assert end < |path| ==> path[end] in path;
  }

  /** Paths tried so far that all failed. */
  predicate AllFailed(tried: seq<string>, tryPath: string -> bool) {
    forall i :: 0 <= i < |tried| ==> !tryPath(tried[i])
  }

  /** What is mapped, and how large, while the search runs. */
  ghost predicate Owns(mem: Memory, before: set<array<char>>, buf: array?<char>, tried: seq<string>)
    reads mem
  {
    if tried == [] then buf == null && mem.live == before
    else buf != null && buf.Length == MaxLength(tried) + 1 && buf !in before && mem.live == before + {buf}
  }

  /** The body of the loop for a non-empty section: the next candidate, written into the buffer. */
  method BuildCandidate(mem: Memory, path: string, origin: string, cursor: nat, end: nat, buf: array?<char>,
                        ghost before: set<array<char>>, ghost tried: seq<string>, ghost c: string)
    returns (b: array?<char>)
    requires NoNul(path) && NoNul(origin)
    requires cursor < |path| && cursor < end == EndAt(path, cursor) && c == Expand(path[cursor..end], origin)
    requires Owns(mem, before, buf, tried)
    requires forall x :: x in before ==> allocated(x)
    modifies mem, buf
    ensures mem.requests >= old(mem.requests)
    ensures b == null ==> mem.live == before && mem.Refused(old(mem.requests))
    ensures b != null ==> (b == buf || fresh(b)) && Holds(b, c) && Owns(mem, before, b, tried + [c])
  {
    var lenSection := end - cursor;
    var rest := path[cursor..];
    ghost var section := path[cursor..end];
    EndIsFirstColon(path, cursor, rest);
    assert rest[..lenSection] == section;
    OriginInSection(rest);
    assert (tried + [c])[..|tried|] == tried;
    if ORIGIN_TOKEN <= rest {
      b := Reserve(mem, buf, |origin| + (lenSection - 7) + |REL_PATH| + 1);
      if b == null { return; }
      ComposeOrigin(b, origin, rest[7..], lenSection - 7);
      assert rest[7..][..lenSection - 7] == section[7..];
    } else {
      b := Reserve(mem, buf, lenSection + |REL_PATH| + 1);
      if b == null { return; }
      ComposePlain(b, rest, lenSection);
    }
  }

  datatype Outcome = Found | Exhausted | NoMemory

  /** The paths tried are the files of the sections passed, in order. */
  ghost predicate FilesOf(path: string, f: string -> string, done: seq<Range>, tried: seq<string>) {
    |tried| == |done| && forall i :: 0 <= i < |done| ==> tried[i] == f(SectionOf(path, done[i]))
  }

  lemma TriedAreCandidates(path: string, origin: string, done: seq<Range>, tried: seq<string>)
    requires done <= Ranges(path, 0) && FilesOf(path, ExpandTo(origin), done, tried)
    ensures tried <= Candidates(path, origin) && (done == Ranges(path, 0) ==> tried == Candidates(path, origin))
  {
    assert path[0..] == path;
    RangesAreSections(path, 0, path);
    MapAt(ExpandTo(origin), Sections(path, Ranges(path, 0)));
  }

  /** One section: its file is written into the buffer and tried. */
  method Attempt(mem: Memory, path: string, origin: string, tryPath: string -> bool, ghost f: string -> string, cursor: nat, end: nat,
                 buf: array?<char>, ghost before: set<array<char>>, ghost tried: seq<string>)
    returns (b: array?<char>, name: string, opens: bool)
    requires NoNul(path) && NoNul(origin) && Expands(f, origin) && cursor < |path| && cursor < end == EndAt(path, cursor)
    requires Owns(mem, before, buf, tried)
    requires forall x :: x in before ==> allocated(x)
    modifies mem, buf
    ensures mem.requests >= old(mem.requests)
    ensures b == null ==> mem.live == before && mem.Refused(old(mem.requests))
    ensures b != null ==> (b == buf || fresh(b)) && Holds(b, name) && Owns(mem, before, b, tried + [name])
    ensures b != null ==> name == f(SectionOf(path, Range(cursor, end))) && opens == tryPath(name)
  {
    ghost var c := f(SectionOf(path, Range(cursor, end)));
    assert c == Expand(path[cursor..end], origin);
    b := BuildCandidate(mem, path, origin, cursor, end, buf, before, tried, c);
    if b == null { return null, "", false; }
    name := CString(b, c);
    opens := tryPath(name);
  }

  /** The loop over the sections, `f` being the expansion with the origin; `done` are the sections tried. */
  method Search(mem: Memory, path: string, origin: string, tryPath: string -> bool, ghost f: string -> string)
    returns (b: array?<char>, tried: seq<string>, outcome: Outcome, ghost done: seq<Range>)
    requires NoNul(path) && NoNul(origin) && Expands(f, origin)
    requires forall x :: x in mem.live ==> allocated(x)
    modifies mem
    ensures mem.requests >= old(mem.requests) && (b != null ==> fresh(b))
    ensures outcome.Found? ==> tried != [] && AllFailed(tried[..|tried| - 1], tryPath) && tryPath(tried[|tried| - 1])
    ensures outcome.Found? ==> b != null && Owns(mem, old(mem.live), b, tried) && Holds(b, tried[|tried| - 1])
    ensures !outcome.Found? ==> AllFailed(tried, tryPath)
    ensures outcome.Exhausted? ==> Owns(mem, old(mem.live), b, tried)
    ensures outcome.NoMemory? ==> mem.live == old(mem.live) && mem.Refused(old(mem.requests))
    ensures FilesOf(path, f, done, tried) && done <= Ranges(path, 0) && (outcome.Exhausted? ==> done == Ranges(path, 0))
  {
    b, tried, done := null, [], [];
    var cursor := 0;
    ghost var before, goal := mem.live, Ranges(path, 0);
    while cursor < |path|
      invariant Owns(mem, before, b, tried) && (b != null ==> fresh(b)) && mem.requests >= old(mem.requests)
      invariant AllFailed(tried, tryPath)
      invariant FilesOf(path, f, done, tried) && done + Ranges(path, cursor) == goal
      decreases |path| - cursor
    {
      var end := EndOfSection(path, cursor);
      if end - cursor == 0 {
        cursor := cursor + 1;
      } else {
        var name, opens;
        b, name, opens := Attempt(mem, path, origin, tryPath, f, cursor, end, b, before, tried);
        if b == null { return null, tried, NoMemory, done; }
        var next := end + 1;
        ghost var r := Range(cursor, end);
        ghost var more := done + [r];
        RangeTried(path, cursor, end, next, r, done, more, goal);
        OneTried(path, f, done, tried, r, name);
        OneFailed(tried, name, tryPath);
        tried, done, cursor := tried + [name], more, next;
        if opens { return b, tried, Found, done; }
      }
    }
    return b, tried, Exhausted, done;
  }

  lemma RangeTried(path: string, at: nat, end: nat, next: nat, r: Range, done: seq<Range>, more: seq<Range>, goal: seq<Range>)
    requires at < end == EndAt(path, at) && at < |path| && r == Range(at, end) && next == end + 1
    requires done + Ranges(path, at) == goal && more == done + [r]
    ensures more + Ranges(path, next) == goal && more <= goal
  {
    Regroup(done, r, Ranges(path, next));
  }

  lemma OneFailed(tried: seq<string>, name: string, tryPath: string -> bool)
    requires AllFailed(tried, tryPath)
    ensures (tried + [name])[..|tried|] == tried && (!tryPath(name) ==> AllFailed(tried + [name], tryPath))
  {
  }

  lemma OneTried(path: string, f: string -> string, done: seq<Range>, tried: seq<string>, r: Range, name: string)
    requires FilesOf(path, f, done, tried) && name == f(SectionOf(path, r))
    ensures FilesOf(path, f, done + [r], tried + [name])
  {
  }

  /** `find_libstdcxx_from_dt_path`. The paths tried are the candidates in order up to the first that
      opens. On success the returned buffer, one byte longer than the longest path tried, is the only
      new mapping; on failure there is none, and unless memory was refused every candidate was tried. */
  method FindLibstdcxx(mem: Memory, path: string, origin: string, tryPath: string -> bool)
    returns (buf: array?<char>, len: nat, tried: seq<string>)
    requires NoNul(path) && NoNul(origin)
    requires forall x :: x in mem.live ==> allocated(x)
    modifies mem
    ensures tried <= Candidates(path, origin) && TriedAlong(path, origin, tried) && mem.requests >= old(mem.requests)
    ensures buf != null ==>
      && tried != [] && AllFailed(tried[..|tried| - 1], tryPath) && tryPath(tried[|tried| - 1])
      && fresh(buf) && Holds(buf, tried[|tried| - 1])
      && len == buf.Length == MaxLength(tried) + 1
      && mem.live == old(mem.live) + {buf}
    ensures buf == null ==>
      && len == 0 && AllFailed(tried, tryPath) && mem.live == old(mem.live)
      && (tried == Candidates(path, origin) || mem.Refused(old(mem.requests)))
  {
    var b, outcome;
    ghost var done;
    b, tried, outcome, done := Search(mem, path, origin, tryPath, ExpandTo(origin));
    TriedAreCandidates(path, origin, done, tried);
    PrefixIsTried(path, origin, tried);
    if outcome.Found? { return b, b.Length, tried; }
    if outcome.Exhausted? && b != null { mem.Munmap(b); }
    return null, 0, tried;
  }

  /** The string a callee sees through a `char*`. */
  method CString(b: array<char>, ghost t: string) returns (s: string)
    requires Holds(b, t)
    ensures s == t
  {
    assert forall i :: 0 <= i < |t| ==> b[i] == t[i] && t[i] != '\0';
    var n := 0;
    while b[n] != '\0'
      invariant n <= |t|
      decreases |t| - n
    {
      n := n + 1;
    }
    s := b[..n];
  }
}
