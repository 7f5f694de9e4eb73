/** The entries of a 32-bit .debug_frame section: the stream position, the entry cache and the
    references from FDEs to CIEs, which may lie later in the section. */
module FrameSection {
  import opened Common
  import opened CfiTable
  import opened CallFrame

  /** What the header structs yield at an entry offset; `headerSize` runs from the entry offset to
      its first instruction. */
  datatype Header =
    | CieHeader(length: nat, headerSize: nat, codeFactor: int, dataFactor: int)
    | FdeHeader(length: nat, headerSize: nat, ciePointer: nat, initialLocation: int)

  /** A 32-bit initial length field. */
  const LENGTH_FIELD: nat := 4

  datatype Encoded = Encoded(instr: Instr, size: nat)

  /** The section content, as the parsers see it. */
  datatype Section = Section(size: nat, header: nat -> Header, instr: nat -> Encoded) {
    function End(o: nat): nat {
      o + LENGTH_FIELD + header(o).length
    }

    /** The instructions from `p` run exactly to `end`. */
    ghost predicate Runs(p: nat, end: nat)
      decreases end - p
    {
      p == end || (p < end && 0 < instr(p).size && Runs(p + instr(p).size, end))
    }

    ghost function Code(p: nat, end: nat): seq<Instr>
      decreases end - p
    {
      if end <= p || instr(p).size == 0 then [] else [instr(p).instr] + Code(p + instr(p).size, end)
    }

    /** Where the `n`-th instruction from `p` on begins. */
    ghost function InstrStart(p: nat, n: nat): nat {
      if n == 0 then p else InstrStart(p, n - 1) + instr(InstrStart(p, n - 1)).size
    }

    lemma {:induction false} InstrStartLater(p: nat, n: nat)
      ensures InstrStart(p, n + 1) == InstrStart(p + instr(p).size, n)
      decreases n
    {
      if n > 0 {
        InstrStartLater(p, n - 1);
      } else {
        assert InstrStart(p, 1) == InstrStart(p, 0) + instr(InstrStart(p, 0)).size;
      }
    }

    /** The instructions are those that begin at `p`, then where the one before ends, and so on up to `end`. */
    lemma {:induction false} CodeInOrder(p: nat, end: nat, n: nat)
      requires Runs(p, end) && n <= |Code(p, end)|
      ensures n < |Code(p, end)| ==> Code(p, end)[n] == instr(InstrStart(p, n)).instr
      ensures if n < |Code(p, end)| then InstrStart(p, n) < end else InstrStart(p, n) == end
      decreases n
    {
      if n > 0 {
        var next := p + instr(p).size;
        CodeInOrder(next, end, n - 1);
        InstrStartLater(p, n - 1);
      }
    }

    /** The instructions of the entry at `o`. */
    ghost function CodeOf(o: nat): seq<Instr> {
      Code(o + header(o).headerSize, End(o))
    }

    /** The entry at `o` holds whole instructions, and an FDE names a CIE of the section. */
    ghost predicate EntryOk(offs: seq<nat>, o: nat) {
      && Runs(o + header(o).headerSize, End(o))
      && (header(o).FdeHeader? ==> header(o).ciePointer in offs && header(header(o).ciePointer).CieHeader?)
    }

    /** `offs` lists the entries that tile the section. */
    ghost predicate WellFormed(offs: seq<nat>) {
      && StartOf(offs, 0) == 0
      && (forall i {:trigger End(offs[i])} :: 0 <= i < |offs| ==> offs[i] + 4 + header(offs[i]).length == StartOf(offs, i + 1))
      && (forall o {:trigger EntryOk(offs, o)} :: o in offs ==> EntryOk(offs, o))
    }

    lemma {:induction false} StartsIncrease(offs: seq<nat>, i: nat, j: nat)
      requires WellFormed(offs) && i < j <= |offs|
      ensures StartOf(offs, i) < StartOf(offs, j)
      decreases j - i
    {
      assert End(offs[i]) == StartOf(offs, i + 1);
      if i + 1 < j { StartsIncrease(offs, i + 1, j); }
    }

    ghost function StartOf(offs: seq<nat>, i: nat): nat {
      if i < |offs| then offs[i] else size
    }
  }

  class CallFrameInfo {
    const section: Section
    ghost const offs: seq<nat>
    var pos: nat                   // stream.tell()
    var cache: map<nat, CfiEntry>  // _entry_cache
    var entries: Option<seq<CfiEntry>>

    constructor (section: Section, ghost offs: seq<nat>, pos: nat)
      requires section.WellFormed(offs)
      ensures Valid() && this.section == section && this.offs == offs && cache == map[] && entries == None
    {
      this.section, this.offs, this.pos := section, offs, pos;
      cache, entries := map[], None;
    }

    /** The object cached for an entry carries that entry's header and instructions, and an FDE's
        `cie` is the very object cached at the offset its header names. */
    ghost predicate Matches(o: nat, e: CfiEntry)
      reads `cache
    {
      var h := section.header(o);
      && e.offset == o && e.length == h.length
      && e.instructions == section.CodeOf(o)
      && match h
         case CieHeader(_, _, cf, df) => e.cie == null && e.codeFactor == cf && e.dataFactor == df
         case FdeHeader(_, _, p, loc) => p in cache && e.cie == cache[p] && e.cie.cie == null && e.initialLocation == loc
    }

    ghost predicate Valid()
      reads `cache, `entries
    {
      && section.WellFormed(offs)
      && (forall o :: o in cache ==> o in offs)
      && (forall o {:trigger Matches(o, cache[o])} :: o in cache ==> Matches(o, cache[o]))
      && (entries.Some? ==> AreEntries(entries.value))
    }

    /** The entries in section order, once each, every FDE pointing into the list itself. */
    ghost predicate AreEntries(es: seq<CfiEntry>)
      reads `cache
    {
      && |es| == |offs|
      && (forall i :: 0 <= i < |offs| ==> offs[i] in cache && es[i] == cache[offs[i]])
    }

    /** Cached objects are never replaced; new ones are fresh and not yet decoded. */
    twostate predicate Extended()
      reads this, cache.Values
    {
      && (forall o :: o in old(cache) ==> o in cache && cache[o] == old(cache[o]))
      && (forall o :: o in cache && o !in old(cache) ==> fresh(cache[o]) && cache[o].decoded == null)
    }

    /** `_parse_instructions` */
    method ParseInstructions(start: nat, end: nat) returns (code: seq<Instr>)
      requires section.Runs(start, end) && pos == start
      modifies `pos
      ensures code == section.Code(start, end) && pos == end
    {
      code := [];
      var offset := start;
      while offset < end
        invariant section.Runs(offset, end) && pos == offset
        invariant code + section.Code(offset, end) == section.Code(start, end)
        decreases end - offset
      {
        var x := section.instr(offset);
        pos := offset + x.size;
        code := code + [x.instr];
        offset := pos;
      }
    }

    /** `_parse_entry_at`. A cached entry is skipped relative to where the stream stands. */
    method ParseEntryAt(offset: nat) returns (e: CfiEntry)
      requires Valid() && offset in offs
      modifies `pos, `cache
      ensures Valid() && offset in cache && e == cache[offset]
      ensures Extended()
      ensures section.header(offset).CieHeader? ==> cache.Keys == old(cache).Keys + {offset} && e.cie == null
      ensures pos == (if offset in old(cache) then old(pos) else offset) + 4 + e.length
      decreases if section.header(offset).FdeHeader? then 1 else 0, 0
    {
      if offset in cache {
        e := cache[offset];
        ghost var matches := Matches(offset, cache[offset]);
        pos := pos + e.length + LENGTH_FIELD;
        return;
      }
      if section.header(offset).CieHeader? {
        e := ParseCie(offset);
      } else {
        e := ParseFde(offset);
      }
    }

    /** Header and instructions of an entry that is not cached. */
    method ParseBody(offset: nat) returns (code: seq<Instr>)
      requires Valid() && offset in offs && pos == offset + section.header(offset).headerSize
      modifies `pos
      ensures code == section.CodeOf(offset)
      ensures pos == section.End(offset)
    {
      assert section.EntryOk(offs, offset);
      code := ParseInstructions(pos, section.End(offset));
    }

    method ParseCie(offset: nat) returns (e: CfiEntry)
      requires Valid() && offset in offs && offset !in cache && section.header(offset).CieHeader?
      modifies `pos, `cache
      ensures Valid() && cache == old(cache)[offset := e] && fresh(e) && e.decoded == null && e.cie == null
      ensures pos == offset + LENGTH_FIELD + e.length
    {
      var h := section.header(offset);
      pos := offset + h.headerSize;
      var code := ParseBody(offset);
      e := new CfiEntry.AsCie(offset, h.length, h.codeFactor, h.dataFactor, code);
      Store(offset, e);
    }

    method ParseFde(offset: nat) returns (e: CfiEntry)
      requires Valid() && offset in offs && offset !in cache && section.header(offset).FdeHeader?
      modifies `pos, `cache
      ensures Valid() && offset in cache && e == cache[offset] && Extended()
      ensures pos == offset + LENGTH_FIELD + e.length
      decreases 0, 2
    {
      var h := section.header(offset);
      assert section.EntryOk(offs, offset);
      pos := offset + h.headerSize;
      var cie := ParseCieForFde(h.ciePointer);
      var code := ParseBody(offset);
      cie := ParseCieForFde(h.ciePointer);
      e := new CfiEntry.AsFde(offset, h.length, cie, h.initialLocation, code);
      Store(offset, e);
    }

    /** `self._entry_cache[offset] = entry` */
    method Store(offset: nat, e: CfiEntry)
      requires Valid() && offset in offs && offset !in cache && Matches(offset, e)
      modifies `cache
      ensures Valid() && cache == old(cache)[offset := e]
    {
      cache := cache[offset := e];
      forall o | o in cache ensures Matches(o, cache[o]) {
        if o != offset { ghost var was := old(Matches(o, cache[o])); }
      }
    }

    /** `_parse_cie_for_fde`, under `preserve_stream_pos` */
    method ParseCieForFde(ciePointer: nat) returns (cie: CfiEntry)
      requires Valid() && ciePointer in offs && section.header(ciePointer).CieHeader?
      modifies `pos, `cache
      ensures Valid() && ciePointer in cache && cie == cache[ciePointer] && cie.cie == null && pos == old(pos)
      ensures Extended() && cache.Keys == old(cache).Keys + {ciePointer}
      decreases 0, 1
    {
      var saved := pos;
      cie := ParseEntryAt(ciePointer);
      pos := saved;
    }

    /** `_parse_entries`, as `get_entries` runs it: once, with an empty cache. */
    method ParseEntries() returns (es: seq<CfiEntry>)
      requires Valid() && cache == map[]
      modifies `pos, `cache
      ensures Valid() && AreEntries(es) && Extended()
      ensures offs != [] ==> pos == section.size
    {
      es := [];
      var offset := 0;
      while offset < section.size
        invariant Valid() && Extended() && |es| <= |offs|
        invariant offset == section.StartOf(offs, |es|)
        invariant es != [] ==> pos == offset
        invariant es == [] ==> cache == map[]
        invariant forall i :: 0 <= i < |es| ==> offs[i] in cache && es[i] == cache[offs[i]]
        decreases |offs| - |es|
      {
        assert offs[|es|] == offset;
        assert section.End(offs[|es|]) == section.StartOf(offs, |es| + 1);
        var e := ParseEntryAt(offset);
        ghost var matches := Matches(offset, cache[offset]);
        es := es + [e];
        offset := pos;
      }
      if |es| < |offs| { section.StartsIncrease(offs, |es|, |offs|); }
    }

    /** `get_entries` */
    method GetEntries() returns (es: seq<CfiEntry>)
      requires Valid() && (entries.None? ==> cache == map[])
      modifies `pos, `cache, `entries
      ensures Valid() && entries == Some(es) && AreEntries(es) && Extended()
      ensures old(entries).Some? ==> entries == old(entries) && cache == old(cache)
    {
      if entries.None? {
        var parsed := ParseEntries();
        entries := Some(parsed);
      }
      es := entries.value;
    }

    /** The list in the section's own terms: entry i is the one at offset offs[i], its instructions are
        those of the section, and an FDE's `cie` is itself a member of the list, the one listed for the
        offset that the FDE names, whether that offset lies before or after the FDE. */
    lemma ListedEntries(es: seq<CfiEntry>, i: nat)
      requires Valid() && AreEntries(es) && i < |offs|
      ensures forall j :: 0 <= j < |es| && es[j] == es[i] ==> j == i
      ensures es[i].offset == offs[i] && es[i].length == section.header(offs[i]).length
      ensures es[i].instructions == section.CodeOf(offs[i])
      ensures match section.header(offs[i])
        case CieHeader(_, _, codeFactor, dataFactor) => es[i].codeFactor == codeFactor && es[i].dataFactor == dataFactor
        case FdeHeader(_, _, _, initialLocation) => es[i].initialLocation == initialLocation
      ensures es[i].cie == null <==> section.header(offs[i]).CieHeader?
      ensures es[i].cie != null ==>
        exists j :: 0 <= j < |offs| && offs[j] == section.header(offs[i]).ciePointer && es[i].cie == es[j]
    {
      var o := offs[i];
      ghost var matches := Matches(o, cache[o]);
      forall j | 0 <= j < |es| && es[j] == es[i] ensures j == i {
        ghost var matchesJ := Matches(offs[j], cache[offs[j]]);
        if i < j { section.StartsIncrease(offs, i, j); } else if j < i { section.StartsIncrease(offs, j, i); }
      }
      if section.header(o).FdeHeader? {
        ghost var ok := section.EntryOk(offs, o);
        var j :| 0 <= j < |offs| && offs[j] == section.header(o).ciePointer;
        assert es[i].cie == es[j];
      }
    }

    /** What a first `get_entries` returns is a list on which decoding sessions may run. */
    lemma ListIsValid(es: seq<CfiEntry>)
      requires Valid() && AreEntries(es) && forall e :: e in es ==> e.decoded == null
      ensures AllValid(es)
    {
      forall e | e in es ensures e.Memo() && (e.cie != null ==> e.cie in es && e.cie.cie == null) {
        var i :| 0 <= i < |es| && es[i] == e;
        ListedEntries(es, i);
        ghost var matches := Matches(offs[i], cache[offs[i]]);
      }
    }
  }

  /** `get_entries`, then any number of `get_decoded` calls on what it returned: the list is that of the
      section, every table is what the section's bytes mean, and the next `get_entries` returns the list
      with its tables. */
  method DecodeSection(info: CallFrameInfo, requests: seq<nat>) returns (es: seq<CfiEntry>, answers: seq<Result<DecodedTable, CfiTable.Error>>)
    requires info.Valid() && info.entries == None && info.cache == map[]
    requires forall j :: 0 <= j < |requests| ==> requests[j] < |info.offs|
    modifies info
    ensures info.Valid() && info.AreEntries(es) && info.entries == Some(es) && AllValid(es)
    ensures |answers| == |requests| && forall j :: 0 <= j < |requests| ==> Answers(es[requests[j]], answers[j])
  {
    es := info.GetEntries();
    forall e | e in es ensures fresh(e) && e.decoded == null {
      var i :| 0 <= i < |es| && es[i] == e;
      assert info.offs[i] in info.cache;
    }
    info.ListIsValid(es);
    answers := Session(es, requests);
  }
}
