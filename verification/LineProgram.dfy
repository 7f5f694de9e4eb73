/** `LineProgram`: reading commands from the stream, executing them on a mutable LineState, and
    collecting entries that hold copies of it. */
module LineProgram {
  import opened Common
  import opened Streams
  import Leb128
  import opened LineTable
  import opened LineRegisters

  datatype ParsedFile = ParsedFile(file: FileEntry, size: nat)

  /** The formats that depend on the unit: target address size, byte order, file entry struct. */
  datatype Structs = Structs(addressSize: nat, littleEndian: bool, fileEntry: seq<byte> -> Option<ParsedFile>)

  type positive = n: nat | n > 0 witness 1

  /** A command and its length: every command moves the stream strictly forward. */
  datatype Fetched = Fetched(cmd: Cmd, size: positive)

  // ----- one command as a function of the bytes -----

  function UintAt(s: seq<byte>, n: nat, littleEndian: bool): Option<Leb128.Decoded> {
    if |s| < n then None else Some(Leb128.Decoded(Number(s[..n], littleEndian), n))
  }

  function Drop(s: seq<byte>, n: nat): seq<byte> {
    if n <= |s| then s[n..] else []
  }

  function Operand(d: Option<Leb128.Decoded>, n: positive, make: int -> Cmd): Result<Fetched, Error> {
    match d case None => Err(ParseError) case Some(x) => Ok(Fetched(make(x.value), n + x.size))
  }

  function Nat(x: int): nat { if x < 0 then 0 else x }

  function Standard(st: Structs, op: nat, t: seq<byte>): Result<Fetched, Error> {
    if op == 1 then Ok(Fetched(CopyRow, 1))
    else if op == 2 then Operand(Leb128.Unsigned(t), 1, x => AdvancePc(x))
    else if op == 3 then Operand(Leb128.Signed(t), 1, x => AdvanceLine(x))
    else if op == 4 then Operand(Leb128.Unsigned(t), 1, x => SetFile(x))
    else if op == 5 then Operand(Leb128.Unsigned(t), 1, x => SetColumn(x))
    else if op == 6 then Ok(Fetched(NegateStmt, 1))
    else if op == 7 then Ok(Fetched(SetBasicBlock, 1))
    else if op == 8 then Ok(Fetched(ConstAddPc, 1))
    else if op == 9 then Operand(UintAt(t, 2, st.littleEndian), 1, x => FixedAdvancePc(Nat(x)))
    else if op == 10 then Ok(Fetched(SetPrologueEnd, 1))
    else if op == 11 then Ok(Fetched(SetEpilogueBegin, 1))
    else if op == 12 then Operand(Leb128.Unsigned(t), 1, x => SetIsa(x))
    else Err(InvalidOpcode)
  }

  /** An extended opcode `ex` whose operands start at `y`, after `n` bytes of the command. */
  function Extended(st: Structs, ex: nat, y: seq<byte>, instLen: nat, n: nat): Result<Fetched, Error>
    requires n >= 2
  {
    if ex == 1 then Ok(Fetched(EndSequence, n))
    else if ex == 2 then Operand(UintAt(y, st.addressSize, st.littleEndian), n, x => SetAddress(Nat(x)))
    else if ex == 3 then
      match st.fileEntry(y)
      case None => Err(ParseError)
      case Some(f) => Ok(Fetched(DefineFile(f.file), n + f.size))
    else if ex == 4 then Operand(Leb128.Unsigned(y), n, x => SetDiscriminator(x))
    else Ok(Fetched(UnknownExtended, n + instLen - 1))
  }

  /** After the zero byte: the length and the extended opcode. */
  function Lengthy(st: Structs, t: seq<byte>): Result<Fetched, Error> {
    match Leb128.Unsigned(t)
    case None => Err(ParseError)
    case Some(len) =>
      var x := Drop(t, len.size);
      if x == [] then Err(ParseError) else Extended(st, x[0], x[1..], len.value, 2 + len.size)
  }

  function Fetch(h: Header, st: Structs, s: seq<byte>): Result<Fetched, Error> {
    if s == [] then Err(ParseError)
    else if s[0] >= h.opcodeBase then Ok(Fetched(Special(s[0]), 1))
    else if s[0] == 0 then Lengthy(st, s[1..])
    else Standard(st, s[0], s[1..])
  }

  // ----- the whole program -----

  /** The command at each offset of a section. */
  function Fetcher(h: Header, st: Structs, data: seq<byte>): nat -> Result<Fetched, Error> {
    (off: nat) => Fetch(h, st, Drop(data, off))
  }

  /** Fetch and execute from `off` until `end` is reached. */
  function Decode(h: Header, fetch: nat -> Result<Fetched, Error>, off: nat, end: nat, m: Machine): Result<Machine, Error>
    decreases end - off
  {
    if end <= off then Ok(m)
    else match fetch(off)
      case Err(e) => Err(e)
      case Ok(f) =>
        match Exec(h, m, f.cmd)
        case Err(e) => Err(e)
        case Ok(m') => Decode(h, fetch, off + f.size, end, m')
  }

  /** Where decoding stops: the final machine, or the one an error left. */
  function Reached(h: Header, fetch: nat -> Result<Fetched, Error>, off: nat, end: nat, m: Machine): Machine
    decreases end - off
  {
    if end <= off then m
    else match fetch(off)
      case Err(_) => m
      case Ok(f) =>
        match Exec(h, m, f.cmd)
        case Err(_) => m
        case Ok(m') => Reached(h, fetch, off + f.size, end, m')
  }

  lemma {:induction false} ReachedOnSuccess(h: Header, fetch: nat -> Result<Fetched, Error>, off: nat, end: nat, m: Machine)
    requires Decode(h, fetch, off, end, m).Ok?
    ensures Reached(h, fetch, off, end, m) == Decode(h, fetch, off, end, m).value
    decreases end - off
  {
    if off < end {
      var f := fetch(off).value;
      ReachedOnSuccess(h, fetch, off + f.size, end, Exec(h, m, f.cmd).value);
    }
  }

  /** The commands met on the way. */
  function Commands(fetch: nat -> Result<Fetched, Error>, off: nat, end: nat): seq<Cmd>
    decreases end - off
  {
    if end <= off then []
    else match fetch(off)
      case Err(_) => []
      case Ok(f) => [f.cmd] + Commands(fetch, off + f.size, end)
  }

  lemma RunSnoc(h: Header, m: Machine, cmds: seq<Cmd>, c: Cmd)
    requires Run(h, m, cmds).Ok?
    ensures Run(h, m, cmds + [c]) == Exec(h, Run(h, m, cmds).value, c)
  {
    assert (cmds + [c])[..|cmds|] == cmds;
  }

  lemma FirstCommand(fetch: nat -> Result<Fetched, Error>, f: Fetched, off: nat, next: nat, end: nat, more: seq<Cmd>)
    requires off < end && next == off + f.size && fetch(off) == Ok(f) && Commands(fetch, next, end) == more
    ensures Commands(fetch, off, end) == [f.cmd] + more
  {
  }

  /** Decoding bytes is running the machine on the commands they hold. */
  lemma {:induction false} DecodeIsRun(h: Header, fetch: nat -> Result<Fetched, Error>, off: nat, end: nat, done: seq<Cmd>, m: Machine)
    requires Run(h, Start(h), done) == Ok(m) && Decode(h, fetch, off, end, m).Ok?
    ensures Decode(h, fetch, off, end, m) == Run(h, Start(h), done + Commands(fetch, off, end))
    decreases end - off
  {
    if end <= off {
      assert done + [] == done;
    } else {
      var f := fetch(off).value;
      var next, m' := off + f.size, Exec(h, m, f.cmd).value;
      DecodeRound(h, fetch, off, end, m, Ok(f.cmd), next);
      RunSnoc(h, Start(h), done, f.cmd);
      DecodeIsRun(h, fetch, next, end, done + [f.cmd], m');
      FirstCommand(fetch, f, off, next, end, Commands(fetch, next, end));
      Regroup(done, f.cmd, Commands(fetch, next, end));
    }
  }

  /** A decoded program is a run of the machine, so what holds of every run holds of every program. */
  lemma DecodedProgram(h: Header, fetch: nat -> Result<Fetched, Error>, start: nat, end: nat)
    requires Decode(h, fetch, start, end, Start(h)).Ok?
    ensures Decode(h, fetch, start, end, Start(h)) == Run(h, Start(h), Commands(fetch, start, end))
    ensures h.maxOps > 0 ==> RowsInRange(h, Decode(h, fetch, start, end, Start(h)).value.entries)
  {
    DecodeIsRun(h, fetch, start, end, [], Start(h));
    assert [] + Commands(fetch, start, end) == Commands(fetch, start, end);
    if h.maxOps > 0 { OpIndexInRange(h, Commands(fetch, start, end)); }
  }

  /** So its entries are those that its commands should leave. */
  lemma DecodedEntries(h: Header, fetch: nat -> Result<Fetched, Error>, start: nat, end: nat)
    requires Decode(h, fetch, start, end, Start(h)).Ok?
    ensures EntriesOf(h, Commands(fetch, start, end), Decode(h, fetch, start, end, Start(h)).value.entries)
  {
    DecodedProgram(h, fetch, start, end);
    EntriesDuringRun(h, Commands(fetch, start, end));
  }

  // ----- reading a command -----

  lemma DropDrop(data: seq<byte>, a: nat, b: nat)
    ensures Drop(Drop(data, a), b) == Drop(data, a + b)
  {
    if a + b <= |data| { assert data[a..][b..] == data[a + b..]; }
  }

  method ReadUint(stream: Stream, n: nat, littleEndian: bool) returns (r: Option<int>)
    modifies stream
    ensures match UintAt(old(stream.Rest()), n, littleEndian)
      case None => r == None
      case Some(d) => r == Some(d.value) && stream.pos == old(stream.pos) + d.size
  {
    var b := stream.Read(n);
    if |b| < n { return None; }
    r := Some(Number(b, littleEndian));
  }

  method ReadUleb(stream: Stream) returns (r: Option<int>)
    modifies stream
    ensures match Leb128.Unsigned(old(stream.Rest()))
      case None => r == None
      case Some(d) => r == Some(d.value) && stream.pos == old(stream.pos) + d.size
  {
    var v := Leb128.ParseUnsigned(stream);
    r := if v.Ok? then Some(v.value) else None;
  }

  method ReadSleb(stream: Stream) returns (r: Option<int>)
    modifies stream
    ensures match Leb128.Signed(old(stream.Rest()))
      case None => r == None
      case Some(d) => r == Some(d.value) && stream.pos == old(stream.pos) + d.size
  {
    var v := Leb128.ParseSigned(stream);
    r := if v.Ok? then Some(v.value) else None;
  }

  /** What a read command and the new position mean, given that `from` was the position of the opcode. */
  ghost predicate Reads(f: Result<Fetched, Error>, from: nat, r: Result<Cmd, Error>, pos: nat) {
    match f case Err(e) => r == Err(e) case Ok(x) => r == Ok(x.cmd) && pos == from + x.size
  }

  function Made(v: Option<int>, make: int -> Cmd): Result<Cmd, Error> {
    match v case None => Err(ParseError) case Some(x) => Ok(make(x))
  }

  method ReadStandard(st: Structs, stream: Stream, op: nat) returns (r: Result<Cmd, Error>)
    requires stream.pos > 0
    modifies stream
    ensures Reads(Standard(st, op, old(stream.Rest())), old(stream.pos) - 1, r, stream.pos)
  {
    if op == 1 { r := Ok(CopyRow); }
    else if op == 2 { var v := ReadUleb(stream); r := Made(v, x => AdvancePc(x)); }
    else if op == 3 { var v := ReadSleb(stream); r := Made(v, x => AdvanceLine(x)); }
    else if op == 4 { var v := ReadUleb(stream); r := Made(v, x => SetFile(x)); }
    else if op == 5 { var v := ReadUleb(stream); r := Made(v, x => SetColumn(x)); }
    else if op == 6 { r := Ok(NegateStmt); }
    else if op == 7 { r := Ok(SetBasicBlock); }
    else if op == 8 { r := Ok(ConstAddPc); }
    else if op == 9 { var v := ReadUint(stream, 2, st.littleEndian); r := Made(v, x => FixedAdvancePc(Nat(x))); }
    else if op == 10 { r := Ok(SetPrologueEnd); }
    else if op == 11 { r := Ok(SetEpilogueBegin); }
    else if op == 12 { var v := ReadUleb(stream); r := Made(v, x => SetIsa(x)); }
    else { r := Err(InvalidOpcode); }
  }

  method ReadExtended(st: Structs, stream: Stream, ex: nat, instLen: nat, ghost from: nat) returns (r: Result<Cmd, Error>)
    requires from + 2 <= stream.pos
    modifies stream
    ensures Reads(Extended(st, ex, old(stream.Rest()), instLen, old(stream.pos) - from), from, r, stream.pos)
  {
    if ex == 1 { r := Ok(EndSequence); }
    else if ex == 2 { var v := ReadUint(stream, st.addressSize, st.littleEndian); r := Made(v, x => SetAddress(Nat(x))); }
    else if ex == 3 {
      var f := st.fileEntry(Drop(stream.data, stream.pos));
      if f.None? { return Err(ParseError); }
      stream.pos := stream.pos + f.value.size;
      r := Ok(DefineFile(f.value.file));
    }
    else if ex == 4 { var v := ReadUleb(stream); r := Made(v, x => SetDiscriminator(x)); }
    else {
      stream.pos := stream.pos + instLen - 1;
      r := Ok(UnknownExtended);
    }
  }

  method ReadLengthy(st: Structs, stream: Stream) returns (r: Result<Cmd, Error>)
    requires stream.pos > 0
    modifies stream
    ensures Reads(Lengthy(st, old(stream.Rest())), old(stream.pos) - 1, r, stream.pos)
  {
    var at := stream.pos;
    ghost var t := stream.Rest();
    var len := ReadUleb(stream);
    if len.None? { return Err(ParseError); }
    ghost var size := Leb128.Unsigned(t).value.size;
    assert stream.Rest() == Drop(t, size) by { DropDrop(stream.data, at, size); }
    var x := stream.Read(1);
    if |x| < 1 { return Err(ParseError); }
    r := ReadExtended(st, stream, x[0], len.value, at - 1);
  }

  /** The reads of one round of the loop, starting with the seek to `offset`. */
  method ReadCommand(h: Header, st: Structs, stream: Stream, offset: nat) returns (r: Result<Cmd, Error>)
    modifies stream
    ensures Reads(Fetch(h, st, Drop(stream.data, offset)), offset, r, stream.pos)
    ensures r.Ok? ==> stream.pos > offset
  {
    stream.pos := offset;
    ghost var s := stream.Rest();
    assert s == Drop(stream.data, offset);
    var b := stream.Read(1);
    if |b| < 1 { return Err(ParseError); }
    var op := b[0];
    if op >= h.opcodeBase {
      r := Ok(Special(op));
    } else if op == 0 {
      r := ReadLengthy(st, stream);
    } else {
      r := ReadStandard(st, stream, op);
    }
  }

  // ----- executing on a mutable state -----

  class LineState {
    var address: int
    var file: int
    var line: int
    var column: int
    var opIndex: int
    var isStmt: bool
    var isa: int
    var endSequence: bool
    var basicBlock: bool
    var prologueEnd: bool
    var epilogueBegin: bool
    var discriminator: int

    function Regs(): Regs
      reads this
    {
      LineTable.Regs(address, file, line, column, opIndex, isStmt, isa, endSequence, basicBlock, prologueEnd, epilogueBegin, discriminator)
    }

    constructor (h: Header)
      ensures Regs() == Initial(h)
    {
      address, file, line, column, opIndex, isStmt := 0, 1, 1, 0, 0, h.defaultIsStmt;
      basicBlock, endSequence, prologueEnd, epilogueBegin := false, false, false, false;
      isa, discriminator := 0, 0;
    }

    /** `copy.copy`. */
    constructor CopyOf(s: LineState)
      ensures Regs() == s.Regs()
    {
      address, file, line, column, opIndex, isStmt := s.address, s.file, s.line, s.column, s.opIndex, s.isStmt;
      basicBlock, endSequence, prologueEnd, epilogueBegin := s.basicBlock, s.endSequence, s.prologueEnd, s.epilogueBegin;
      isa, discriminator := s.isa, s.discriminator;
    }
  }

  /** A LineProgramEntry as the program holds it: `state` is an object of its own. */
  datatype LineEntry = LineEntry(command: nat, isExtended: bool, args: seq<int>, state: LineState?)

  function States(es: seq<LineEntry>): set<LineState> {
    set e | e in es && e.state != null :: e.state
  }

  function View(e: LineEntry): Entry
    reads e.state
  {
    Entry(e.command, e.isExtended, e.args, if e.state == null then None else Some(e.state.Regs()))
  }

  ghost predicate Shows(es: seq<LineEntry>, view: seq<Entry>)
    reads States(es)
  {
    |es| == |view| && forall i :: 0 <= i < |es| ==> View(es[i]) == view[i]
  }

  method AddNewState(state: LineState, command: nat, args: seq<int>, isExtended: bool) returns (e: LineEntry)
    modifies state
    ensures e.state != null && fresh(e.state) && View(e) == Entry(command, isExtended, args, Some(old(state.Regs())))
    ensures state.Regs() == Cleared(old(state.Regs()))
  {
    var copy := new LineState.CopyOf(state);
    e := LineEntry(command, isExtended, args, copy);
    state.discriminator := 0;
    state.basicBlock := false;
    state.prologueEnd := false;
    state.epilogueBegin := false;
  }

  method ExecuteSpecial(h: Header, state: LineState, opcode: nat) returns (e: LineEntry)
    requires Divides(h, Special(opcode))
    modifies state
    ensures e.state != null && fresh(e.state) && [View(e)] == Emitted(h, old(state.Regs()), Special(opcode))
    ensures state.Regs() == After(h, old(state.Regs()), Special(opcode))
  {
    var adjusted := opcode - h.opcodeBase;
    var advance := adjusted / h.lineRange;
    var addressAddend := h.minLength * ((state.opIndex + advance) / h.maxOps);
    state.address := state.address + addressAddend;
    state.opIndex := (state.opIndex + advance) % h.maxOps;
    var lineAddend := h.lineBase + adjusted % h.lineRange;
    state.line := state.line + lineAddend;
    e := AddNewState(state, opcode, [lineAddend, addressAddend, state.opIndex], false);
  }

  /** `add_entry_old_state`. */
  function WithoutState(es: seq<Entry>): seq<LineEntry> {
    if es == [] then [] else [LineEntry(es[0].command, es[0].isExtended, es[0].args, null)]
  }

  predicate MovesAddress(c: Cmd) { c.SetAddress? || c.AdvancePc? || c.ConstAddPc? || c.FixedAdvancePc? }

  method ExecuteMove(h: Header, state: LineState, c: Cmd) returns (added: seq<LineEntry>)
    requires Divides(h, c) && MovesAddress(c)
    modifies state
    ensures added == WithoutState(Emitted(h, old(state.Regs()), c))
    ensures state.Regs() == After(h, old(state.Regs()), c)
  {
    match c {
      case SetAddress(a) => state.address := a; added := [LineEntry(2, true, [a], null)];
      case AdvancePc(n) =>
        var addend := n * h.minLength;
        state.address := state.address + addend;
        added := [LineEntry(2, false, [addend], null)];
      case ConstAddPc =>
        var addend := (255 - h.opcodeBase) / h.lineRange * h.minLength;
        state.address := state.address + addend;
        added := [LineEntry(8, false, [addend], null)];
      case FixedAdvancePc(n) => state.address := state.address + n; added := [LineEntry(9, false, [n], null)];
    }
  }

  predicate SetsFlag(c: Cmd) { c.NegateStmt? || c.SetBasicBlock? || c.SetPrologueEnd? || c.SetEpilogueBegin? }

  method ExecuteFlag(h: Header, state: LineState, c: Cmd) returns (added: seq<LineEntry>)
    requires SetsFlag(c)
    modifies state
    ensures added == WithoutState(Emitted(h, old(state.Regs()), c))
    ensures state.Regs() == After(h, old(state.Regs()), c)
  {
    match c {
      case NegateStmt => state.isStmt := !state.isStmt; added := [LineEntry(6, false, [], null)];
      case SetBasicBlock => state.basicBlock := true; added := [LineEntry(7, false, [], null)];
      case SetPrologueEnd => state.prologueEnd := true; added := [LineEntry(10, false, [], null)];
      case SetEpilogueBegin => state.epilogueBegin := true; added := [LineEntry(11, false, [], null)];
    }
  }

  /** The commands that neither add a row, nor move the address, nor set a flag. */
  method ExecuteSet(h: Header, state: LineState, c: Cmd) returns (added: seq<LineEntry>)
    requires !IsRow(c) && !MovesAddress(c) && !SetsFlag(c)
    modifies state
    ensures added == WithoutState(Emitted(h, old(state.Regs()), c))
    ensures state.Regs() == After(h, old(state.Regs()), c)
  {
    match c {
      case DefineFile(_) => added := [LineEntry(3, true, [], null)];
      case SetDiscriminator(d) => state.discriminator := d; added := [];
      case UnknownExtended => added := [];
      case AdvanceLine(n) => state.line := state.line + n; added := [];
      case SetFile(n) => state.file := n; added := [LineEntry(4, false, [n], null)];
      case SetColumn(n) => state.column := n; added := [LineEntry(5, false, [n], null)];
      case SetIsa(n) => state.isa := n; added := [LineEntry(12, false, [n], null)];
    }
  }

  /** The commands that add a row; `next` is the live state from here on. */
  method ExecuteRow(h: Header, state: LineState, c: Cmd) returns (e: LineEntry, next: LineState)
    requires Divides(h, c) && IsRow(c)
    modifies state
    ensures e.state != null && fresh(e.state) && [View(e)] == Emitted(h, old(state.Regs()), c)
    ensures next.Regs() == After(h, old(state.Regs()), c) && (next == state || fresh(next)) && next != e.state
  {
    next := state;
    if c.Special? {
      e := ExecuteSpecial(h, state, c.opcode);
    } else if c.CopyRow? {
      e := AddNewState(state, 1, [], false);
    } else {
      state.endSequence := true;
      state.isStmt := false;
      e := AddNewState(state, 1, [], true);
      next := new LineState(h);
    }
  }

  method ExecutePlain(h: Header, state: LineState, c: Cmd) returns (added: seq<LineEntry>)
    requires Divides(h, c) && !IsRow(c)
    modifies state
    ensures added == WithoutState(Emitted(h, old(state.Regs()), c))
    ensures state.Regs() == After(h, old(state.Regs()), c)
  {
    if MovesAddress(c) {
      added := ExecuteMove(h, state, c);
    } else if SetsFlag(c) {
      added := ExecuteFlag(h, state, c);
    } else {
      added := ExecuteSet(h, state, c);
    }
  }

  lemma PlainShows(h: Header, r: Regs, c: Cmd)
    requires Divides(h, c) && !IsRow(c)
    ensures Shows(WithoutState(Emitted(h, r, c)), Emitted(h, r, c)) && States(WithoutState(Emitted(h, r, c))) == {}
  {
  }

  /** One command; `next` is apart from every state handed out. */
  method Execute(h: Header, state: LineState, c: Cmd) returns (added: seq<LineEntry>, next: LineState)
    requires Divides(h, c)
    modifies state
    ensures next.Regs() == After(h, old(state.Regs()), c) && Shows(added, Emitted(h, old(state.Regs()), c))
    ensures (next == state || fresh(next)) && fresh(States(added)) && next !in States(added)
  {
    if IsRow(c) {
      var e;
      e, next := ExecuteRow(h, state, c);
      added := [e];
    } else {
      PlainShows(h, state.Regs(), c);
      added := ExecutePlain(h, state, c);
      next := state;
    }
  }

  lemma ShowsMore(es: seq<LineEntry>, view: seq<Entry>, added: seq<LineEntry>, more: seq<Entry>)
    requires Shows(es, view) && Shows(added, more)
    ensures Shows(es + added, view + more) && States(es + added) == States(es) + States(added)
  {
  }

  /** The live state and the entries so far are those of the machine, and the live state is not in an entry. */
  ghost predicate Mirrors(es: seq<LineEntry>, state: LineState, m: Machine)
    reads state, States(es)
  {
    state.Regs() == m.regs && state !in States(es) && Shows(es, m.entries)
  }

  /** One command, its entry appended: the entries so far are not altered. */
  method Append(h: Header, state: LineState, c: Cmd, es: seq<LineEntry>, ghost m: Machine)
    returns (all: seq<LineEntry>, next: LineState)
    requires Divides(h, c) && Mirrors(es, state, m)
    modifies state
    ensures es <= all && Shows(es, m.entries) && Mirrors(all, next, Exec(h, m, c).value)
    ensures (next == state || fresh(next)) && fresh(States(all) - States(es))
  {
    var added;
    ghost var more := Emitted(h, state.Regs(), c);
    added, next := Execute(h, state, c);
    ShowsMore(es, m.entries, added, more);
    all := es + added;
  }

  /** One round of decoding, in terms of what was read. */
  lemma DecodeRound(h: Header, fetch: nat -> Result<Fetched, Error>, off: nat, end: nat, m: Machine, r: Result<Cmd, Error>, pos: nat)
    requires off < end && Reads(fetch(off), off, r, pos)
    ensures r.Err? ==> Decode(h, fetch, off, end, m) == Err(r.error)
    ensures r.Ok? && !Divides(h, r.value) ==> Decode(h, fetch, off, end, m) == Err(ZeroDivision)
    ensures r.Ok? && Divides(h, r.value) ==> Decode(h, fetch, off, end, m) == Decode(h, fetch, pos, end, Exec(h, m, r.value).value)
    ensures Reached(h, fetch, off, end, m) ==
      if r.Ok? && Divides(h, r.value) then Reached(h, fetch, pos, end, Exec(h, m, r.value).value) else m
  {
  }

  lemma FilesJoin(a: seq<FileEntry>, b: seq<FileEntry>, c: seq<FileEntry>)
    ensures a + b + c == a + (b + c)
  {
  }

  class LineProgram {
    const header: Header
    const structs: Structs
    const stream: Stream
    const start: nat
    const end: nat
    /** The command at each offset of the section; see FetchesAt. */
    ghost const fetch: nat -> Result<Fetched, Error>
    var files: seq<FileEntry>
    var decoded: Option<seq<LineEntry>>

    constructor (header: Header, structs: Structs, stream: Stream, start: nat, end: nat, files: seq<FileEntry>)
      ensures Valid() && decoded == None && this.files == files
      ensures this.header == header && this.structs == structs && this.stream == stream && this.start == start && this.end == end
    {
      this.header, this.structs, this.stream, this.start, this.end := header, structs, stream, start, end;
      this.files, decoded := files, None;
      fetch := Fetcher(header, structs, stream.data);
      new;
      assert forall off: nat :: FetchesAt(off);
    }

    ghost predicate FetchesAt(off: nat) {
      fetch(off) == Fetch(header, structs, Drop(stream.data, off))
    }

    ghost predicate Readable() {
      forall off: nat {:trigger FetchesAt(off)} :: FetchesAt(off)
    }

    /** What the section's bytes mean. */
    ghost function Meaning(): Result<Machine, Error> {
      Onward(start, Start(header))
    }

    /** The file entries that decoding appends to the header, up to its end or to an error. */
    ghost function Defined(): seq<FileEntry> {
      StopsAt(start, Start(header)).files
    }

    ghost predicate Valid()
      reads this, if decoded.Some? then States(decoded.value) else {}
    {
      Readable() && (decoded.Some? ==> Meaning().Ok? && Shows(decoded.value, Meaning().value.entries))
    }

    /** `get_entries`: the entries of the program, decoded at the first call and the same objects later. */
    method GetEntries() returns (r: Result<seq<LineEntry>, Error>)
      requires Valid()
      modifies this, stream
      ensures Valid() && (r.Ok? ==> decoded == Some(r.value))
      ensures match Meaning() case Err(e) => r == Err(e) case Ok(m) => r.Ok? && Shows(r.value, m.entries)
      ensures old(decoded).Some? ==> r == Ok(old(decoded).value) && files == old(files) && stream.pos == old(stream.pos)
      ensures old(decoded).None? ==> files == old(files) + Defined() && (r.Ok? ==> fresh(States(r.value)))
      ensures Meaning().Ok? ==> Defined() == Meaning().value.files
      ensures r.Ok? ==> exists view :: Shows(r.value, view) && EntriesOf(header, Commands(fetch, start, end), view)
    {
      if Meaning().Ok? {
        ReachedOnSuccess(header, fetch, start, end, Start(header));
        DecodedEntries(header, fetch, start, end);
      }
      if decoded.None? {
        var entries := DecodeLineProgram();
        if entries.Err? { return Err(entries.error); }
        decoded := Some(entries.value);
      }
      return Ok(decoded.value);
    }

    /** Decoding from `off` with the machine in state `m`. */
    ghost function Onward(off: nat, m: Machine): Result<Machine, Error> {
      Decode(header, fetch, off, end, m)
    }

    ghost function StopsAt(off: nat, m: Machine): Machine {
      Reached(header, fetch, off, end, m)
    }

    /** Read a command that can be executed, or say why not; a defined file goes to the header. */
    method NextCommand(offset: nat, ghost m: Machine) returns (r: Result<Cmd, Error>)
      requires offset < end && Readable()
      modifies stream, this`files
      ensures r.Ok? && r.value.DefineFile? ==> files == old(files) + [r.value.file]
      ensures r.Ok? && !r.value.DefineFile? ==> files == old(files)
      ensures r.Err? ==> files == old(files) && Onward(offset, m) == Err(r.error) && StopsAt(offset, m) == m
      ensures r.Ok? ==> stream.pos > offset && Divides(header, r.value)
      ensures r.Ok? ==> var m' := Exec(header, m, r.value).value;
        Onward(offset, m) == Onward(stream.pos, m') && StopsAt(offset, m) == StopsAt(stream.pos, m')
    {
      r := ReadCommand(header, structs, stream, offset);
      assert FetchesAt(offset);
      DecodeRound(header, fetch, offset, end, m, r, stream.pos);
      if r.Ok? && !Divides(header, r.value) { r := Err(ZeroDivision); }
      if r.Ok? && r.value.DefineFile? { files := files + [r.value.file]; }
    }

    /** One round of the loop. */
    method Round(offset: nat, es: seq<LineEntry>, state: LineState, ghost m: Machine)
      returns (r: Result<seq<LineEntry>, Error>, next: LineState, ghost m': Machine, ghost more: seq<FileEntry>)
      requires offset < end && Readable() && Mirrors(es, state, m)
      modifies stream, this`files, state
      ensures r.Err? ==> files == old(files) && Onward(offset, m) == Err(r.error) && StopsAt(offset, m) == m
      ensures r.Ok? ==> stream.pos > offset && Mirrors(r.value, next, m')
      ensures r.Ok? ==> Onward(offset, m) == Onward(stream.pos, m') && StopsAt(offset, m) == StopsAt(stream.pos, m')
      ensures r.Ok? ==> fresh(States(r.value) - States(es)) && (next == state || fresh(next))
      ensures r.Ok? ==> m'.files == m.files + more && files == old(files) + more
    {
      next, m', more := state, m, [];
      var c := NextCommand(offset, m);
      if c.Err? { return Err(c.error), next, m', more; }
      m' := Exec(header, m, c.value).value;
      more := if c.value.DefineFile? then [c.value.file] else [];
      assert m'.files == m.files + more && files == old(files) + more;
      var all;
      all, next := Append(header, state, c.value, es, m);
      r := Ok(all);
    }

    method DecodeLineProgram() returns (r: Result<seq<LineEntry>, Error>)
      requires Readable()
      modifies this`files, stream
      ensures match Meaning()
        case Err(e) => r == Err(e)
        case Ok(m) => r.Ok? && Shows(r.value, m.entries) && fresh(States(r.value))
      ensures files == old(files) + Defined()
    {
      var entries: seq<LineEntry> := [];
      var state := new LineState(header);
      ghost var m := Start(header);
      var offset := start;
      while offset < end
        invariant Meaning() == Onward(offset, m) && StopsAt(start, Start(header)) == StopsAt(offset, m)
        invariant fresh(state) && fresh(States(entries)) && Mirrors(entries, state, m)
        invariant files == old(files) + m.files
        decreases end - offset
      {
        ghost var after, more;
        var round;
        round, state, after, more := Round(offset, entries, state, m);
        if round.Err? { return Err(round.error); }
        FilesJoin(old(files), m.files, more);
        m := after;
        entries, offset := round.value, stream.pos;
      }
      return Ok(entries);
    }
  }
}
