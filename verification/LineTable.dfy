/** The line number machine (section 6.2 of DWARF v4) as a function of its commands, and what holds of
    every row it emits. */
module LineTable {
  import opened Common

  /** The header fields the machine consults. */
  datatype Header = Header(opcodeBase: nat, lineBase: int, lineRange: nat, minLength: nat, maxOps: nat, defaultIsStmt: bool)

  datatype FileEntry = FileEntry(name: seq<nat>, numbers: seq<int>)

  datatype Cmd =
    | Special(opcode: nat)
    | EndSequence
    | SetAddress(address: nat)
    | DefineFile(file: FileEntry)
    | SetDiscriminator(discriminator: int)
    | UnknownExtended
    | CopyRow
    | AdvancePc(operand: int)
    | AdvanceLine(delta: int)
    | SetFile(operand: int)
    | SetColumn(operand: int)
    | NegateStmt
    | SetBasicBlock
    | ConstAddPc
    | FixedAdvancePc(bytes: nat)
    | SetPrologueEnd
    | SetEpilogueBegin
    | SetIsa(operand: int)

  /** The registers. */
  datatype Regs = Regs(
    address: int, file: int, line: int, column: int, opIndex: int, isStmt: bool, isa: int,
    endSequence: bool, basicBlock: bool, prologueEnd: bool, epilogueBegin: bool, discriminator: int)

  function Initial(h: Header): Regs {
    Regs(0, 1, 1, 0, 0, h.defaultIsStmt, 0, false, false, false, false, 0)
  }

  /** A LineProgramEntry; `state` is a copy of the registers for commands that emit a row. */
  datatype Entry = Entry(command: nat, isExtended: bool, args: seq<int>, state: Option<Regs>)

  datatype Machine = Machine(regs: Regs, entries: seq<Entry>, files: seq<FileEntry>)

  datatype Error = ZeroDivision | InvalidOpcode | ParseError

  /** What emitting a row clears. */
  function Cleared(r: Regs): Regs {
    r.(discriminator := 0, basicBlock := false, prologueEnd := false, epilogueBegin := false)
  }

  predicate IsRow(c: Cmd) { c.Special? || c.EndSequence? || c.CopyRow? }

  function OperationAdvance(h: Header, opcode: nat): int
    requires h.lineRange > 0
  {
    (opcode - h.opcodeBase) / h.lineRange
  }

  /** The address and op_index part of a special opcode. */
  function Advance(h: Header, r: Regs, operations: int): Regs
    requires h.maxOps > 0
  {
    r.(address := r.address + h.minLength * ((r.opIndex + operations) / h.maxOps),
       opIndex := (r.opIndex + operations) % h.maxOps)
  }

  predicate Divides(h: Header, c: Cmd) {
    (c.Special? ==> h.lineRange > 0 && h.maxOps > 0) && (c.ConstAddPc? ==> h.lineRange > 0)
  }

  /** The registers just before the row of a row command is emitted, or after any other command. */
  function Update(h: Header, r: Regs, c: Cmd): Regs
    requires Divides(h, c)
  {
    match c
    case Special(op) => Advance(h, r, OperationAdvance(h, op)).(line := r.line + h.lineBase + (op - h.opcodeBase) % h.lineRange)
    case EndSequence => r.(endSequence := true, isStmt := false)
    case SetAddress(a) => r.(address := a)
    case DefineFile(_) => r
    case SetDiscriminator(d) => r.(discriminator := d)
    case UnknownExtended => r
    case CopyRow => r
    case AdvancePc(n) => r.(address := r.address + n * h.minLength)
    case AdvanceLine(n) => r.(line := r.line + n)
    case SetFile(n) => r.(file := n)
    case SetColumn(n) => r.(column := n)
    case NegateStmt => r.(isStmt := !r.isStmt)
    case SetBasicBlock => r.(basicBlock := true)
    case ConstAddPc => r.(address := r.address + (255 - h.opcodeBase) / h.lineRange * h.minLength)
    case FixedAdvancePc(n) => r.(address := r.address + n)
    case SetPrologueEnd => r.(prologueEnd := true)
    case SetEpilogueBegin => r.(epilogueBegin := true)
    case SetIsa(n) => r.(isa := n)
  }

  /** The registers after the command. */
  function After(h: Header, r: Regs, c: Cmd): Regs
    requires Divides(h, c)
  {
    if c.EndSequence? then Initial(h) else if IsRow(c) then Cleared(Update(h, r, c)) else Update(h, r, c)
  }

  /** The entry that a command adds, if any. */
  function Emitted(h: Header, r: Regs, c: Cmd): seq<Entry>
    requires Divides(h, c)
  {
    var u := Update(h, r, c);
    match c
    case Special(op) => [Entry(op, false, [u.line - r.line, u.address - r.address, u.opIndex], Some(u))]
    case EndSequence => [Entry(1, true, [], Some(u))]
    case SetAddress(a) => [Entry(2, true, [a], None)]
    case DefineFile(_) => [Entry(3, true, [], None)]
    case SetDiscriminator(_) => []
    case UnknownExtended => []
    case CopyRow => [Entry(1, false, [], Some(u))]
    case AdvancePc(_) => [Entry(2, false, [u.address - r.address], None)]
    case AdvanceLine(_) => []
    case SetFile(n) => [Entry(4, false, [n], None)]
    case SetColumn(n) => [Entry(5, false, [n], None)]
    case NegateStmt => [Entry(6, false, [], None)]
    case SetBasicBlock => [Entry(7, false, [], None)]
    case ConstAddPc => [Entry(8, false, [u.address - r.address], None)]
    case FixedAdvancePc(n) => [Entry(9, false, [n], None)]
    case SetPrologueEnd => [Entry(10, false, [], None)]
    case SetEpilogueBegin => [Entry(11, false, [], None)]
    case SetIsa(n) => [Entry(12, false, [n], None)]
  }

  function Exec(h: Header, m: Machine, c: Cmd): Result<Machine, Error> {
    if !Divides(h, c) then Err(ZeroDivision)
    else Ok(Machine(After(h, m.regs, c), m.entries + Emitted(h, m.regs, c), if c.DefineFile? then m.files + [c.file] else m.files))
  }

  function Start(h: Header): Machine { Machine(Initial(h), [], []) }

  function Run(h: Header, m: Machine, cmds: seq<Cmd>): Result<Machine, Error> {
    if cmds == [] then Ok(m)
    else match Run(h, m, cmds[..|cmds| - 1])
      case Ok(m') => Exec(h, m', cmds[|cmds| - 1])
      case Err(e) => Err(e)
  }

  // ----- op_index and address -----

  predicate InRange(h: Header, r: Regs) { 0 <= r.opIndex < h.maxOps }

  predicate RowsInRange(h: Header, entries: seq<Entry>) {
    forall i :: 0 <= i < |entries| && entries[i].state.Some? ==> InRange(h, entries[i].state.value)
  }

  lemma OpIndexStep(h: Header, r: Regs, c: Cmd)
    requires InRange(h, r) && Divides(h, c)
    ensures InRange(h, After(h, r, c)) && RowsInRange(h, Emitted(h, r, c))
  {
    assert InRange(h, Update(h, r, c));
  }

  /** On every line program op_index stays below maximum_operations_per_instruction, in the registers
      and in every row. */
  lemma {:induction false} OpIndexInRange(h: Header, cmds: seq<Cmd>)
    requires h.maxOps > 0 && Run(h, Start(h), cmds).Ok?
    ensures InRange(h, Run(h, Start(h), cmds).value.regs) && RowsInRange(h, Run(h, Start(h), cmds).value.entries)
    decreases |cmds|
  {
    if cmds != [] {
      OpIndexInRange(h, cmds[..|cmds| - 1]);
      var m, c := Run(h, Start(h), cmds[..|cmds| - 1]).value, cmds[|cmds| - 1];
      OpIndexStep(h, m.regs, c);
    }
  }

  function TotalAdvance(h: Header, opcodes: seq<nat>): int
    requires h.lineRange > 0
  {
    if opcodes == [] then 0
    else TotalAdvance(h, opcodes[..|opcodes| - 1]) + OperationAdvance(h, opcodes[|opcodes| - 1])
  }

  function Specials(opcodes: seq<nat>): (r: seq<Cmd>)
    ensures |r| == |opcodes| && forall i :: 0 <= i < |r| ==> r[i] == Special(opcodes[i])
  {
    seq(|opcodes|, i requires 0 <= i < |opcodes| => Special(opcodes[i]))
  }

  lemma DivModTwice(a: int, b: int, d: int)
    requires d > 0
    ensures (a + b) / d == a / d + (a % d + b) / d && (a + b) % d == (a % d + b) % d
  {
    var q, r := a / d, a % d;
    assert a == q * d + r;
    var x := r + b;
    assert a + b == q * d + x;
    var q', r' := x / d, x % d;
    assert x == q' * d + r';
    assert a + b == (q + q') * d + r';
    DivModUnique(a + b, d, q + q', r');
  }

  /** Two advances in a row are the advance by their sum. */
  lemma AdvanceTwice(h: Header, r: Regs, a: int, b: int)
    requires h.maxOps > 0
    ensures Advance(h, Advance(h, r, a), b) == Advance(h, r, a + b)
  {
    var n := r.opIndex + a;
    DivModTwice(n, b, h.maxOps);
    var x, y := n / h.maxOps, (n % h.maxOps + b) / h.maxOps;
    assert h.minLength * (x + y) == h.minLength * x + h.minLength * y;
  }

  predicate SamePlace(u: Regs, r: Regs) { u.address == r.address && u.opIndex == r.opIndex }

  lemma SpecialStep(h: Header, r: Regs, op: nat)
    requires h.lineRange > 0 && h.maxOps > 0
    ensures SamePlace(After(h, r, Special(op)), Advance(h, r, OperationAdvance(h, op)))
  {
  }

  lemma AdvancePlace(h: Header, r: Regs, s: Regs, n: int)
    requires h.maxOps > 0 && SamePlace(r, s)
    ensures SamePlace(Advance(h, r, n), Advance(h, s, n))
  {
  }

  /** Any run of special opcodes moves address and op_index as one division with remainder of the
      summed operation advances: nothing is lost or counted twice along the way. */
  lemma {:induction false} SpecialsAddUp(h: Header, m: Machine, opcodes: seq<nat>)
    requires h.lineRange > 0 && h.maxOps > 0 && InRange(h, m.regs)
    ensures Run(h, m, Specials(opcodes)).Ok?
    ensures SamePlace(Run(h, m, Specials(opcodes)).value.regs, Advance(h, m.regs, TotalAdvance(h, opcodes)))
    decreases |opcodes|
  {
    if opcodes == [] {
      DivModUnique(m.regs.opIndex, h.maxOps, 0, m.regs.opIndex);
    } else {
      var before, op := opcodes[..|opcodes| - 1], opcodes[|opcodes| - 1];
      assert Specials(opcodes)[..|opcodes| - 1] == Specials(before);
      SpecialsAddUp(h, m, before);
      var r, n := Run(h, m, Specials(before)).value.regs, OperationAdvance(h, op);
      SpecialStep(h, r, op);
      AdvancePlace(h, r, Advance(h, m.regs, TotalAdvance(h, before)), n);
      AdvanceTwice(h, m.regs, TotalAdvance(h, before), n);
    }
  }

  // ----- rows -----

  /** How many commands precede the stretch since the last row. */
  function RowStart(cmds: seq<Cmd>): (n: nat)
    ensures n <= |cmds|
  {
    if cmds == [] then 0 else if IsRow(cmds[|cmds| - 1]) then |cmds| else RowStart(cmds[..|cmds| - 1])
  }

  /** The command `f` was given since the last row. */
  ghost predicate SinceRow(cmds: seq<Cmd>, f: Cmd) {
    exists i :: RowStart(cmds) <= i < |cmds| && cmds[i] == f
  }

  /** The discriminator set last since the last row. */
  function LastDiscriminator(cmds: seq<Cmd>): int {
    if cmds == [] || IsRow(cmds[|cmds| - 1]) then 0
    else if cmds[|cmds| - 1].SetDiscriminator? then cmds[|cmds| - 1].discriminator
    else LastDiscriminator(cmds[..|cmds| - 1])
  }

  lemma SinceRowSnoc(before: seq<Cmd>, c: Cmd, f: Cmd)
    ensures SinceRow(before + [c], f) <==> !IsRow(c) && (c == f || SinceRow(before, f))
  {
    var cmds := before + [c];
    assert cmds[..|before|] == before;
    if !IsRow(c) {
      assert RowStart(cmds) == RowStart(before);
      if SinceRow(before, f) {
        var i :| RowStart(before) <= i < |before| && before[i] == f;
        assert cmds[i] == f;
      }
      if c == f { assert cmds[|before|] == f; }
    }
  }

  /** The registers that a row clears hold exactly what was set since the last row, and end_sequence is
      never left set. */
  ghost predicate FlagsSinceRow(cmds: seq<Cmd>, r: Regs) {
    && (r.basicBlock <==> SinceRow(cmds, SetBasicBlock))
    && (r.prologueEnd <==> SinceRow(cmds, SetPrologueEnd))
    && (r.epilogueBegin <==> SinceRow(cmds, SetEpilogueBegin))
    && r.discriminator == LastDiscriminator(cmds)
  }

  lemma FlagsStep(h: Header, r: Regs, c: Cmd)
    requires Divides(h, c) && !r.endSequence
    ensures var u, a := Update(h, r, c), After(h, r, c);
      && (a.basicBlock <==> !IsRow(c) && (c == SetBasicBlock || r.basicBlock))
      && (a.prologueEnd <==> !IsRow(c) && (c == SetPrologueEnd || r.prologueEnd))
      && (a.epilogueBegin <==> !IsRow(c) && (c == SetEpilogueBegin || r.epilogueBegin))
      && a.discriminator == (if IsRow(c) then 0 else if c.SetDiscriminator? then c.discriminator else r.discriminator)
      && !a.endSequence && (u.endSequence <==> c.EndSequence?)
      && (IsRow(c) ==> SameFlags(u, r))
  {
    match c
    case Special(op) => assert SameFlags(Advance(h, r, OperationAdvance(h, op)), r);
    case _ =>
  }

  predicate SameFlags(u: Regs, r: Regs) {
    && u.basicBlock == r.basicBlock && u.prologueEnd == r.prologueEnd
    && u.epilogueBegin == r.epilogueBegin && u.discriminator == r.discriminator
  }

  lemma FlagsSnoc(before: seq<Cmd>, c: Cmd, r: Regs, a: Regs)
    requires FlagsSinceRow(before, r)
    requires a.basicBlock <==> !IsRow(c) && (c == SetBasicBlock || r.basicBlock)
    requires a.prologueEnd <==> !IsRow(c) && (c == SetPrologueEnd || r.prologueEnd)
    requires a.epilogueBegin <==> !IsRow(c) && (c == SetEpilogueBegin || r.epilogueBegin)
    requires a.discriminator == if IsRow(c) then 0 else if c.SetDiscriminator? then c.discriminator else r.discriminator
    ensures FlagsSinceRow(before + [c], a)
  {
    SinceRowSnoc(before, c, SetBasicBlock);
    SinceRowSnoc(before, c, SetPrologueEnd);
    SinceRowSnoc(before, c, SetEpilogueBegin);
    assert (before + [c])[..|before|] == before;
  }

  lemma {:induction false} FlagsDuringRun(h: Header, cmds: seq<Cmd>)
    requires Run(h, Start(h), cmds).Ok?
    ensures FlagsSinceRow(cmds, Run(h, Start(h), cmds).value.regs) && !Run(h, Start(h), cmds).value.regs.endSequence
    decreases |cmds|
  {
    if cmds != [] {
      var before, c := cmds[..|cmds| - 1], cmds[|cmds| - 1];
      assert cmds == before + [c];
      FlagsDuringRun(h, before);
      var r := Run(h, Start(h), before).value.regs;
      FlagsStep(h, r, c);
      FlagsSnoc(before, c, r, After(h, r, c));
    }
  }

  /** Entries are only ever appended. */
  lemma {:induction false} EntriesGrow(h: Header, cmds: seq<Cmd>, j: nat)
    requires j <= |cmds| && Run(h, Start(h), cmds).Ok?
    ensures Run(h, Start(h), cmds[..j]).Ok? && Run(h, Start(h), cmds[..j]).value.entries <= Run(h, Start(h), cmds).value.entries
    decreases |cmds|
  {
    if j < |cmds| {
      var before := cmds[..|cmds| - 1];
      assert before[..j] == cmds[..j];
      EntriesGrow(h, before, j);
    } else {
      assert cmds[..j] == cmds;
    }
  }

  /** In every run, the row of row command `j` is entry number |entries before it| for good; its flags
      and discriminator are those set by the commands since the row before it, and it is marked
      end_sequence exactly when the command is one. */
  lemma RowFlags(h: Header, cmds: seq<Cmd>, j: nat)
    requires j < |cmds| && IsRow(cmds[j]) && Run(h, Start(h), cmds).Ok?
    ensures Run(h, Start(h), cmds[..j]).Ok?
    ensures var n := |Run(h, Start(h), cmds[..j]).value.entries|;
      var entries := Run(h, Start(h), cmds).value.entries;
      && n < |entries| && entries[n].state.Some?
      && FlagsSinceRow(cmds[..j], entries[n].state.value)
      && (entries[n].state.value.endSequence <==> cmds[j].EndSequence?)
  {
    EntriesGrow(h, cmds, j);
    EntriesGrow(h, cmds, j + 1);
    assert cmds[..j + 1][..j] == cmds[..j];
    FlagsDuringRun(h, cmds[..j]);
    FlagsStep(h, Run(h, Start(h), cmds[..j]).value.regs, cmds[j]);
  }

  /** Every row has its command. */
  lemma {:induction false} RowCommand(h: Header, cmds: seq<Cmd>, i: nat) returns (j: nat)
    requires Run(h, Start(h), cmds).Ok? && i < |Run(h, Start(h), cmds).value.entries|
    requires Run(h, Start(h), cmds).value.entries[i].state.Some?
    ensures j < |cmds| && IsRow(cmds[j]) && Run(h, Start(h), cmds[..j]).Ok?
    ensures i == |Run(h, Start(h), cmds[..j]).value.entries|
    decreases |cmds|
  {
    var before, c := cmds[..|cmds| - 1], cmds[|cmds| - 1];
    var m := Run(h, Start(h), before).value;
    if i < |m.entries| {
      j := RowCommand(h, before, i);
      assert before[..j] == cmds[..j];
    } else {
      j := |cmds| - 1;
      OneEntry(h, m.regs, c);
    }
  }

  lemma OneEntry(h: Header, r: Regs, c: Cmd)
    requires Divides(h, c)
    ensures |Emitted(h, r, c)| <= 1
    ensures |Emitted(h, r, c)| == 1 && Emitted(h, r, c)[0].state.Some? ==> IsRow(c)
  {
  }
}
