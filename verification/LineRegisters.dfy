/** What the line number machine's registers are worth: each one as a sum over, or the last of, the commands since
    the last end_sequence, and with them every entry that a program gives. */
module LineRegisters {
  import opened Common
  import opened LineTable

  /** The commands since the last end_sequence. */
  function Since(cmds: seq<Cmd>): seq<Cmd> {
    if cmds == [] || cmds[|cmds| - 1].EndSequence? then [] else Since(cmds[..|cmds| - 1]) + [cmds[|cmds| - 1]]
  }

  lemma {:induction false} SinceIsSuffix(cmds: seq<Cmd>) returns (a: seq<Cmd>)
    ensures cmds == a + Since(cmds) && (a == [] || a[|a| - 1] == EndSequence) && EndSequence !in Since(cmds)
    decreases |cmds|
  {
    if cmds == [] || cmds[|cmds| - 1].EndSequence? {
      a := cmds;
    } else {
      a := SinceIsSuffix(cmds[..|cmds| - 1]);
      assert cmds == cmds[..|cmds| - 1] + [cmds[|cmds| - 1]];
    }
  }

  function Sum(f: Cmd -> int, s: seq<Cmd>): int {
    if s == [] then 0 else Sum(f, s[..|s| - 1]) + f(s[|s| - 1])
  }

  /** The last value that `f` has on the commands. */
  function Last(f: Cmd -> Option<int>, s: seq<Cmd>, initially: int): int {
    if s == [] then initially
    else match f(s[|s| - 1])
      case Some(v) => v
      case None => Last(f, s[..|s| - 1], initially)
  }

  // ----- what each command contributes -----

  function Quotient(n: int, d: nat): int { if d == 0 then 0 else n / d }

  function Remainder(n: int, d: nat): int { if d == 0 then 0 else n % d }

  function LinesBy(h: Header): Cmd -> int {
    (c: Cmd) =>
      if c.AdvanceLine? then c.delta
      else if c.Special? then h.lineBase + Remainder(c.opcode - h.opcodeBase, h.lineRange)
      else 0
  }

  /** Section 6.2.5.1 of DWARF v4: the operation advance of a special opcode. */
  function OperationsBy(h: Header): Cmd -> int {
    (c: Cmd) => if c.Special? then Quotient(c.opcode - h.opcodeBase, h.lineRange) else 0
  }

  /** How far a command other than a special opcode moves the address. */
  function MovesBy(h: Header): Cmd -> int {
    (c: Cmd) =>
      if c.AdvancePc? then c.operand * h.minLength
      else if c.ConstAddPc? then Quotient(255 - h.opcodeBase, h.lineRange) * h.minLength
      else if c.FixedAdvancePc? then c.bytes
      else 0
  }

  function NegationsBy(): Cmd -> int { (c: Cmd) => if c.NegateStmt? then 1 else 0 }

  function FileOf(): Cmd -> Option<int> { (c: Cmd) => if c.SetFile? then Some(c.operand) else None }

  function ColumnOf(): Cmd -> Option<int> { (c: Cmd) => if c.SetColumn? then Some(c.operand) else None }

  function IsaOf(): Cmd -> Option<int> { (c: Cmd) => if c.SetIsa? then Some(c.operand) else None }

  // ----- the registers after the commands `s` of a sequence -----

  function LineAfter(h: Header, s: seq<Cmd>): int { 1 + Sum(LinesBy(h), s) }

  function Operations(h: Header, s: seq<Cmd>): int { Sum(OperationsBy(h), s) }

  /** Full instructions passed. */
  function Instructions(h: Header, s: seq<Cmd>): int { Quotient(Operations(h, s), h.maxOps) }

  /** Where the address was last given: behind the last set_address. */
  function BaseAt(s: seq<Cmd>): (p: nat)
    ensures p <= |s| && (p > 0 ==> s[p - 1].SetAddress?) && forall i :: p <= i < |s| ==> !s[i].SetAddress?
  {
    if s == [] || s[|s| - 1].SetAddress? then |s| else BaseAt(s[..|s| - 1])
  }

  /** What special opcodes have added to the address: whole instructions, each `minLength` bytes. */
  function Flow(h: Header): seq<Cmd> -> int {
    (s: seq<Cmd>) => h.minLength * Instructions(h, s)
  }

  /** The address last given, plus the moves since, plus what the special opcodes added since. */
  function AddressOver(moves: Cmd -> int, flow: seq<Cmd> -> int, s: seq<Cmd>): int {
    var p := BaseAt(s);
    (if p == 0 then 0 else s[p - 1].address) + Sum(moves, s[p..]) + flow(s) - flow(s[..p])
  }

  function AddressAfter(h: Header, s: seq<Cmd>): int { AddressOver(MovesBy(h), Flow(h), s) }

  /** The registers that last for a sequence, is_stmt apart. */
  datatype Kept = Kept(line: int, address: int, opIndex: int, file: int, column: int, isa: int)

  function KeptIn(r: Regs): Kept { Kept(r.line, r.address, r.opIndex, r.file, r.column, r.isa) }

  function KeptAfter(h: Header, s: seq<Cmd>): Kept {
    Kept(LineAfter(h, s), AddressAfter(h, s), Remainder(Operations(h, s), h.maxOps), Last(FileOf(), s, 1), Last(ColumnOf(), s, 0), Last(IsaOf(), s, 0))
  }

  ghost predicate StmtAfter(h: Header, s: seq<Cmd>, isStmt: bool) {
    isStmt <==> h.defaultIsStmt == (Sum(NegationsBy(), s) % 2 == 0)
  }

  // ----- one more command -----

  lemma SumSnoc(f: Cmd -> int, s: seq<Cmd>, c: Cmd)
    ensures Sum(f, s + [c]) == Sum(f, s) + f(c)
  {
    assert (s + [c])[..|s|] == s;
  }

  lemma LastSnoc(f: Cmd -> Option<int>, s: seq<Cmd>, c: Cmd, initially: int)
    ensures Last(f, s + [c], initially) == match f(c) case Some(v) => v case None => Last(f, s, initially)
  {
    assert (s + [c])[..|s|] == s;
  }

  lemma LineStep(h: Header, s: seq<Cmd>, r: Regs, c: Cmd)
    requires Divides(h, c) && r.line == LineAfter(h, s)
    ensures Update(h, r, c).line == LineAfter(h, s + [c])
  {
    SumSnoc(LinesBy(h), s, c);
  }

  lemma FileStep(h: Header, s: seq<Cmd>, r: Regs, c: Cmd)
    requires Divides(h, c) && r.file == Last(FileOf(), s, 1)
    ensures Update(h, r, c).file == Last(FileOf(), s + [c], 1)
  {
    LastSnoc(FileOf(), s, c, 1);
  }

  lemma ColumnStep(h: Header, s: seq<Cmd>, r: Regs, c: Cmd)
    requires Divides(h, c) && r.column == Last(ColumnOf(), s, 0)
    ensures Update(h, r, c).column == Last(ColumnOf(), s + [c], 0)
  {
    LastSnoc(ColumnOf(), s, c, 0);
  }

  lemma IsaStep(h: Header, s: seq<Cmd>, r: Regs, c: Cmd)
    requires Divides(h, c) && r.isa == Last(IsaOf(), s, 0)
    ensures Update(h, r, c).isa == Last(IsaOf(), s + [c], 0)
  {
    LastSnoc(IsaOf(), s, c, 0);
  }

  lemma StmtStep(h: Header, s: seq<Cmd>, r: Regs, c: Cmd)
    requires Divides(h, c) && StmtAfter(h, s, r.isStmt) && !c.EndSequence?
    ensures StmtAfter(h, s + [c], Update(h, r, c).isStmt)
  {
    SumSnoc(NegationsBy(), s, c);
  }

  lemma BaseSnoc(s: seq<Cmd>, c: Cmd)
    ensures BaseAt(s + [c]) == if c.SetAddress? then |s| + 1 else BaseAt(s)
  {
    assert (s + [c])[..|s|] == s;
  }

  lemma AddressSnoc(moves: Cmd -> int, flow: seq<Cmd> -> int, s: seq<Cmd>, c: Cmd)
    ensures !c.SetAddress? ==> AddressOver(moves, flow, s + [c]) == AddressOver(moves, flow, s) + moves(c) + flow(s + [c]) - flow(s)
    ensures c.SetAddress? ==> AddressOver(moves, flow, s + [c]) == c.address
  {
    var p, t := BaseAt(s), s + [c];
    BaseSnoc(s, c);
    if c.SetAddress? {
      AddressGiven(moves, flow, t, |t|);
    } else {
      AddressMoved(moves, flow, s, c, t, p);
    }
  }

  lemma AddressGiven(moves: Cmd -> int, flow: seq<Cmd> -> int, t: seq<Cmd>, p: nat)
    requires 0 < p == |t| == BaseAt(t)
    ensures AddressOver(moves, flow, t) == t[p - 1].address
  {
    assert t[p..] == [] && t[..p] == t;
  }

  lemma AddressParts(moves: Cmd -> int, flow: seq<Cmd> -> int, s: seq<Cmd>, head: seq<Cmd>, since: seq<Cmd>)
    requires s == head + since && |head| == BaseAt(s)
    ensures AddressOver(moves, flow, s) == (if head == [] then 0 else head[|head| - 1].address) + Sum(moves, since) + flow(s) - flow(head)
  {
    assert s[..|head|] == head && s[|head|..] == since;
  }

  lemma AddressMoved(moves: Cmd -> int, flow: seq<Cmd> -> int, s: seq<Cmd>, c: Cmd, t: seq<Cmd>, p: nat)
    requires t == s + [c] && p == BaseAt(s) == BaseAt(t)
    ensures AddressOver(moves, flow, t) == AddressOver(moves, flow, s) + moves(c) + flow(t) - flow(s)
  {
    var head, since := s[..p], s[p..];
    AddressParts(moves, flow, s, head, since);
    assert t == head + (since + [c]);
    AddressParts(moves, flow, t, head, since + [c]);
    SumSnoc(moves, since, c);
  }

  /** The place in the code: address and op_index. */
  predicate Placed(h: Header, s: seq<Cmd>, address: int, opIndex: int) {
    address == AddressAfter(h, s) && opIndex == Remainder(Operations(h, s), h.maxOps)
  }

  lemma SpecialFlow(h: Header, s: seq<Cmd>, t: seq<Cmd>, n: int, k: int)
    requires h.maxOps > 0 && n == Operations(h, s) && n + k == Operations(h, t)
    ensures Flow(h)(t) - Flow(h)(s) == h.minLength * ((n % h.maxOps + k) / h.maxOps)
    ensures Remainder(Operations(h, t), h.maxOps) == (n % h.maxOps + k) % h.maxOps
  {
    DivModTwice(n, k, h.maxOps);
    Distribute(h.minLength, n / h.maxOps, (n % h.maxOps + k) / h.maxOps);
  }

  lemma Distribute(m: int, x: int, y: int)
    ensures m * (x + y) - m * x == m * y
  {
  }

  lemma SpecialPlace(h: Header, s: seq<Cmd>, r: Regs, c: Cmd, u: Regs)
    requires Divides(h, c) && c.Special? && Placed(h, s, r.address, r.opIndex) && u == Update(h, r, c)
    ensures Placed(h, s + [c], u.address, u.opIndex)
  {
    var k := OperationsBy(h)(c);
    SumSnoc(OperationsBy(h), s, c);
    AddressSnoc(MovesBy(h), Flow(h), s, c);
    SpecialFlow(h, s, s + [c], Operations(h, s), k);
    SpecialUpdate(h, r, c, k);
  }

  lemma SpecialUpdate(h: Header, r: Regs, c: Cmd, k: int)
    requires Divides(h, c) && c.Special? && k == OperationsBy(h)(c)
    ensures Update(h, r, c).address == r.address + h.minLength * ((r.opIndex + k) / h.maxOps)
    ensures Update(h, r, c).opIndex == (r.opIndex + k) % h.maxOps && MovesBy(h)(c) == 0
  {
  }

  lemma PlainPlace(h: Header, s: seq<Cmd>, r: Regs, c: Cmd, u: Regs)
    requires Divides(h, c) && !c.Special? && Placed(h, s, r.address, r.opIndex) && u == Update(h, r, c)
    ensures Placed(h, s + [c], u.address, u.opIndex)
  {
    SumSnoc(OperationsBy(h), s, c);
    AddressSnoc(MovesBy(h), Flow(h), s, c);
    PlainUpdate(h, r, c);
    assert OperationsBy(h)(c) == 0;
  }

  predicate Moves(c: Cmd) { c.SetAddress? || c.AdvancePc? || c.ConstAddPc? || c.FixedAdvancePc? }

  lemma PlainUpdate(h: Header, r: Regs, c: Cmd)
    requires Divides(h, c) && !c.Special?
    ensures Update(h, r, c).opIndex == r.opIndex
    ensures Update(h, r, c).address == if c.SetAddress? then c.address else r.address + MovesBy(h)(c)
  {
    if Moves(c) { MovingUpdate(h, r, c); } else { RestingUpdate(h, r, c); }
  }

  lemma MovingUpdate(h: Header, r: Regs, c: Cmd)
    requires Divides(h, c) && Moves(c)
    ensures Update(h, r, c).opIndex == r.opIndex
    ensures Update(h, r, c).address == if c.SetAddress? then c.address else r.address + MovesBy(h)(c)
  {
  }

  lemma RestingUpdate(h: Header, r: Regs, c: Cmd)
    requires Divides(h, c) && !c.Special? && !Moves(c)
    ensures Update(h, r, c).opIndex == r.opIndex && Update(h, r, c).address == r.address && MovesBy(h)(c) == 0
  {
  }

  lemma LastingStep(h: Header, s: seq<Cmd>, r: Regs, c: Cmd)
    requires Divides(h, c) && KeptIn(r) == KeptAfter(h, s)
    ensures KeptIn(Update(h, r, c)) == KeptAfter(h, s + [c])
  {
    LineStep(h, s, r, c);
    FileStep(h, s, r, c);
    ColumnStep(h, s, r, c);
    IsaStep(h, s, r, c);
    if c.Special? { SpecialPlace(h, s, r, c, Update(h, r, c)); } else { PlainPlace(h, s, r, c, Update(h, r, c)); }
  }

  /** Between any two commands of any program the registers are what the commands since the last end_sequence say. */
  lemma {:induction false} RegistersDuringRun(h: Header, cmds: seq<Cmd>)
    requires Run(h, Start(h), cmds).Ok?
    ensures var r := Run(h, Start(h), cmds).value.regs; KeptIn(r) == KeptAfter(h, Since(cmds)) && StmtAfter(h, Since(cmds), r.isStmt)
    decreases |cmds|
  {
    var r := Run(h, Start(h), cmds).value.regs;
    if cmds == [] || cmds[|cmds| - 1].EndSequence? {
      assert r == Initial(h);
      InitialRight(h);
    } else {
      var before, c := cmds[..|cmds| - 1], cmds[|cmds| - 1];
      RegistersDuringRun(h, before);
      var b := Run(h, Start(h), before).value.regs;
      LastingStep(h, Since(before), b, c);
      StmtStep(h, Since(before), b, c);
    }
  }

  lemma InitialRight(h: Header)
    ensures KeptIn(Initial(h)) == KeptAfter(h, []) && StmtAfter(h, [], h.defaultIsStmt)
  {
    if h.maxOps > 0 { DivModUnique(0, h.maxOps, 0, 0); }
  }

  // ----- entries -----

  /** The commands that leave an entry. */
  predicate Emits(c: Cmd) { !c.AdvanceLine? && !c.SetDiscriminator? && !c.UnknownExtended? }

  function EntriesBefore(cmds: seq<Cmd>): nat {
    if cmds == [] then 0 else EntriesBefore(cmds[..|cmds| - 1]) + if Emits(cmds[|cmds| - 1]) then 1 else 0
  }

  /** The opcode that an entry shows, and whether it is an extended one. */
  function OpcodeOf(c: Cmd): nat {
    match c
    case Special(op) => op
    case EndSequence => 1
    case SetAddress(_) => 2
    case DefineFile(_) => 3
    case CopyRow => 1
    case AdvancePc(_) => 2
    case SetFile(_) => 4
    case SetColumn(_) => 5
    case NegateStmt => 6
    case SetBasicBlock => 7
    case ConstAddPc => 8
    case FixedAdvancePc(_) => 9
    case SetPrologueEnd => 10
    case SetEpilogueBegin => 11
    case SetIsa(_) => 12
    case _ => 0
  }

  predicate Extends(c: Cmd) { c.EndSequence? || c.SetAddress? || c.DefineFile? }

  /** What an entry shows besides a row: how far line and address moved, the new op_index, or the operand. */
  function ArgsOf(h: Header, before: seq<Cmd>, c: Cmd): seq<int> {
    match c
    case Special(_) =>
      [LinesBy(h)(c), Flow(h)(before + [c]) - Flow(h)(before), Remainder(Operations(h, before + [c]), h.maxOps)]
    case SetAddress(a) => [a]
    case AdvancePc(_) => [MovesBy(h)(c)]
    case ConstAddPc => [MovesBy(h)(c)]
    case FixedAdvancePc(n) => [n]
    case SetFile(n) => [n]
    case SetColumn(n) => [n]
    case SetIsa(n) => [n]
    case _ => []
  }

  /** The row of command `j`: the registers after the command, the flags set since the row before it, and on an
      end_sequence is_stmt false and end_sequence true. */
  ghost predicate RowOf(h: Header, cmds: seq<Cmd>, j: nat, row: Regs)
    requires j < |cmds|
  {
    && KeptIn(row) == KeptAfter(h, Since(cmds[..j]) + [cmds[j]])
    && (if cmds[j].EndSequence? then !row.isStmt else StmtAfter(h, Since(cmds[..j]), row.isStmt))
    && FlagsSinceRow(cmds[..j], row)
    && (row.endSequence <==> cmds[j].EndSequence?)
  }

  ghost predicate EntryOf(h: Header, cmds: seq<Cmd>, j: nat, e: Entry)
    requires j < |cmds|
  {
    && e.command == OpcodeOf(cmds[j]) && (e.isExtended <==> Extends(cmds[j]))
    && e.args == ArgsOf(h, Since(cmds[..j]), cmds[j])
    && (e.state.Some? <==> cmds[j].Special? || cmds[j].CopyRow? || cmds[j].EndSequence?)
    && (e.state.Some? ==> RowOf(h, cmds, j, e.state.value))
  }

  /** The entries are those of the commands that leave one, in order. */
  ghost predicate EntriesOf(h: Header, cmds: seq<Cmd>, entries: seq<Entry>) {
    && |entries| == EntriesBefore(cmds)
    && forall j {:trigger cmds[j]} :: 0 <= j < |cmds| && Emits(cmds[j]) ==>
         EntriesBefore(cmds[..j]) < |entries| && EntryOf(h, cmds, j, entries[EntriesBefore(cmds[..j])])
  }

  /** How many entries a command leaves, and whether with a row. */
  lemma EmittedShape(h: Header, r: Regs, c: Cmd)
    requires Divides(h, c)
    ensures |Emitted(h, r, c)| == if Emits(c) then 1 else 0
    ensures Emits(c) ==> Emitted(h, r, c)[0].state == if IsRow(c) then Some(Update(h, r, c)) else None
    ensures Emits(c) ==> Emitted(h, r, c)[0].command == OpcodeOf(c) && Emitted(h, r, c)[0].isExtended == Extends(c)
  {
  }

  lemma SpecialArgs(h: Header, r: Regs, c: Cmd, u: Regs)
    requires Divides(h, c) && c.Special? && u == Update(h, r, c)
    ensures |Emitted(h, r, c)| == 1 && Emitted(h, r, c)[0].args == [u.line - r.line, u.address - r.address, u.opIndex]
  {
  }

  lemma MovingArgs(h: Header, r: Regs, c: Cmd, before: seq<Cmd>)
    requires Divides(h, c) && Moves(c)
    ensures |Emitted(h, r, c)| == 1 && Emitted(h, r, c)[0].args == ArgsOf(h, before, c)
  {
    MovingUpdate(h, r, c);
  }

  lemma OtherArgs(h: Header, r: Regs, c: Cmd, before: seq<Cmd>)
    requires Divides(h, c) && Emits(c) && !c.Special? && !Moves(c)
    ensures |Emitted(h, r, c)| == 1 && Emitted(h, r, c)[0].args == ArgsOf(h, before, c)
  {
  }

  lemma SpecialDifference(h: Header, before: seq<Cmd>, r: Regs, c: Cmd, u: Regs)
    requires Divides(h, c) && c.Special? && KeptIn(r) == KeptAfter(h, before) && KeptIn(u) == KeptAfter(h, before + [c])
    ensures u.line - r.line == LinesBy(h)(c) && u.address - r.address == Flow(h)(before + [c]) - Flow(h)(before)
    ensures u.opIndex == Remainder(Operations(h, before + [c]), h.maxOps)
  {
    SumSnoc(LinesBy(h), before, c);
    AddressSnoc(MovesBy(h), Flow(h), before, c);
    assert MovesBy(h)(c) == 0;
  }

  lemma SpecialArgsRight(h: Header, before: seq<Cmd>, r: Regs, c: Cmd, u: Regs, args: seq<int>)
    requires Divides(h, c) && c.Special? && KeptIn(r) == KeptAfter(h, before) && KeptIn(u) == KeptAfter(h, before + [c])
    requires args == [u.line - r.line, u.address - r.address, u.opIndex]
    ensures args == ArgsOf(h, before, c)
  {
    SpecialDifference(h, before, r, c, u);
    SpecialArgsAre(h, before, c, args[0], args[1], args[2]);
  }

  lemma SpecialArgsAre(h: Header, before: seq<Cmd>, c: Cmd, lines: int, bytes: int, opIndex: int)
    requires c.Special? && lines == LinesBy(h)(c) && bytes == Flow(h)(before + [c]) - Flow(h)(before)
    requires opIndex == Remainder(Operations(h, before + [c]), h.maxOps)
    ensures ArgsOf(h, before, c) == [lines, bytes, opIndex]
  {
  }

  lemma PlainArgsRight(h: Header, before: seq<Cmd>, r: Regs, c: Cmd)
    requires Divides(h, c) && Emits(c) && !c.Special?
    ensures |Emitted(h, r, c)| == 1 && Emitted(h, r, c)[0].args == ArgsOf(h, before, c)
  {
    if Moves(c) { MovingArgs(h, r, c, before); } else { OtherArgs(h, r, c, before); }
  }

  lemma ArgsRight(h: Header, before: seq<Cmd>, r: Regs, c: Cmd, u: Regs, added: seq<Entry>)
    requires Divides(h, c) && Emits(c) && u == Update(h, r, c) && added == Emitted(h, r, c)
    requires KeptIn(r) == KeptAfter(h, before) && KeptIn(u) == KeptAfter(h, before + [c])
    ensures |added| == 1 && added[0].args == ArgsOf(h, before, c)
  {
    if c.Special? {
      SpecialArgs(h, r, c, u);
      SpecialArgsRight(h, before, r, c, u, added[0].args);
    } else {
      PlainArgsRight(h, before, r, c);
    }
  }

  lemma RowRight(h: Header, cmds: seq<Cmd>, j: nat, r: Regs)
    requires j < |cmds| && IsRow(cmds[j]) && Divides(h, cmds[j])
    requires FlagsSinceRow(cmds[..j], r) && !r.endSequence && StmtAfter(h, Since(cmds[..j]), r.isStmt)
    requires KeptIn(Update(h, r, cmds[j])) == KeptAfter(h, Since(cmds[..j]) + [cmds[j]])
    ensures RowOf(h, cmds, j, Update(h, r, cmds[j]))
  {
    FlagsStep(h, r, cmds[j]);
  }

  lemma EntryRight(h: Header, cmds: seq<Cmd>, j: nat, r: Regs)
    requires j < |cmds| && Emits(cmds[j]) && Divides(h, cmds[j])
    requires FlagsSinceRow(cmds[..j], r) && !r.endSequence && StmtAfter(h, Since(cmds[..j]), r.isStmt) && KeptIn(r) == KeptAfter(h, Since(cmds[..j]))
    ensures |Emitted(h, r, cmds[j])| == 1 && EntryOf(h, cmds, j, Emitted(h, r, cmds[j])[0])
  {
    var s, c := Since(cmds[..j]), cmds[j];
    LastingStep(h, s, r, c);
    ArgsRight(h, s, r, c, Update(h, r, c), Emitted(h, r, c));
    EmittedShape(h, r, c);
    if IsRow(c) { RowRight(h, cmds, j, r); }
  }

  lemma EntryDuringRun(h: Header, cmds: seq<Cmd>, before: seq<Cmd>, j: nat, r: Regs)
    requires j < |cmds| && before == cmds[..j] && Divides(h, cmds[j])
    requires Run(h, Start(h), before).Ok? && r == Run(h, Start(h), before).value.regs
    ensures |Emitted(h, r, cmds[j])| == if Emits(cmds[j]) then 1 else 0
    ensures Emits(cmds[j]) ==> EntryOf(h, cmds, j, Emitted(h, r, cmds[j])[0])
  {
    EmittedShape(h, r, cmds[j]);
    if Emits(cmds[j]) {
      RegistersDuringRun(h, before);
      FlagsDuringRun(h, before);
      EntryRight(h, cmds, j, r);
    }
  }

  /** In every run, each command that leaves an entry has its own, with the operands and the row it should have. */
  lemma {:induction false} EntriesDuringRun(h: Header, cmds: seq<Cmd>)
    requires Run(h, Start(h), cmds).Ok?
    ensures EntriesOf(h, cmds, Run(h, Start(h), cmds).value.entries)
    decreases |cmds|
  {
    if cmds != [] {
      var j := |cmds| - 1;
      var before := cmds[..j];
      EntriesDuringRun(h, before);
      var m := Run(h, Start(h), before).value;
      EntryDuringRun(h, cmds, before, j, m.regs);
      EntriesSnoc(h, before, cmds, cmds[j], m.entries, Emitted(h, m.regs, cmds[j]), j);
    }
  }

  lemma EarlierEntry(h: Header, before: seq<Cmd>, cmds: seq<Cmd>, j: nat, e: Entry)
    requires j < |before| <= |cmds| && cmds[..j] == before[..j] && cmds[j] == before[j] && EntryOf(h, before, j, e)
    ensures EntryOf(h, cmds, j, e)
  {
  }

  lemma EntriesSnoc(h: Header, before: seq<Cmd>, cmds: seq<Cmd>, c: Cmd, entries: seq<Entry>, added: seq<Entry>, last: nat)
    requires cmds == before + [c] && last == |before| == |cmds| - 1 && before == cmds[..last] && EntriesOf(h, before, entries)
    requires |added| == (if Emits(c) then 1 else 0) && (Emits(c) ==> EntryOf(h, cmds, last, added[0]))
    ensures EntriesOf(h, cmds, entries + added)
  {
    forall j | 0 <= j < |cmds| && Emits(cmds[j])
      ensures EntriesBefore(cmds[..j]) < |entries + added| && EntryOf(h, cmds, j, (entries + added)[EntriesBefore(cmds[..j])])
    {
      if j < last {
        assert cmds[..j] == before[..j] && cmds[j] == before[j];
        EarlierEntry(h, before, cmds, j, entries[EntriesBefore(before[..j])]);
      }
    }
  }

  // ----- files -----

  function FilesDefined(cmds: seq<Cmd>): seq<FileEntry> {
    if cmds == [] then [] else (if cmds[0].DefineFile? then [cmds[0].file] else []) + FilesDefined(cmds[1..])
  }

  lemma {:induction false} FilesSnoc(cmds: seq<Cmd>, c: Cmd)
    ensures FilesDefined(cmds + [c]) == FilesDefined(cmds) + if c.DefineFile? then [c.file] else []
    decreases |cmds|
  {
    if cmds == [] {
      assert [c][1..] == [];
    } else {
      assert (cmds + [c])[0] == cmds[0] && (cmds + [c])[1..] == cmds[1..] + [c];
      FilesSnoc(cmds[1..], c);
    }
  }

  /** The files added are those of the define_file commands, first one first. */
  lemma {:induction false} FilesDuringRun(h: Header, cmds: seq<Cmd>)
    requires Run(h, Start(h), cmds).Ok?
    ensures Run(h, Start(h), cmds).value.files == FilesDefined(cmds)
    decreases |cmds|
  {
    if cmds != [] {
      var before, c := cmds[..|cmds| - 1], cmds[|cmds| - 1];
      assert cmds == before + [c];
      FilesDuringRun(h, before);
      FilesSnoc(before, c);
    }
  }

  // ----- an example -----

  /** advance_line 4 before the first copy gives a row of line 5. */
  lemma LineFive(h: Header, cmds: seq<Cmd>)
    requires cmds == [AdvanceLine(4), CopyRow]
    ensures Run(h, Start(h), cmds).Ok? && |Run(h, Start(h), cmds).value.entries| == 1
    ensures var e := Run(h, Start(h), cmds).value.entries[0];
      e.state == Some(Initial(h).(line := 5)) && e.command == 1 && !e.isExtended && e.args == []
  {
    var c, d := cmds[0], cmds[1];
    var m := Start(h).(regs := Initial(h).(line := 5));
    assert Exec(h, Start(h), c) == Ok(m) by { assert [] + Emitted(h, Initial(h), c) == [] && After(h, Initial(h), c) == m.regs; }
    assert cmds[..|cmds| - 1] == [c] && [c][..|[c]| - 1] == [];
    assert Run(h, Start(h), []) == Ok(Start(h)) && Run(h, Start(h), [c]) == Ok(m);
    assert Emitted(h, m.regs, d) == [Entry(1, false, [], Some(m.regs))];
  }
}
