/** Call frame decoding on the heap: lines and register orders are mutable objects, a CIE's decoded
    table is shared by all its FDEs, and only copies of its last line and of its order are modified. */
module CallFrame {
  import opened Common
  import T = CfiTable
  import opened CfiTable
  import opened CfiRules

  /** A line dictionary. */
  class Line {
    var pc: int
    var cfa: CfaRule
    var regs: map<nat, RegisterRule>

    constructor (row: Row)
      ensures ToRow() == row
    {
      pc, cfa, regs := row.pc, row.cfa, row.regs;
    }

    /** The value the dictionary holds now; `new Line(l.ToRow())` is `copy.copy(l)`. */
    function ToRow(): Row
      reads this
    {
      Row(pc, cfa, regs)
    }
  }

  /** A `reg_order` list. */
  class RegOrder {
    var items: seq<nat>

    constructor (items: seq<nat>)
      ensures this.items == items
    {
      this.items := items;
    }
  }

  /** The named tuple handed out by `get_decoded`. */
  class DecodedTable {
    const table: seq<Line>
    const order: RegOrder

    constructor (table: seq<Line>, order: RegOrder)
      ensures this.table == table && this.order == order
    {
      this.table, this.order := table, order;
    }
  }

  ghost function Rows(lines: seq<Line>): (r: seq<Row>)
    reads lines
    ensures |r| == |lines| && forall i :: 0 <= i < |lines| ==> r[i] == lines[i].ToRow()
  {
    seq(|lines|, i requires 0 <= i < |lines| reads lines => lines[i].ToRow())
  }

  ghost function Snapshot(d: DecodedTable): Decoded
    reads d.table, d.order
  {
    Decoded(Rows(d.table), d.order.items)
  }

  ghost function LinesOf(d: DecodedTable?): seq<Line> {
    if d == null then [] else d.table
  }

  ghost function OrderOf(d: DecodedTable?): set<RegOrder> {
    if d == null then {} else {d.order}
  }

  /** The local variables of `_decode_CFI_table`. */
  class Decoder {
    const isFde: bool
    const base: Line?  // last_line_in_CIE
    const codeFactor: int
    const dataFactor: int
    const order: RegOrder
    var curLine: Line
    var table: seq<Line>
    var stack: seq<Line>
    ghost var mine: set<Line>

    constructor (isFde: bool, base: Line?, codeFactor: int, dataFactor: int, curLine: Line, order: RegOrder)
      requires base != curLine
      ensures Valid() && mine == {curLine} && this.base == base && this.order == order
      ensures this.isFde == isFde && this.codeFactor == codeFactor && this.dataFactor == dataFactor
      ensures this.curLine == curLine && table == [] && stack == []
    {
      this.isFde, this.base, this.codeFactor, this.dataFactor := isFde, base, codeFactor, dataFactor;
      this.curLine, this.order := curLine, order;
      table, stack, mine := [], [], {curLine};
    }

    ghost function K(): Config
      reads this, base
    {
      Config(isFde, if base == null then None else Some(base.ToRow()), codeFactor, dataFactor)
    }

    /** No line is reachable in two roles, so a write to the current line is seen nowhere else. */
    ghost predicate Valid()
      reads this
    {
      && curLine in mine && base !in mine
      && (forall l :: l in table ==> l in mine && l != curLine)
      && (forall l :: l in stack ==> l in mine && l != curLine && l !in table)
      && (forall i, j :: 0 <= i < j < |stack| ==> stack[i] != stack[j])
    }

    ghost function State(): Machine
      reads this, curLine, table, stack, order
    {
      Machine(curLine.ToRow(), Rows(table), Rows(stack), order.items)
    }

    method AddToOrder(reg: nat)
      requires Valid()
      modifies order
      ensures State() == old(State()).(order := T.AddToOrder(old(order.items), reg))
    {
      if reg !in order.items { order.items := order.items + [reg]; }
    }

    /** An update of the current line in place. */
    method Write(row: Row)
      requires Valid()
      modifies curLine
      ensures State() == old(State()).(row := row) && K() == old(K())
    {
      curLine.pc, curLine.cfa, curLine.regs := row.pc, row.cfa, row.regs;
    }

    /** `table.append(copy.copy(cur_line))` */
    method Emit()
      requires Valid()
      modifies `table, `mine
      ensures Valid() && fresh(mine - old(mine)) && old(mine) <= mine
      ensures State() == old(State()).(table := old(State()).table + [old(State()).row])
    {
      var l := new Line(curLine.ToRow());
      mine := mine + {l};
      table := table + [l];
    }

    /** `line_stack.append(copy.deepcopy(cur_line))`; the rules inside a line are never modified. */
    method Push()
      requires Valid()
      modifies `stack, `mine
      ensures Valid() && fresh(mine - old(mine)) && old(mine) <= mine
      ensures State() == old(State()).(stack := old(State()).stack + [old(State()).row])
    {
      var l := new Line(curLine.ToRow());
      mine := mine + {l};
      stack := stack + [l];
    }

    /** One instruction of the loop. */
    method Step(i: Instr) returns (e: Option<Error>)
      requires Valid()
      modifies this, mine, order
      ensures Valid() && fresh(mine - old(mine)) && K() == old(K())
      ensures match T.Step(old(K()), old(State()), i)
        case Ok(m) => e == None && State() == m
        case Err(x) => e == Some(x)
    {
      e := None;
      if i.SetLoc? || i.AdvanceLoc? {
        Emit();
        var pc := if i.SetLoc? then i.address else curLine.pc + i.delta * codeFactor;
        Write(curLine.ToRow().(pc := pc));
      } else if IsCfaInstr(i) {
        Write(curLine.ToRow().(cfa := CfaAfter(Config(isFde, None, codeFactor, dataFactor), curLine.cfa, i)));
      } else if IsRuleInstr(i) {
        AddToOrder(i.reg);
        Write(curLine.ToRow().(regs := curLine.regs[i.reg := RuleOf(Config(isFde, None, codeFactor, dataFactor), i)]));
      } else if i.Restore? {
        AddToOrder(i.reg);
        if !isFde { return Some(RestoreOutsideFde); }
        if base == null { return Some(NoCieLine); }
        Write(RestoreRule(base.ToRow(), curLine.ToRow(), i.reg));
      } else if i.RememberState? {
        Push();
      } else if i.RestoreState? {
        var pc := curLine.pc;
        if stack == [] { return Some(EmptyLineStack); }
        Pop();
        Write(curLine.ToRow().(pc := pc));
      }
    }

    /** `cur_line = line_stack.pop()` */
    method Pop()
      requires Valid() && stack != []
      modifies `curLine, `stack
      ensures Valid() && mine == old(mine)
      ensures State() == old(State()).(row := old(State()).stack[|old(stack)| - 1], stack := old(State()).stack[..|old(stack)| - 1])
    {
      curLine := stack[|stack| - 1];
      stack := stack[..|stack| - 1];
    }
  }

  /** A CIE (no `cie`) or an FDE. */
  class CfiEntry {
    const offset: nat
    const length: nat
    const cie: CfiEntry?
    const codeFactor: int
    const dataFactor: int
    const initialLocation: int
    const instructions: seq<Instr>
    var decoded: DecodedTable?

    constructor AsCie(offset: nat, length: nat, codeFactor: int, dataFactor: int, instructions: seq<Instr>)
      ensures cie == null && decoded == null
      ensures this.offset == offset && this.length == length && this.instructions == instructions
      ensures this.codeFactor == codeFactor && this.dataFactor == dataFactor
    {
      this.offset, this.length, this.cie, this.instructions := offset, length, null, instructions;
      this.codeFactor, this.dataFactor, this.initialLocation, this.decoded := codeFactor, dataFactor, 0, null;
    }

    constructor AsFde(offset: nat, length: nat, cie: CfiEntry, initialLocation: int, instructions: seq<Instr>)
      ensures this.cie == cie && decoded == null
      ensures this.offset == offset && this.length == length && this.instructions == instructions
      ensures this.initialLocation == initialLocation
    {
      this.offset, this.length, this.cie, this.instructions := offset, length, cie, instructions;
      this.codeFactor, this.dataFactor, this.initialLocation := 0, 0, initialLocation;
      this.decoded := null;
    }

    ghost function CieValue(): Cie {
      Cie(codeFactor, dataFactor, instructions)
    }

    /** What this entry decodes to. */
    ghost function Meaning(): Result<Decoded, Error> {
      if cie == null then DecodeCie(CieValue()) else DecodeFde(Fde(cie.CieValue(), initialLocation, instructions))
    }

    /** A memoised table still holds what the entry decodes to. */
    ghost predicate Memo()
      reads this, LinesOf(decoded), OrderOf(decoded)
    {
      decoded != null ==> Meaning() == Ok(Snapshot(decoded))
    }

    ghost predicate Valid()
      reads this, cie
      reads LinesOf(decoded), OrderOf(decoded)
      reads if cie == null then [] else LinesOf(cie.decoded)
      reads if cie == null then {} else OrderOf(cie.decoded)
    {
      Memo() && (cie != null ==> cie.cie == null && cie.Memo())
    }

    /** `get_decoded`: the only objects that existed before and change are the memo fields of this
        entry and of its CIE, and these only from None. */
    method GetDecoded() returns (r: Result<DecodedTable, Error>)
      requires Valid()
      modifies this`decoded, (if cie == null then {} else {cie})`decoded
      ensures Valid()
      ensures Meaning().Err? <==> r.Err?
      ensures r.Err? ==> Meaning() == Err(r.error)
      ensures r.Ok? ==> decoded == r.value && Meaning() == Ok(Snapshot(r.value))
      ensures old(decoded) != null ==> r == Ok(old(decoded))
      ensures cie != null && old(cie.decoded) != null ==> cie.decoded == old(cie.decoded)
      decreases cie != null
    {
      if decoded == null {
        var t := DecodeTable();
        match t
        case Err(e) => return Err(e);
        case Ok(d) => decoded := d;
      }
      return Ok(decoded);
    }

    /** `_decode_CFI_table` */
    method DecodeTable() returns (r: Result<DecodedTable, Error>)
      requires Valid() && decoded == null
      modifies (if cie == null then {} else {cie})`decoded
      ensures Valid()
      ensures match r case Err(e) => Meaning() == Err(e) case Ok(d) => Meaning() == Ok(Snapshot(d))
      ensures cie != null && old(cie.decoded) != null ==> cie.decoded == old(cie.decoded)
      decreases cie != null, 0
    {
      var d: Decoder;
      if cie == null {
        var line := new Line(Row(0, EMPTY_CFA, map[]));
        var order := new RegOrder([]);
        d := new Decoder(false, null, codeFactor, dataFactor, line, order);
        r := RunAll(d, instructions);
      } else {
        var c := cie.GetDecoded();
        if c.Err? { return Err(c.error); }
        d := StartFde(c.value);
        r := RunAll(d, instructions);
      }
    }

    /** Copies of the CIE's last line and of its register order. */
    method StartFde(c: DecodedTable) returns (d: Decoder)
      requires cie != null
      ensures d.Valid() && fresh(d) && fresh(d.mine) && fresh(d.order)
      ensures d.K() == FdeConfig(cie.CieValue(), Snapshot(c))
      ensures d.State() == FdeStart(Snapshot(c), initialLocation)
    {
      var order := new RegOrder(c.order.items);
      if |c.table| > 0 {
        var last := new Line(c.table[|c.table| - 1].ToRow());
        var line := new Line(last.ToRow());
        line.pc := initialLocation;
        d := new Decoder(true, last, cie.codeFactor, cie.dataFactor, line, order);
      } else {
        var line := new Line(Row(initialLocation, EMPTY_CFA, map[]));
        d := new Decoder(true, null, cie.codeFactor, cie.dataFactor, line, order);
      }
    }
  }

  /** The instruction loop and the final append. */
  method RunAll(d: Decoder, code: seq<Instr>) returns (r: Result<DecodedTable, Error>)
    requires d.Valid()
    modifies d, d.mine, d.order
    ensures match Run(old(d.K()), old(d.State()), code)
      case Err(e) => r == Err(e)
      case Ok(m) => r.Ok? && Snapshot(r.value) == Finish(m)
  {
    ghost var k, m := d.K(), d.State();
    for i := 0 to |code|
      invariant d.Valid() && fresh(d.mine - old(d.mine)) && d.K() == k
      invariant Run(k, m, code[..i]) == Ok(d.State())
    {
      assert code[..i + 1] == code[..i] + [code[i]];
      RunSnoc(k, m, code[..i], code[i]);
      var e := d.Step(code[i]);
      if e.Some? {
        RunConcat(k, m, code[..i + 1], code[i + 1..]);
        assert code == code[..i + 1] + code[i + 1..];
        return Err(e.value);
      }
    }
    assert code[..|code|] == code;
    var table := d.table;
    if d.curLine.cfa.reg.Some? || d.curLine.regs != map[] { table := table + [d.curLine]; }
    var t := new DecodedTable(table, d.order);
    return Ok(t);
  }

  /** `a` is the one table object of `e`, and holds exactly what `e` decodes to. */
  ghost predicate Answers(e: CfiEntry, a: Result<DecodedTable, Error>)
    reads e, LinesOf(e.decoded), OrderOf(e.decoded)
  {
    match a
    case Ok(d) => e.decoded == d && e.Meaning() == Ok(Snapshot(e.decoded))
    case Err(x) => e.Meaning() == Err(x)
  }

  /** Every FDE's CIE is a CIE of the list, and every memoised table is right. */
  ghost predicate AllValid(entries: seq<CfiEntry>)
    reads *
  {
    && (forall e :: e in entries && e.cie != null ==> e.cie in entries && e.cie.cie == null)
    && (forall e :: e in entries ==> e.Memo())
  }

  /** One `get_decoded` call seen from the whole list. */
  method Request(entries: seq<CfiEntry>, e: CfiEntry) returns (a: Result<DecodedTable, Error>)
    requires AllValid(entries) && e in entries
    modifies (set x | x in entries)`decoded
    ensures AllValid(entries) && Answers(e, a)
    ensures forall x :: x in entries && old(x.decoded) != null ==> x.decoded == old(x.decoded)
  {
    a := e.GetDecoded();
    forall x | x in entries ensures x.Memo() {
      ghost var was := old(x.Memo());
    }
  }

  /** Any number of `get_decoded` calls in any order. At the end every answer ever given is still
      right and is the same object as any other answer for that entry, and every table that existed
      at the start, in particular that of a shared CIE, is the same object with the same contents. */
  method Session(entries: seq<CfiEntry>, requests: seq<nat>) returns (answers: seq<Result<DecodedTable, Error>>)
    requires AllValid(entries)
    requires forall j :: 0 <= j < |requests| ==> requests[j] < |entries|
    modifies (set e | e in entries)`decoded
    ensures AllValid(entries)
    ensures |answers| == |requests|
    ensures forall j :: 0 <= j < |requests| ==> Answers(entries[requests[j]], answers[j])
    ensures forall e :: e in entries && old(e.decoded) != null ==>
      e.decoded == old(e.decoded) && Snapshot(e.decoded) == old(Snapshot(e.decoded))
  {
    answers := [];
    for n := 0 to |requests|
      invariant AllValid(entries)
      invariant |answers| == n
      invariant forall j :: 0 <= j < n ==> Answers(entries[requests[j]], answers[j])
      invariant forall e :: e in entries && old(e.decoded) != null ==> e.decoded == old(e.decoded)
    {
      var a := Request(entries, entries[requests[n]]);
      answers := answers + [a];
    }
  }

  /** An entry as a value, and the entry whose alignment factors it uses. */
  ghost function EntryOf(e: CfiEntry): Entry {
    if e.cie == null then CieEntry(Cie(e.codeFactor, e.dataFactor, e.instructions))
    else FdeEntry(Fde(Cie(e.cie.codeFactor, e.cie.dataFactor, e.cie.instructions), e.initialLocation, e.instructions))
  }

  function Owner(e: CfiEntry): CfiEntry { if e.cie == null then e else e.cie }

  /** In the table of an entry, the parts of a row are those that the last instructions about them prescribe, with
      the alignment factors of the entry's CIE. */
  lemma RowInTable(e: CfiEntry, d: DecodedTable, n: nat, j: nat, a: seq<Instr>, i: Instr, b: seq<Instr>, r: nat)
    requires e.Meaning() == Ok(Snapshot(d)) && n < |d.table|
    requires RowAt(e.instructions, n, j) && e.instructions[..j] == a + [i] + b
    ensures NamesRegister(i, r) && Quiet(x => NamesRegister(x, r), b) ==>
      Prescribes(i, r, Owner(e).dataFactor, BaseRow(EntryOf(e)), RuleFor(d.table[n].ToRow(), r))
    ensures SetsCfaRegister(i) && Quiet(SetsCfaRegister, b) ==> PrescribesCfaRegister(i, d.table[n].cfa.reg)
    ensures SetsCfaOffset(i) && Quiet(SetsCfaOffset, b) ==>
      PrescribesCfaOffset(i, Owner(e).codeFactor, Owner(e).dataFactor, d.table[n].cfa.offset)
    ensures i.SetLoc? && NoSetLoc(b) ==> d.table[n].pc == i.address + Owner(e).codeFactor * Sum(Advances(b))
  {
    var v := EntryOf(e);
    assert Decode(v) == Ok(Snapshot(d)) && CodeOf(v) == e.instructions;
    assert Snapshot(d).table[n] == d.table[n].ToRow();
    if NamesRegister(i, r) && Quiet(x => NamesRegister(x, r), b) { RowRule(v, n, j, a, i, b, r); }
    if SetsCfaRegister(i) && Quiet(SetsCfaRegister, b) { RowCfaRegister(v, n, j, a, i, b); }
    if SetsCfaOffset(i) && Quiet(SetsCfaOffset, b) { RowCfaOffset(v, n, j, a, i, b); }
    if i.SetLoc? && NoSetLoc(b) { RowLocation(v, n, j, a, i.address, b); }
  }
}
