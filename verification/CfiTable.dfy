/** The call frame table of one CIE or FDE (section 6.4 of DWARF v4) as a function of its
    instructions, and what holds of every such table. */
module CfiTable {
  import opened Common

  type Block = seq<nat>

  datatype CfaRule = CfaRule(reg: Option<nat>, offset: Option<int>, expr: Option<Block>)

  datatype RegisterRule =
    | Undefined
    | SameValue
    | AtOffset(offset: int)
    | ValOffset(offset: int)
    | InRegister(reg: nat)
    | Expression(expr: Block)
    | ValExpression(expr: Block)

  /** One constructor for all opcodes that `_decode_CFI_table` treats alike. */
  datatype Instr =
    | SetLoc(address: int)
    | AdvanceLoc(delta: nat)
    | DefCfa(reg: nat, cfaOffset: nat)
    | DefCfaSf(reg: nat, factored: int)
    | DefCfaRegister(reg: nat)
    | DefCfaOffset(cfaOffset: nat)
    | DefCfaOffsetSf(factored: int)
    | DefCfaExpression(expr: Block)
    | SetUndefined(reg: nat)
    | SetSameValue(reg: nat)
    | SetOffset(reg: nat, factored: int)
    | SetValOffset(reg: nat, factored: int)
    | SetRegister(reg: nat, source: nat)
    | SetExpression(reg: nat, expr: Block)
    | SetValExpression(reg: nat, expr: Block)
    | Restore(reg: nat)
    | RememberState
    | RestoreState
    | NoEffect

  /** A line of the table: the dictionary with its keys `pc`, `cfa` and the register numbers. */
  datatype Row = Row(pc: int, cfa: CfaRule, regs: map<nat, RegisterRule>)

  datatype Error = RestoreOutsideFde | NoCieLine | EmptyLineStack

  /** What an instruction may consult besides the current line: `isinstance(self, FDE)`,
      `last_line_in_CIE` if it was bound, and the alignment factors of the CIE. */
  datatype Config = Config(isFde: bool, base: Option<Row>, codeFactor: int, dataFactor: int)

  datatype Machine = Machine(row: Row, table: seq<Row>, stack: seq<Row>, order: seq<nat>)

  datatype Decoded = Decoded(table: seq<Row>, order: seq<nat>)

  predicate IsCfaInstr(i: Instr) {
    i.DefCfa? || i.DefCfaSf? || i.DefCfaRegister? || i.DefCfaOffset? || i.DefCfaOffsetSf? || i.DefCfaExpression?
  }

  predicate IsRuleInstr(i: Instr) {
    || i.SetUndefined? || i.SetSameValue? || i.SetOffset? || i.SetValOffset?
    || i.SetRegister? || i.SetExpression? || i.SetValExpression?
  }

  function CfaAfter(k: Config, cfa: CfaRule, i: Instr): CfaRule
    requires IsCfaInstr(i)
  {
    match i
    case DefCfa(reg, offset) => CfaRule(Some(reg), Some(offset), None)
    case DefCfaSf(reg, factored) => CfaRule(Some(reg), Some(factored * k.codeFactor), None)
    case DefCfaRegister(reg) => CfaRule(Some(reg), cfa.offset, None)
    case DefCfaOffset(offset) => CfaRule(cfa.reg, Some(offset), None)
    case DefCfaOffsetSf(factored) => CfaRule(cfa.reg, Some(factored * k.dataFactor), None)
    case DefCfaExpression(expr) => CfaRule(None, None, Some(expr))
  }

  function RuleOf(k: Config, i: Instr): RegisterRule
    requires IsRuleInstr(i)
  {
    match i
    case SetUndefined(_) => Undefined
    case SetSameValue(_) => SameValue
    case SetOffset(_, factored) => AtOffset(factored * k.dataFactor)
    case SetValOffset(_, factored) => ValOffset(factored * k.dataFactor)
    case SetRegister(_, source) => InRegister(source)
    case SetExpression(_, expr) => Expression(expr)
    case SetValExpression(_, expr) => ValExpression(expr)
  }

  function AddToOrder(order: seq<nat>, reg: nat): seq<nat> {
    if reg in order then order else order + [reg]
  }

  function RestoreRule(base: Row, row: Row, reg: nat): Row {
    row.(regs := if reg in base.regs then row.regs[reg := base.regs[reg]] else row.regs - {reg})
  }

  function Step(k: Config, m: Machine, i: Instr): Result<Machine, Error> {
    if i.SetLoc? then Ok(m.(table := m.table + [m.row], row := m.row.(pc := i.address)))
    else if i.AdvanceLoc? then
      Ok(m.(table := m.table + [m.row], row := m.row.(pc := m.row.pc + i.delta * k.codeFactor)))
    else if IsCfaInstr(i) then Ok(m.(row := m.row.(cfa := CfaAfter(k, m.row.cfa, i))))
    else if IsRuleInstr(i) then
      Ok(m.(order := AddToOrder(m.order, i.reg), row := m.row.(regs := m.row.regs[i.reg := RuleOf(k, i)])))
    else if i.Restore? then
      if !k.isFde then Err(RestoreOutsideFde)
      else if k.base.None? then Err(NoCieLine)
      else Ok(m.(order := AddToOrder(m.order, i.reg), row := RestoreRule(k.base.value, m.row, i.reg)))
    else if i.RememberState? then Ok(m.(stack := m.stack + [m.row]))
    else if i.RestoreState? then
      if m.stack == [] then Err(EmptyLineStack)
      else Ok(m.(row := m.stack[|m.stack| - 1].(pc := m.row.pc), stack := m.stack[..|m.stack| - 1]))
    else Ok(m)
  }

  function Run(k: Config, m: Machine, code: seq<Instr>): Result<Machine, Error>
    decreases |code|
  {
    if code == [] then Ok(m)
    else match Step(k, m, code[0])
      case Ok(m') => Run(k, m', code[1..])
      case Err(e) => Err(e)
  }

  /** The current line is kept unless it is still the empty line. */
  function Finish(m: Machine): Decoded {
    Decoded(if m.row.cfa.reg.Some? || m.row.regs != map[] then m.table + [m.row] else m.table, m.order)
  }

  const EMPTY_CFA := CfaRule(None, Some(0), None)

  datatype Cie = Cie(codeFactor: int, dataFactor: int, instructions: seq<Instr>)
  datatype Fde = Fde(cie: Cie, initialLocation: int, instructions: seq<Instr>)

  function CieConfig(c: Cie): Config { Config(false, None, c.codeFactor, c.dataFactor) }

  function CieStart(): Machine { Machine(Row(0, EMPTY_CFA, map[]), [], [], []) }

  function DecodeCie(c: Cie): Result<Decoded, Error> {
    match Run(CieConfig(c), CieStart(), c.instructions)
    case Ok(m) => Ok(Finish(m))
    case Err(e) => Err(e)
  }

  function LastRow(d: Decoded): Option<Row> {
    if |d.table| > 0 then Some(d.table[|d.table| - 1]) else None
  }

  function FdeConfig(c: Cie, d: Decoded): Config { Config(true, LastRow(d), c.codeFactor, c.dataFactor) }

  function FdeStart(d: Decoded, initialLocation: int): Machine {
    var line := if |d.table| > 0 then d.table[|d.table| - 1] else Row(0, EMPTY_CFA, map[]);
    Machine(line.(pc := initialLocation), [], [], d.order)
  }

  function DecodeFde(f: Fde): Result<Decoded, Error> {
    match DecodeCie(f.cie)
    case Err(e) => Err(e)
    case Ok(d) =>
      match Run(FdeConfig(f.cie, d), FdeStart(d, f.initialLocation), f.instructions)
      case Ok(m) => Ok(Finish(m))
      case Err(e) => Err(e)
  }

  // ----- DW_CFA_def_cfa_sf -----

  /** What section 6.4.2.2 of DWARF v4 prescribes: the offset is scaled by the data alignment factor. */
  function StandardDefCfaSf(k: Config, reg: nat, factored: int): CfaRule {
    CfaRule(Some(reg), Some(factored * k.dataFactor), None)
  }

  /** The code scales it by the code alignment factor, which gives the prescribed rule if and only if the
      offset is zero or the two factors are equal. */
  lemma DefCfaSfIff(k: Config, cfa: CfaRule, reg: nat, factored: int)
    ensures CfaAfter(k, cfa, DefCfaSf(reg, factored)) == StandardDefCfaSf(k, reg, factored)
      <==> factored == 0 || k.codeFactor == k.dataFactor
  {
    var d := k.codeFactor - k.dataFactor;
    assert factored * k.codeFactor - factored * k.dataFactor == factored * d;
    if factored != 0 && d != 0 { NonZero(factored, d); }
  }

  lemma NonZero(a: int, b: int)
    requires a != 0 && b != 0
    ensures a * b != 0
  {
  }

  /** With the usual factors 1 and -8, an offset of 2 gives 2 in place of -16. */
  lemma DefCfaSfDiffers(c: Cie)
    requires c == Cie(1, -8, [DefCfaSf(7, 2)])
    ensures DecodeCie(c) == Ok(Decoded([Row(0, CfaRule(Some(7), Some(2), None), map[])], []))
    ensures StandardDefCfaSf(CieConfig(c), 7, 2) == CfaRule(Some(7), Some(-16), None)
  {
    var m := Machine(Row(0, CfaRule(Some(7), Some(2), None), map[]), [], [], []);
    assert c.instructions[1..] == [] && Run(CieConfig(c), m, []) == Ok(m);
    assert Step(CieConfig(c), CieStart(), c.instructions[0]) == Ok(m);
    assert Run(CieConfig(c), CieStart(), c.instructions) == Ok(m);
    assert Finish(m).table == [m.row];
  }

  // ----- running a concatenation -----

  lemma {:induction false} RunConcat(k: Config, m: Machine, a: seq<Instr>, b: seq<Instr>)
    ensures Run(k, m, a + b) == match Run(k, m, a) case Ok(m') => Run(k, m', b) case Err(e) => Err(e)
    decreases |a|
  {
    if a == [] {
      assert a + b == b;
    } else {
      assert (a + b)[0] == a[0] && (a + b)[1..] == a[1..] + b;
      if Step(k, m, a[0]).Ok? { RunConcat(k, Step(k, m, a[0]).value, a[1..], b); }
    }
  }

  lemma RunSnoc(k: Config, m: Machine, a: seq<Instr>, i: Instr)
    ensures Run(k, m, a + [i]) == match Run(k, m, a) case Ok(m') => Step(k, m', i) case Err(e) => Err(e)
  {
    RunConcat(k, m, a, [i]);
    if Run(k, m, a).Ok? { assert Run(k, Run(k, m, a).value, [i]) == Step(k, Run(k, m, a).value, i); }
  }

  // ----- reg_order -----

  predicate NoDuplicates(s: seq<nat>) {
    forall i, j :: 0 <= i < j < |s| ==> s[i] != s[j]
  }

  predicate Covered(r: Row, order: seq<nat>) {
    forall k :: k in r.regs ==> k in order
  }

  predicate CoveredAll(rows: seq<Row>, order: seq<nat>) {
    forall i :: 0 <= i < |rows| ==> Covered(rows[i], order)
  }

  /** Every register with a rule, on the current, a finished or a remembered line, is listed once. */
  predicate OrderInvariant(m: Machine) {
    NoDuplicates(m.order) && Covered(m.row, m.order) && CoveredAll(m.table, m.order) && CoveredAll(m.stack, m.order)
  }

  lemma OrderStep(k: Config, m: Machine, i: Instr)
    requires OrderInvariant(m) && Step(k, m, i).Ok?
    ensures OrderInvariant(Step(k, m, i).value) && m.order <= Step(k, m, i).value.order
  {
    var m' := Step(k, m, i).value;
    assert forall r :: r in m.order ==> r in m'.order;
  }

  lemma {:induction false} OrderRun(k: Config, m: Machine, code: seq<Instr>)
    requires OrderInvariant(m) && Run(k, m, code).Ok?
    ensures OrderInvariant(Run(k, m, code).value) && m.order <= Run(k, m, code).value.order
    decreases |code|
  {
    if code != [] {
      OrderStep(k, m, code[0]);
      OrderRun(k, Step(k, m, code[0]).value, code[1..]);
    }
  }

  /** In every decoded table, reg_order has no duplicates and contains every register key of every
      row; an FDE's order extends that of its CIE. */
  lemma DecodedOrder(f: Fde)
    ensures DecodeCie(f.cie).Ok? ==>
      var d := DecodeCie(f.cie).value; NoDuplicates(d.order) && CoveredAll(d.table, d.order)
    ensures DecodeFde(f).Ok? ==>
      var d := DecodeFde(f).value;
      NoDuplicates(d.order) && CoveredAll(d.table, d.order) && DecodeCie(f.cie).value.order <= d.order
  {
    if Run(CieConfig(f.cie), CieStart(), f.cie.instructions).Ok? {
      OrderRun(CieConfig(f.cie), CieStart(), f.cie.instructions);
      var d := DecodeCie(f.cie).value;
      var k, m := FdeConfig(f.cie, d), FdeStart(d, f.initialLocation);
      if Run(k, m, f.instructions).Ok? { OrderRun(k, m, f.instructions); }
    }
  }

  // ----- remember_state / restore_state -----

  function Depth(code: seq<Instr>): int {
    if code == [] then 0
    else (if code[0].RememberState? then 1 else if code[0].RestoreState? then -1 else 0) + Depth(code[1..])
  }

  /** Every restore_state in the block answers a remember_state in the block, and conversely. */
  ghost predicate WellBracketed(code: seq<Instr>) {
    Depth(code) == 0 && forall n :: 0 <= n <= |code| ==> 0 <= Depth(code[..n])
  }

  lemma {:induction false} DepthSnoc(code: seq<Instr>, i: Instr)
    ensures Depth(code + [i]) == Depth(code) + (if i.RememberState? then 1 else if i.RestoreState? then -1 else 0)
    decreases |code|
  {
    if code == [] {
      assert [i][1..] == [];
    } else {
      assert (code + [i])[0] == code[0] && (code + [i])[1..] == code[1..] + [i];
      DepthSnoc(code[1..], i);
    }
  }

  /** A block that stays at or above its starting depth never underflows, and leaves the stack below
      that depth untouched. */
  lemma {:induction false} StackBelow(k: Config, m: Machine, code: seq<Instr>)
    requires forall n :: 0 <= n <= |code| ==> 0 <= Depth(code[..n])
    ensures Run(k, m, code) != Err(EmptyLineStack)
    ensures Run(k, m, code).Ok? ==>
      var m' := Run(k, m, code).value; |m'.stack| == |m.stack| + Depth(code) && m.stack <= m'.stack
    decreases |code|
  {
    if code == [] {
    } else {
      var a, i := code[..|code| - 1], code[|code| - 1];
      assert code == a + [i] && code[..|code|] == code;
      assert forall n :: 0 <= n <= |a| ==> a[..n] == code[..n];
      RunSnoc(k, m, a, i);
      DepthSnoc(a, i);
      StackBelow(k, m, a);
      assert 0 <= Depth(code[..|code|]);
    }
  }

  /** After the closing restore_state the rules are those at the remember_state; the location is the
      one the block reached, and the enclosing stack is as before. */
  lemma BracketRestoresRules(k: Config, m: Machine, body: seq<Instr>)
    requires WellBracketed(body)
    requires Run(k, m, [RememberState] + body + [RestoreState]).Ok?
    ensures var m' := Run(k, m, [RememberState] + body + [RestoreState]).value;
      var inside := Run(k, m.(stack := m.stack + [m.row]), body);
      && m'.row.cfa == m.row.cfa && m'.row.regs == m.row.regs
      && m'.stack == m.stack
      && inside.Ok? && m'.row.pc == inside.value.row.pc && m'.table == inside.value.table
  {
    var open, pushed := [RememberState] + body, m.(stack := m.stack + [m.row]);
    RunSnoc(k, m, open, RestoreState);
    assert open[0] == RememberState && open[1..] == body;
    assert Run(k, m, open) == Run(k, pushed, body);
    StackBelow(k, pushed, body);
    var inside := Run(k, pushed, body).value;
    assert inside.stack == m.stack + [m.row];
  }

  // ----- locations -----

  function Advances(code: seq<Instr>): seq<nat> {
    if code == [] then [] else AdvanceOf(code[0]) + Advances(code[1..])
  }

  function AdvanceOf(i: Instr): seq<nat> {
    if i.AdvanceLoc? then [i.delta] else []
  }

  function Sum(s: seq<nat>): nat {
    if s == [] then 0 else s[|s| - 1] + Sum(s[..|s| - 1])
  }

  ghost predicate NoSetLoc(code: seq<Instr>) {
    forall j :: 0 <= j < |code| ==> !code[j].SetLoc?
  }

  function PcAt(m: Machine, j: nat): int {
    if j < |m.table| then m.table[j].pc else m.row.pc
  }

  /** One finished line per advance so far, each as far from the next as that advance says. */
  ghost predicate PcInvariant(k: Config, start: int, done: seq<nat>, m: Machine) {
    && |m.table| == |done| && PcAt(m, 0) == start
    && forall j {:trigger done[j]} :: 0 <= j < |done| ==> PcAt(m, j + 1) == PcAt(m, j) + done[j] * k.codeFactor
  }

  lemma PcStep(k: Config, m: Machine, i: Instr, start: int, done: seq<nat>)
    requires PcInvariant(k, start, done, m) && !i.SetLoc? && Step(k, m, i).Ok?
    ensures PcInvariant(k, start, done + AdvanceOf(i), Step(k, m, i).value)
  {
    assert done + [] == done;
    var m' := Step(k, m, i).value;
    assert forall j :: 0 <= j <= |done| ==> PcAt(m', j) == PcAt(m, j);
  }

  lemma {:induction false} PcRun(k: Config, m: Machine, code: seq<Instr>, start: int, done: seq<nat>)
    requires PcInvariant(k, start, done, m) && NoSetLoc(code) && Run(k, m, code).Ok?
    ensures PcInvariant(k, start, done + Advances(code), Run(k, m, code).value)
    decreases |code|
  {
    if code == [] {
      assert done + [] == done;
    } else {
      PcStep(k, m, code[0], start, done);
      PcRun(k, Step(k, m, code[0]).value, code[1..], start, done + AdvanceOf(code[0]));
      assert done + Advances(code) == done + AdvanceOf(code[0]) + Advances(code[1..]);
    }
  }

  lemma {:induction false} PcSum(k: Config, start: int, adv: seq<nat>, m: Machine, n: nat)
    requires PcInvariant(k, start, adv, m) && n <= |adv|
    ensures PcAt(m, n) == start + k.codeFactor * Sum(adv[..n])
    decreases n
  {
    if n > 0 {
      PcSum(k, start, adv, m, n - 1);
      assert adv[..n][..n - 1] == adv[..n - 1];
      var before, d := Sum(adv[..n - 1]), adv[n - 1];
      assert PcAt(m, n) == PcAt(m, n - 1) + d * k.codeFactor;
      assert k.codeFactor * (d + before) == d * k.codeFactor + k.codeFactor * before;
    }
  }

  /** Without set_loc, row n of an FDE stands at the initial location plus the code alignment factor
      times the sum of the first n advances. */
  lemma RowLocations(f: Fde, n: nat)
    requires NoSetLoc(f.instructions) && DecodeFde(f).Ok? && n < |DecodeFde(f).value.table|
    ensures |Advances(f.instructions)| <= |DecodeFde(f).value.table| <= |Advances(f.instructions)| + 1
    ensures DecodeFde(f).value.table[n].pc == f.initialLocation + f.cie.codeFactor * Sum(Advances(f.instructions)[..n])
  {
    var d := DecodeCie(f.cie).value;
    var k, m := FdeConfig(f.cie, d), FdeStart(d, f.initialLocation);
    var m' := Run(k, m, f.instructions).value;
    var adv := Advances(f.instructions);
    assert PcInvariant(k, f.initialLocation, adv, m') by {
      PcRun(k, m, f.instructions, f.initialLocation, []);
      assert [] + adv == adv;
    }
    assert DecodeFde(f).value.table[n].pc == PcAt(m', n);
    PcSum(k, f.initialLocation, adv, m', n);
  }
}
