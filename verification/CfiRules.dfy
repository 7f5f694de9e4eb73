/** What stands in a call frame table: every rule, every CFA component and every location, each as the last
    instruction that concerns it prescribes, for CIEs and FDEs, in every row. */
module CfiRules {
  import opened Common
  import opened CfiTable

  // ----- CIE and FDE alike -----

  datatype Entry = CieEntry(c: Cie) | FdeEntry(f: Fde)

  function OwnerOf(e: Entry): Cie { if e.CieEntry? then e.c else e.f.cie }

  function CodeOf(e: Entry): seq<Instr> { if e.CieEntry? then e.c.instructions else e.f.instructions }

  function Decode(e: Entry): Result<Decoded, Error> { if e.CieEntry? then DecodeCie(e.c) else DecodeFde(e.f) }

  /** The last row of the CIE that an FDE refers to, if it has one. */
  function BaseRow(e: Entry): Option<Row> {
    if e.CieEntry? || DecodeCie(e.f.cie).Err? then None
    else var table := DecodeCie(e.f.cie).value.table; if table == [] then None else Some(table[|table| - 1])
  }

  function BaseOrder(e: Entry): seq<nat> {
    if e.CieEntry? || DecodeCie(e.f.cie).Err? then [] else DecodeCie(e.f.cie).value.order
  }

  function InitialLocation(e: Entry): int { if e.CieEntry? then 0 else e.f.initialLocation }

  /** The machine that decodes the entry. */
  ghost predicate Decodes(e: Entry, k: Config, start: Machine) {
    && Decode(e).Ok? && Run(k, start, CodeOf(e)).Ok? && Decode(e).value == Finish(Run(k, start, CodeOf(e)).value)
    && k.codeFactor == OwnerOf(e).codeFactor && k.dataFactor == OwnerOf(e).dataFactor && k.base == BaseRow(e)
    && start.table == [] && start.stack == [] && start.order == BaseOrder(e) && start.row.pc == InitialLocation(e)
    && match BaseRow(e)
       case Some(row) => start.row.regs == row.regs && start.row.cfa == row.cfa
       case None => start.row.regs == map[] && start.row.cfa == CfaRule(None, Some(0), None)
  }

  lemma MachineOf(e: Entry) returns (k: Config, start: Machine)
    requires Decode(e).Ok?
    ensures Decodes(e, k, start)
  {
    if e.CieEntry? {
      k, start := CieConfig(e.c), CieStart();
    } else {
      var d := DecodeCie(e.f.cie).value;
      k, start := FdeConfig(e.f.cie, d), FdeStart(d, e.f.initialLocation);
    }
  }

  // ----- which instructions a row has behind it -----

  predicate StartsRow(i: Instr) { i.SetLoc? || i.AdvanceLoc? }

  function RowsIn(code: seq<Instr>): nat {
    if code == [] then 0 else RowsIn(code[..|code| - 1]) + if StartsRow(code[|code| - 1]) then 1 else 0
  }

  /** Row `n` is what the first `j` instructions leave. */
  ghost predicate RowAt(code: seq<Instr>, n: nat, j: nat) {
    j <= |code| && (j < |code| ==> StartsRow(code[j])) && n == RowsIn(code[..j])
  }

  lemma {:induction false} TableGrows(k: Config, m: Machine, code: seq<Instr>)
    requires Run(k, m, code).Ok?
    ensures var m' := Run(k, m, code).value; |m'.table| == |m.table| + RowsIn(code) && m.table <= m'.table
    decreases |code|
  {
    if code != [] {
      var a, i := code[..|code| - 1], code[|code| - 1];
      assert code == a + [i];
      RunSnoc(k, m, a, i);
      TableGrows(k, m, a);
    }
  }

  lemma RunPrefix(k: Config, m: Machine, code: seq<Instr>, j: nat)
    requires Run(k, m, code).Ok? && j <= |code|
    ensures Run(k, m, code[..j]).Ok? && Run(k, m, code) == Run(k, Run(k, m, code[..j]).value, code[j..])
  {
    assert code == code[..j] + code[j..];
    RunConcat(k, m, code[..j], code[j..]);
  }

  /** The row of a decoded table is the machine's line after the instructions behind it. */
  lemma RowState(k: Config, start: Machine, code: seq<Instr>, n: nat, j: nat)
    requires start.table == [] && Run(k, start, code).Ok? && RowAt(code, n, j) && n < |Finish(Run(k, start, code).value).table|
    ensures Run(k, start, code[..j]).Ok? && Finish(Run(k, start, code).value).table[n] == Run(k, start, code[..j]).value.row
  {
    RunPrefix(k, start, code, j);
    TableGrows(k, start, code[..j]);
    var m := Run(k, start, code[..j]).value;
    if j == |code| {
      assert code[..j] == code;
    } else {
      var m' := Step(k, m, code[j]).value;
      assert m'.table[n] == m.row;
      TableGrows(k, m', code[j..][1..]);
    }
  }

  /** There is one more row than instructions that start one if and only if the last line has a CFA register or
      a rule. */
  lemma RowsOf(e: Entry, k: Config, start: Machine)
    requires Decodes(e, k, start)
    ensures var last := Run(k, start, CodeOf(e)).value.row;
      |Decode(e).value.table| == RowsIn(CodeOf(e)) + if last.cfa.reg.Some? || last.regs != map[] then 1 else 0
  {
    TableGrows(k, start, CodeOf(e));
  }

  lemma {:induction false} FindRow(code: seq<Instr>, n: nat) returns (j: nat)
    requires n <= RowsIn(code)
    ensures RowAt(code, n, j)
    decreases |code|
  {
    if n == RowsIn(code) {
      j := |code|;
      assert code[..j] == code;
    } else {
      var a := code[..|code| - 1];
      j := FindRow(a, n);
      assert code[..j] == a[..j];
    }
  }

  // ----- what an instruction leaves alone -----

  /** `slot` is a part of the line, other than the location, that only instructions in `touches` change. */
  ghost predicate Slot<T(!new)>(k: Config, slot: Row -> T, touches: Instr -> bool) {
    && (forall row: Row, row': Row :: row.cfa == row'.cfa && row.regs == row'.regs ==> slot(row) == slot(row'))
    && (forall m: Machine, i: Instr {:trigger Leaves(k, slot, touches, m, i)} :: Leaves(k, slot, touches, m, i))
  }

  ghost predicate Leaves<T(!new)>(k: Config, slot: Row -> T, touches: Instr -> bool, m: Machine, i: Instr) {
    !touches(i) && !i.RestoreState? && Step(k, m, i).Ok? ==> slot(Step(k, m, i).value.row) == slot(m.row)
  }

  /** The remember_state at `p` is answered by the restore_state that ends the block. */
  ghost predicate ClosesAt(code: seq<Instr>, p: nat) {
    p + 1 < |code| && code[p].RememberState? && code[|code| - 1].RestoreState? && WellBracketed(code[p + 1..|code| - 1])
  }

  /** Nothing in the block touches the slot, except between a remember_state and its restore_state. */
  ghost predicate Quiet(touches: Instr -> bool, code: seq<Instr>)
    decreases |code|
  {
    || code == []
    || (!touches(code[|code| - 1]) && !code[|code| - 1].RestoreState? && Quiet(touches, code[..|code| - 1]))
    || (exists p: nat :: ClosesAt(code, p) && Quiet(touches, code[..p]))
  }

  lemma {:induction false} SlotStays<T(!new)>(k: Config, slot: Row -> T, touches: Instr -> bool, m: Machine, code: seq<Instr>)
    requires Slot(k, slot, touches) && Quiet(touches, code) && Run(k, m, code).Ok?
    ensures slot(Run(k, m, code).value.row) == slot(m.row)
    decreases |code|
  {
    if code != [] {
      var a, i := code[..|code| - 1], code[|code| - 1];
      if !touches(i) && !i.RestoreState? && Quiet(touches, a) {
        assert code == a + [i];
        RunSnoc(k, m, a, i);
        SlotStays(k, slot, touches, m, a);
        assert Leaves(k, slot, touches, Run(k, m, a).value, i);
      } else {
        var p: nat :| ClosesAt(code, p) && Quiet(touches, code[..p]);
        SlotStays(k, slot, touches, m, code[..p]) by { RunPrefix(k, m, code, p); }
        BracketKeeps(k, slot, touches, m, code, p);
      }
    }
  }

  lemma BracketKeeps<T(!new)>(k: Config, slot: Row -> T, touches: Instr -> bool, m: Machine, code: seq<Instr>, p: nat)
    requires Slot(k, slot, touches) && ClosesAt(code, p) && Run(k, m, code).Ok?
    ensures Run(k, m, code[..p]).Ok? && slot(Run(k, m, code).value.row) == slot(Run(k, m, code[..p]).value.row)
  {
    RunPrefix(k, m, code, p);
    var body := code[p + 1..|code| - 1];
    assert code[p..] == [RememberState] + body + [RestoreState];
    BracketRestoresRules(k, Run(k, m, code[..p]).value, body);
  }

  /** What the last instruction that touches a slot wrote is there at the end. */
  lemma LastWriter<T(!new)>(k: Config, slot: Row -> T, touches: Instr -> bool, m: Machine, a: seq<Instr>, i: Instr, b: seq<Instr>)
    requires Slot(k, slot, touches) && Quiet(touches, b) && Run(k, m, a + [i] + b).Ok?
    ensures Run(k, m, a).Ok? && Step(k, Run(k, m, a).value, i).Ok?
    ensures slot(Run(k, m, a + [i] + b).value.row) == slot(Step(k, Run(k, m, a).value, i).value.row)
  {
    RunConcat(k, m, a + [i], b);
    RunSnoc(k, m, a, i);
    SlotStays(k, slot, touches, Run(k, m, a + [i]).value, b);
  }

  // ----- there always is a last writer, or none at all -----

  /** No prefix pops more than it pushed. */
  ghost predicate NeverBelow(code: seq<Instr>) {
    forall n :: 0 <= n <= |code| ==> 0 <= Depth(code[..n])
  }

  lemma {:induction false} DepthConcat(a: seq<Instr>, b: seq<Instr>)
    ensures Depth(a + b) == Depth(a) + Depth(b)
    decreases |b|
  {
    if b == [] {
      assert a + b == a;
    } else {
      var b', i := b[..|b| - 1], b[|b| - 1];
      assert b == b' + [i] && a + b == (a + b') + [i];
      DepthConcat(a, b');
      DepthSnoc(b', i);
      DepthSnoc(a + b', i);
    }
  }

  lemma BracketedConcat(a: seq<Instr>, b: seq<Instr>)
    requires WellBracketed(a) && WellBracketed(b)
    ensures WellBracketed(a + b)
  {
    DepthConcat(a, b);
    forall n | 0 <= n <= |a + b| ensures 0 <= Depth((a + b)[..n]) {
      if n <= |a| {
        assert (a + b)[..n] == a[..n];
      } else {
        assert (a + b)[..n] == a + b[..n - |a|];
        DepthConcat(a, b[..n - |a|]);
      }
    }
  }

  lemma BracketWhole(a: seq<Instr>)
    requires WellBracketed(a)
    ensures WellBracketed([RememberState] + a + [RestoreState])
  {
    var w := [RememberState] + a;
    DepthConcat([RememberState], a);
    assert [RememberState][1..] == [];
    DepthSnoc(w, RestoreState);
    var v := w + [RestoreState];
    assert v[..|v|] == v;
    forall n | 0 <= n <= |v| ensures 0 <= Depth(v[..n]) {
      if 0 < n < |v| {
        assert v[..n] == [RememberState] + a[..n - 1];
        DepthConcat([RememberState], a[..n - 1]);
      }
    }
  }

  lemma SingleBracketed(i: Instr)
    requires !i.RememberState? && !i.RestoreState?
    ensures WellBracketed([i])
  {
    assert [i][..0] == [] && [i][..1] == [i] && Depth([i]) == 0;
  }

  /** A block that leaves something pushed has an innermost remember_state without an answer. */
  lemma {:induction false} FindOpen(b: seq<Instr>) returns (u: seq<Instr>, w: seq<Instr>)
    requires Depth(b) >= 1
    ensures b == u + [RememberState] + w && WellBracketed(w)
    decreases |b|
  {
    var a, i := b[..|b| - 1], b[|b| - 1];
    assert b == a + [i];
    DepthSnoc(a, i);
    if i.RememberState? {
      u, w := a, [];
      assert b == u + [RememberState] + [];
    } else if i.RestoreState? {
      var u', w' := FindOpen(a);
      var x := [RememberState] + w' + [RestoreState];
      assert b == u' + x;
      BracketWhole(w');
      DepthConcat(u', x);
      u, w := FindOpen(u');
      w := MoreInside(u', u, w, x);
    } else {
      u, w := FindOpen(a);
      SingleBracketed(i);
      w := MoreInside(a, u, w, [i]);
    }
  }

  lemma MoreInside(a: seq<Instr>, u: seq<Instr>, w: seq<Instr>, x: seq<Instr>) returns (more: seq<Instr>)
    requires a == u + [RememberState] + w && WellBracketed(w) && WellBracketed(x)
    ensures a + x == u + [RememberState] + more && WellBracketed(more)
  {
    more := w + x;
    BracketedConcat(w, x);
  }

  datatype Writer = Nobody | Writer(a: seq<Instr>, i: Instr, b: seq<Instr>)

  ghost predicate IsWriter(touches: Instr -> bool, code: seq<Instr>, w: Writer) {
    match w
    case Nobody => Quiet(touches, code)
    case Writer(a, i, b) => code == a + [i] + b && touches(i) && Quiet(touches, b)
  }

  lemma QuietSnoc(touches: Instr -> bool, b: seq<Instr>, i: Instr)
    requires Quiet(touches, b) && !touches(i) && !i.RestoreState?
    ensures Quiet(touches, b + [i])
  {
    assert (b + [i])[..|b + [i]| - 1] == b;
  }

  lemma QuietBracket(touches: Instr -> bool, b: seq<Instr>, body: seq<Instr>)
    requires Quiet(touches, b) && WellBracketed(body)
    ensures Quiet(touches, b + ([RememberState] + body + [RestoreState]))
  {
    var code := b + ([RememberState] + body + [RestoreState]);
    assert code[..|b|] == b && code[|b| + 1..|code| - 1] == body;
    assert ClosesAt(code, |b|);
  }

  lemma WriterSnoc(touches: Instr -> bool, c: seq<Instr>, i: Instr, w: Writer) returns (w': Writer)
    requires IsWriter(touches, c, w) && !touches(i) && !i.RestoreState?
    ensures IsWriter(touches, c + [i], w')
  {
    match w
    case Nobody =>
      QuietSnoc(touches, c, i);
      w' := Nobody;
    case Writer(a, x, b) =>
      QuietSnoc(touches, b, i);
      w' := Writer(a, x, b + [i]);
      assert c + [i] == a + [x] + (b + [i]);
  }

  lemma WriterBracket(touches: Instr -> bool, u: seq<Instr>, body: seq<Instr>, w: Writer) returns (w': Writer)
    requires IsWriter(touches, u, w) && WellBracketed(body)
    ensures IsWriter(touches, u + ([RememberState] + body + [RestoreState]), w')
  {
    var block := [RememberState] + body + [RestoreState];
    match w
    case Nobody =>
      QuietBracket(touches, u, body);
      w' := Nobody;
    case Writer(a, x, b) =>
      QuietBracket(touches, b, body);
      w' := Writer(a, x, b + block);
      Longer(a + [x], b, block);
  }

  lemma Longer(a: seq<Instr>, b: seq<Instr>, c: seq<Instr>)
    ensures a + b + c == a + (b + c)
  {
  }

  lemma NeverBelowPrefix(code: seq<Instr>, n: nat)
    requires NeverBelow(code) && n <= |code|
    ensures NeverBelow(code[..n]) && 0 <= Depth(code)
  {
    assert code[..|code|] == code;
    assert forall x :: 0 <= x <= n ==> code[..n][..x] == code[..x];
  }

  lemma {:induction false} FindWriter(touches: Instr -> bool, code: seq<Instr>) returns (w: Writer)
    requires NeverBelow(code) && forall i :: touches(i) ==> !i.RestoreState?
    ensures IsWriter(touches, code, w)
    decreases |code|
  {
    if code == [] { return Nobody; }
    var c, i := code[..|code| - 1], code[|code| - 1];
    assert code == c + [i];
    NeverBelowPrefix(code, |code| - 1);
    if touches(i) {
      w := Writer(c, i, []);
      assert code == c + [i] + [];
    } else if i.RestoreState? {
      DepthSnoc(c, i);
      var u, body := FindOpen(c);
      assert u == code[..|u|];
      NeverBelowPrefix(code, |u|);
      w := FindWriter(touches, u);
      w := WriterBracket(touches, u, body, w);
      assert code == u + ([RememberState] + body + [RestoreState]);
    } else {
      w := FindWriter(touches, c);
      w := WriterSnoc(touches, c, i, w);
    }
  }

  // ----- when decoding succeeds -----

  /** Decoding succeeds if and only if no restore_state lacks its remember_state and every restore has a CIE row
      to go back to. */
  lemma DecodesIff(e: Entry)
    ensures Decode(e).Ok? <==>
      && (e.FdeEntry? ==> DecodeCie(e.f.cie).Ok?) && NeverBelow(CodeOf(e))
      && forall i :: i in CodeOf(e) && i.Restore? ==> BaseRow(e).Some?
  {
    if e.CieEntry? {
      RunsIff(CieConfig(e.c), CieStart(), e.c.instructions);
    } else if DecodeCie(e.f.cie).Ok? {
      var d := DecodeCie(e.f.cie).value;
      RunsIff(FdeConfig(e.f.cie, d), FdeStart(d, e.f.initialLocation), e.f.instructions);
    }
  }

  lemma {:induction false} RunsIff(k: Config, m: Machine, code: seq<Instr>)
    requires m.stack == [] && (!k.isFde ==> k.base == None)
    ensures Run(k, m, code).Ok? <==> NeverBelow(code) && forall i :: i in code && i.Restore? ==> k.base.Some?
    decreases |code|
  {
    if code != [] {
      var a, i := code[..|code| - 1], code[|code| - 1];
      assert code == a + [i] && code[..|code|] == code;
      assert forall n :: 0 <= n <= |a| ==> a[..n] == code[..n];
      RunSnoc(k, m, a, i);
      RunsIff(k, m, a);
      DepthSnoc(a, i);
      if Run(k, m, a).Ok? {
        StackBelow(k, m, a);
        assert NeverBelow(code) <==> 0 <= Depth(code[..|code|]);
      }
    }
  }

  // ----- register rules -----

  function RuleFor(row: Row, r: nat): Option<RegisterRule> {
    if r in row.regs then Some(row.regs[r]) else None
  }

  predicate NamesRegister(i: Instr, r: nat) {
    || (i.SetUndefined? && i.reg == r) || (i.SetSameValue? && i.reg == r)
    || (i.SetOffset? && i.reg == r) || (i.SetValOffset? && i.reg == r) || (i.SetRegister? && i.reg == r)
    || (i.SetExpression? && i.reg == r) || (i.SetValExpression? && i.reg == r) || (i.Restore? && i.reg == r)
  }

  /** The rule that section 6.4.2.3 of DWARF v4 prescribes: offsets are factored by the data alignment factor,
      and restore goes back to the rule of the CIE. */
  ghost predicate Prescribes(i: Instr, r: nat, dataFactor: int, base: Option<Row>, rule: Option<RegisterRule>) {
    match i
    case SetUndefined(_) => rule == Some(Undefined)
    case SetSameValue(_) => rule == Some(SameValue)
    case SetOffset(_, n) => rule == Some(AtOffset(n * dataFactor))
    case SetValOffset(_, n) => rule == Some(ValOffset(n * dataFactor))
    case SetRegister(_, source) => rule == Some(InRegister(source))
    case SetExpression(_, expr) => rule == Some(Expression(expr))
    case SetValExpression(_, expr) => rule == Some(ValExpression(expr))
    case Restore(_) => base.Some? && rule == RuleFor(base.value, r)
    case _ => false
  }

  lemma RuleSlot(k: Config, r: nat)
    ensures Slot(k, (row: Row) => RuleFor(row, r), (i: Instr) => NamesRegister(i, r))
  {
  }

  lemma RuleStep(k: Config, m: Machine, i: Instr, r: nat)
    requires NamesRegister(i, r) && Step(k, m, i).Ok?
    ensures Prescribes(i, r, k.dataFactor, k.base, RuleFor(Step(k, m, i).value.row, r))
  {
  }

  /** In every row of every decoded table, the rule of a register is the one that the last instruction naming it
      prescribes, whatever follows that names other registers, moves on, or remembers and restores. */
  lemma RowRule(e: Entry, n: nat, j: nat, a: seq<Instr>, i: Instr, b: seq<Instr>, r: nat)
    requires Decode(e).Ok? && n < |Decode(e).value.table| && RowAt(CodeOf(e), n, j)
    requires CodeOf(e)[..j] == a + [i] + b && NamesRegister(i, r) && Quiet(x => NamesRegister(x, r), b)
    ensures Prescribes(i, r, OwnerOf(e).dataFactor, BaseRow(e), RuleFor(Decode(e).value.table[n], r))
  {
    var k, start := MachineOf(e);
    RowState(k, start, CodeOf(e), n, j);
    RuleSlot(k, r);
    LastWriter(k, (row: Row) => RuleFor(row, r), (x: Instr) => NamesRegister(x, r), start, a, i, b);
    RuleStep(k, Run(k, start, a).value, i, r);
  }

  /** A register that no instruction names has the rule it has in the CIE's last row, and in a CIE none. */
  lemma RowRuleInherited(e: Entry, n: nat, j: nat, r: nat)
    requires Decode(e).Ok? && n < |Decode(e).value.table| && RowAt(CodeOf(e), n, j)
    requires Quiet(x => NamesRegister(x, r), CodeOf(e)[..j])
    ensures RuleFor(Decode(e).value.table[n], r) == if BaseRow(e).Some? then RuleFor(BaseRow(e).value, r) else None
  {
    var k, start := MachineOf(e);
    RowState(k, start, CodeOf(e), n, j);
    RuleSlot(k, r);
    SlotStays(k, (row: Row) => RuleFor(row, r), (x: Instr) => NamesRegister(x, r), start, CodeOf(e)[..j]);
  }

  // ----- the CFA, component by component -----

  predicate SetsCfaRegister(i: Instr) { i.DefCfa? || i.DefCfaSf? || i.DefCfaRegister? || i.DefCfaExpression? }

  predicate SetsCfaOffset(i: Instr) { i.DefCfa? || i.DefCfaSf? || i.DefCfaOffset? || i.DefCfaOffsetSf? || i.DefCfaExpression? }

  predicate SetsCfa(i: Instr) { SetsCfaRegister(i) || SetsCfaOffset(i) }

  ghost predicate PrescribesCfaRegister(i: Instr, reg: Option<nat>) {
    match i
    case DefCfa(r, _) => reg == Some(r)
    case DefCfaSf(r, _) => reg == Some(r)
    case DefCfaRegister(r) => reg == Some(r)
    case DefCfaExpression(_) => reg == None
    case _ => false
  }

  /** DW_CFA_def_cfa_sf is as in the code, scaled by the code alignment factor. */
  ghost predicate PrescribesCfaOffset(i: Instr, codeFactor: int, dataFactor: int, offset: Option<int>) {
    match i
    case DefCfa(_, n) => offset == Some(n)
    case DefCfaSf(_, n) => offset == Some(n * codeFactor)
    case DefCfaOffset(n) => offset == Some(n)
    case DefCfaOffsetSf(n) => offset == Some(n * dataFactor)
    case DefCfaExpression(_) => offset == None
    case _ => false
  }

  /** In every row, the CFA register is that of the last instruction that sets it. */
  lemma RowCfaRegister(e: Entry, n: nat, j: nat, a: seq<Instr>, i: Instr, b: seq<Instr>)
    requires Decode(e).Ok? && n < |Decode(e).value.table| && RowAt(CodeOf(e), n, j)
    requires CodeOf(e)[..j] == a + [i] + b && SetsCfaRegister(i) && Quiet(SetsCfaRegister, b)
    ensures PrescribesCfaRegister(i, Decode(e).value.table[n].cfa.reg)
  {
    var k, start := MachineOf(e);
    RowState(k, start, CodeOf(e), n, j);
    var slot, touches := (row: Row) => row.cfa.reg, SetsCfaRegister;
    assert Slot(k, slot, touches);
    LastWriter(k, slot, touches, start, a, i, b);
  }

  /** So is the CFA offset. */
  lemma RowCfaOffset(e: Entry, n: nat, j: nat, a: seq<Instr>, i: Instr, b: seq<Instr>)
    requires Decode(e).Ok? && n < |Decode(e).value.table| && RowAt(CodeOf(e), n, j)
    requires CodeOf(e)[..j] == a + [i] + b && SetsCfaOffset(i) && Quiet(SetsCfaOffset, b)
    ensures PrescribesCfaOffset(i, OwnerOf(e).codeFactor, OwnerOf(e).dataFactor, Decode(e).value.table[n].cfa.offset)
  {
    var k, start := MachineOf(e);
    RowState(k, start, CodeOf(e), n, j);
    var slot, touches := (row: Row) => row.cfa.offset, SetsCfaOffset;
    assert Slot(k, slot, touches);
    LastWriter(k, slot, touches, start, a, i, b);
  }

  /** And the CFA expression is there exactly if the last instruction about the CFA gave one. */
  lemma RowCfaExpression(e: Entry, n: nat, j: nat, a: seq<Instr>, i: Instr, b: seq<Instr>)
    requires Decode(e).Ok? && n < |Decode(e).value.table| && RowAt(CodeOf(e), n, j)
    requires CodeOf(e)[..j] == a + [i] + b && SetsCfa(i) && Quiet(SetsCfa, b)
    ensures Decode(e).value.table[n].cfa.expr == if i.DefCfaExpression? then Some(i.expr) else None
  {
    var k, start := MachineOf(e);
    RowState(k, start, CodeOf(e), n, j);
    var slot, touches := (row: Row) => row.cfa.expr, SetsCfa;
    assert Slot(k, slot, touches);
    LastWriter(k, slot, touches, start, a, i, b);
  }

  /** Without instructions about it the CFA is the CIE's, and in a CIE has offset 0 and no register. */
  lemma RowCfaInherited(e: Entry, n: nat, j: nat)
    requires Decode(e).Ok? && n < |Decode(e).value.table| && RowAt(CodeOf(e), n, j)
    requires Quiet(SetsCfa, CodeOf(e)[..j])
    ensures Decode(e).value.table[n].cfa == if BaseRow(e).Some? then BaseRow(e).value.cfa else CfaRule(None, Some(0), None)
  {
    var k, start := MachineOf(e);
    RowState(k, start, CodeOf(e), n, j);
    var slot, touches := (row: Row) => row.cfa, SetsCfa;
    assert Slot(k, slot, touches);
    SlotStays(k, slot, touches, start, CodeOf(e)[..j]);
  }

  // ----- locations -----

  lemma {:induction false} AdvancesSnoc(code: seq<Instr>, i: Instr)
    ensures Advances(code + [i]) == Advances(code) + AdvanceOf(i)
    decreases |code|
  {
    if code == [] {
      assert [i][1..] == [];
    } else {
      assert (code + [i])[0] == code[0] && (code + [i])[1..] == code[1..] + [i];
      AdvancesSnoc(code[1..], i);
    }
  }

  /** Advances are multiples of the code alignment factor; no other instruction moves the location. */
  lemma {:induction false} LocationAfter(k: Config, m: Machine, code: seq<Instr>)
    requires NoSetLoc(code) && Run(k, m, code).Ok?
    ensures Run(k, m, code).value.row.pc == m.row.pc + k.codeFactor * Sum(Advances(code))
    decreases |code|
  {
    if code != [] {
      var a, i := code[..|code| - 1], code[|code| - 1];
      assert code == a + [i];
      RunSnoc(k, m, a, i);
      LocationAfter(k, m, a);
      LocationStep(k, Run(k, m, a).value, i);
      AdvancesSnoc(a, i);
      SumSnoc(Advances(a), i, k.codeFactor);
    }
  }

  lemma LocationStep(k: Config, m: Machine, i: Instr)
    requires Step(k, m, i).Ok? && !i.SetLoc?
    ensures Step(k, m, i).value.row.pc == m.row.pc + if i.AdvanceLoc? then i.delta * k.codeFactor else 0
  {
  }

  lemma SumSnoc(s: seq<nat>, i: Instr, f: int)
    ensures f * Sum(s + AdvanceOf(i)) == f * Sum(s) + if i.AdvanceLoc? then i.delta * f else 0
  {
    if i.AdvanceLoc? {
      var d, sum := i.delta, Sum(s);
      assert s + AdvanceOf(i) == s + [d] && (s + [d])[..|s|] == s;
      assert f * (d + sum) == d * f + f * sum;
    } else {
      assert s + AdvanceOf(i) == s;
    }
  }

  /** A row's location is what the last set_loc behind it says, or the initial location, plus the code alignment
      factor times the sum of the advances since. */
  lemma RowLocation(e: Entry, n: nat, j: nat, a: seq<Instr>, x: int, b: seq<Instr>)
    requires Decode(e).Ok? && n < |Decode(e).value.table| && RowAt(CodeOf(e), n, j)
    requires NoSetLoc(b) && (CodeOf(e)[..j] == a + [SetLoc(x)] + b || (CodeOf(e)[..j] == b && x == InitialLocation(e)))
    ensures Decode(e).value.table[n].pc == x + OwnerOf(e).codeFactor * Sum(Advances(b))
  {
    var k, start := MachineOf(e);
    RowState(k, start, CodeOf(e), n, j);
    if CodeOf(e)[..j] == b && x == InitialLocation(e) {
      LocationAfter(k, start, b);
    } else {
      RunConcat(k, start, a + [SetLoc(x)], b);
      RunSnoc(k, start, a, SetLoc(x));
      LocationAfter(k, Run(k, start, a + [SetLoc(x)]).value, b);
    }
  }

  // ----- reg_order -----

  predicate Mentions(code: seq<Instr>, r: nat) {
    exists n :: 0 <= n < |code| && NamesRegister(code[n], r)
  }

  /** A register is listed if and only if the CIE lists it or an instruction names it. */
  lemma OrderIff(e: Entry, r: nat)
    requires Decode(e).Ok?
    ensures r in Decode(e).value.order <==> r in BaseOrder(e) || Mentions(CodeOf(e), r)
  {
    var k, start := MachineOf(e);
    OrderRunIff(k, start, CodeOf(e), r);
  }

  lemma {:induction false} OrderRunIff(k: Config, m: Machine, code: seq<Instr>, r: nat)
    requires Run(k, m, code).Ok?
    ensures r in Run(k, m, code).value.order <==> r in m.order || Mentions(code, r)
    decreases |code|
  {
    if code != [] {
      var a, i := code[..|code| - 1], code[|code| - 1];
      assert code == a + [i];
      RunSnoc(k, m, a, i);
      OrderRunIff(k, m, a, r);
      assert forall n :: 0 <= n < |a| ==> code[n] == a[n];
      assert Mentions(code, r) <==> Mentions(a, r) || NamesRegister(i, r);
    }
  }

  // ----- an example -----

  /** The usual CIE of x86-64: CFA at r7 + 8, the return address in r16 at CFA - 8. */
  lemma UsualCie(c: Cie)
    requires c == Cie(1, -8, [DefCfa(7, 8), SetOffset(16, 1)])
    ensures DecodeCie(c) == Ok(Decoded([Row(0, CfaRule(Some(7), Some(8), None), map[16 := AtOffset(-8)])], [16]))
  {
    var k, i, j := CieConfig(c), DefCfa(7, 8), SetOffset(16, 1);
    var m := CieStart().(row := Row(0, CfaRule(Some(7), Some(8), None), map[]));
    assert Step(k, CieStart(), i) == Ok(m);
    var m' := m.(row := m.row.(regs := map[16 := AtOffset(-8)]), order := [16]);
    assert RuleOf(k, j) == AtOffset(-8) && map[][16 := AtOffset(-8)] == m'.row.regs && AddToOrder([], 16) == [16];
    assert Step(k, m, j) == Ok(m');
    assert c.instructions[1..] == [j] && [j][1..] == [];
    assert Run(k, m', []) == Ok(m') && Run(k, m, [j]) == Ok(m') && Run(k, CieStart(), c.instructions) == Ok(m');
    assert Finish(m').table == [m'.row];
  }

  // ----- every row, every register -----

  /** Each row has its instructions behind it, and among these each register's rule has its writer, or none:
      RowRule and RowRuleInherited speak of every rule of every table. The same holds of the CFA's parts. */
  lemma RulesCovered(e: Entry, n: nat, touches: Instr -> bool) returns (j: nat, w: Writer)
    requires Decode(e).Ok? && n < |Decode(e).value.table| && forall i :: touches(i) ==> !i.RestoreState?
    ensures RowAt(CodeOf(e), n, j) && IsWriter(touches, CodeOf(e)[..j], w)
  {
    var k, start := MachineOf(e);
    RowsOf(e, k, start);
    j := FindRow(CodeOf(e), n);
    DecodesIff(e);
    var p := CodeOf(e)[..j];
    assert forall x :: 0 <= x <= |p| ==> p[..x] == CodeOf(e)[..x];
    w := FindWriter(touches, p);
  }
}
