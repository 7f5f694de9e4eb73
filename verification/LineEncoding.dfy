/** The encoding of line number programs (section 6.2.5 of DWARF v4), and that reading inverts it. */
module LineEncoding {
  import opened Common
  import opened Streams
  import Leb128
  import opened LineTable
  import opened LineRegisters
  import opened LineProgram

  /** `b` encodes the natural number `n` in LEB128. */
  ghost predicate Uleb(n: int, b: seq<byte>) {
    0 < |b| && Leb128.FitsUnsigned(n, |b|) && b == Leb128.Encode(n, |b|)
  }

  ghost predicate Sleb(z: int, b: seq<byte>) {
    0 < |b| && Leb128.FitsSigned(z, |b|) && b == Leb128.Encode(z, |b|)
  }

  /** `b` encodes a number in `n` bytes. */
  ghost predicate Uint(v: nat, n: nat, littleEndian: bool, b: seq<byte>) {
    v < Pow256(n) && b == ToBytes(v, n, littleEndian)
  }

  /** `f` is what the file entry parser reads from `b`, whatever follows. */
  ghost predicate FileBytes(st: Structs, f: FileEntry, b: seq<byte>) {
    forall rest {:trigger FileReads(st, f, b, rest)} :: FileReads(st, f, b, rest)
  }

  ghost predicate FileReads(st: Structs, f: FileEntry, b: seq<byte>, rest: seq<byte>) {
    st.fileEntry(b + rest) == Some(ParsedFile(f, |b|))
  }

  /** A standard opcode and its operand. */
  ghost predicate StandardBytes(h: Header, st: Structs, c: Cmd, op: nat, x: seq<byte>) {
    && op < h.opcodeBase
    && match c
       case CopyRow => op == 1 && x == []
       case AdvancePc(n) => op == 2 && Uleb(n, x)
       case AdvanceLine(n) => op == 3 && Sleb(n, x)
       case SetFile(n) => op == 4 && Uleb(n, x)
       case SetColumn(n) => op == 5 && Uleb(n, x)
       case NegateStmt => op == 6 && x == []
       case SetBasicBlock => op == 7 && x == []
       case ConstAddPc => op == 8 && x == []
       case FixedAdvancePc(n) => op == 9 && Uint(n, 2, st.littleEndian, x)
       case SetPrologueEnd => op == 10 && x == []
       case SetEpilogueBegin => op == 11 && x == []
       case SetIsa(n) => op == 12 && Uleb(n, x)
       case _ => false
  }

  /** An extended opcode and its operands. */
  ghost predicate ExtendedBytes(st: Structs, c: Cmd, op: nat, x: seq<byte>) {
    match c
    case EndSequence => op == 1 && x == []
    case SetAddress(a) => op == 2 && Uint(a, st.addressSize, st.littleEndian, x)
    case DefineFile(f) => op == 3 && FileBytes(st, f, x)
    case SetDiscriminator(d) => op == 4 && Uleb(d, x)
    case UnknownExtended => op != 1 && op != 2 && op != 3 && op != 4
    case _ => false
  }

  /** The bytes of a command: a special opcode on its own, a standard opcode with its operand, or a zero byte, the
      length of the rest, and an extended opcode with its operands. */
  datatype Shape = OneByte | StandardShape(operand: seq<byte>) | ExtendedShape(length: seq<byte>, op: byte, operands: seq<byte>)

  /** A zero byte, and what belongs to the extended opcode. */
  ghost predicate IsExtended(b: seq<byte>, len: seq<byte>, op: byte, x: seq<byte>) {
    b != [] && b[0] == 0 && b[1..] == len + ([op] + x)
  }

  ghost predicate EncodesAs(h: Header, st: Structs, c: Cmd, b: seq<byte>, shape: Shape) {
    match shape
    case OneByte => c.Special? && h.opcodeBase <= c.opcode < 256 && b == [c.opcode]
    case StandardShape(x) => b != [] && b == [b[0]] + x && 0 < b[0] && StandardBytes(h, st, c, b[0], x)
    case ExtendedShape(len, op, x) => 0 < h.opcodeBase && IsExtended(b, len, op, x) && Uleb(1 + |x|, len) && ExtendedBytes(st, c, op, x)
  }

  ghost predicate Encodes(h: Header, st: Structs, c: Cmd, b: seq<byte>) {
    exists shape :: EncodesAs(h, st, c, b, shape)
  }

  lemma UlebRead(n: int, b: seq<byte>, rest: seq<byte>)
    requires Uleb(n, b)
    ensures Leb128.Unsigned(b + rest) == Some(Leb128.Decoded(n, |b|))
  {
    Leb128.UnsignedRoundTrip(n, |b|, rest);
  }

  lemma SlebRead(z: int, b: seq<byte>, rest: seq<byte>)
    requires Sleb(z, b)
    ensures Leb128.Signed(b + rest) == Some(Leb128.Decoded(z, |b|))
  {
    Leb128.SignedRoundTrip(z, |b|, rest);
  }

  lemma UintRead(v: nat, n: nat, littleEndian: bool, b: seq<byte>, rest: seq<byte>)
    requires Uint(v, n, littleEndian, b)
    ensures UintAt(b + rest, n, littleEndian) == Some(Leb128.Decoded(v, n)) && |b| == n
  {
    NumberOfBytes(v, n, littleEndian);
    assert (b + rest)[..n] == b;
  }

  lemma StandardRead(h: Header, st: Structs, c: Cmd, op: nat, x: seq<byte>, rest: seq<byte>)
    ensures StandardBytes(h, st, c, op, x) ==> Standard(st, op, x + rest) == Ok(Fetched(c, 1 + |x|))
  {
    if StandardBytes(h, st, c, op, x) {
      match c
      case AdvancePc(n) => UlebRead(n, x, rest);
      case AdvanceLine(n) => SlebRead(n, x, rest);
      case SetFile(n) => UlebRead(n, x, rest);
      case SetColumn(n) => UlebRead(n, x, rest);
      case FixedAdvancePc(n) => UintRead(n, 2, st.littleEndian, x, rest);
      case SetIsa(n) => UlebRead(n, x, rest);
      case _ =>
    }
  }

  lemma ExtendedRead(st: Structs, c: Cmd, op: nat, x: seq<byte>, rest: seq<byte>, n: nat)
    requires n >= 2
    ensures ExtendedBytes(st, c, op, x) ==> Extended(st, op, x + rest, 1 + |x|, n) == Ok(Fetched(c, n + |x|))
  {
    if ExtendedBytes(st, c, op, x) {
      match c
      case SetAddress(a) => UintRead(a, st.addressSize, st.littleEndian, x, rest);
      case SetDiscriminator(d) => UlebRead(d, x, rest);
      case DefineFile(f) => assert FileReads(st, f, x, rest);
      case _ =>
    }
  }

  /** Reading the bytes of a command, whatever follows, gives the command and its length. */
  lemma FetchEncoded(h: Header, st: Structs, c: Cmd, b: seq<byte>, rest: seq<byte>)
    requires Encodes(h, st, c, b)
    ensures Fetch(h, st, b + rest) == Ok(Fetched(c, |b|))
  {
    var shape :| EncodesAs(h, st, c, b, shape);
    match shape
    case OneByte =>
    case StandardShape(x) => StandardEncoded(h, st, c, b, x, rest, b + rest);
    case ExtendedShape(len, op, x) =>
      LengthyEncoded(h, st, c, b, len, op, x, rest, b + rest);
      ZeroFirst(h, st, b + rest, (b + rest)[1..]);
  }

  lemma StandardEncoded(h: Header, st: Structs, c: Cmd, b: seq<byte>, x: seq<byte>, rest: seq<byte>, s: seq<byte>)
    requires s == b + rest
    ensures EncodesAs(h, st, c, b, StandardShape(x)) ==> Fetch(h, st, s) == Ok(Fetched(c, |b|))
  {
    if EncodesAs(h, st, c, b, StandardShape(x)) {
      assert s[1..] == x + rest;
      StandardRead(h, st, c, b[0], x, rest);
    }
  }

  lemma LengthyEncoded(h: Header, st: Structs, c: Cmd, b: seq<byte>, len: seq<byte>, op: byte, x: seq<byte>, rest: seq<byte>, s: seq<byte>)
    requires s == b + rest
    ensures EncodesAs(h, st, c, b, ExtendedShape(len, op, x)) ==>
      s != [] && s[0] == 0 && 0 < h.opcodeBase && Lengthy(st, s[1..]) == Ok(Fetched(c, |b|))
  {
    FirstOff(b, len, op, x, rest, s);
    LengthyRead(st, c, len, op, x, rest, s, |b|);
  }

  lemma ZeroFirst(h: Header, st: Structs, s: seq<byte>, t: seq<byte>)
    requires s != [] && s[0] == 0 && s[1..] == t && 0 < h.opcodeBase
    ensures Fetch(h, st, s) == Lengthy(st, t)
  {
  }

  lemma FirstOff(b: seq<byte>, len: seq<byte>, op: byte, x: seq<byte>, rest: seq<byte>, s: seq<byte>)
    requires s == b + rest
    ensures IsExtended(b, len, op, x) ==> IsExtended(s, len, op, x + rest) && |b| == 2 + |len| + |x|
  {
    if IsExtended(b, len, op, x) {
      var w := [op] + x;
      assert |b[1..]| == |len| + |w|;
      assert s[1..] == (len + w) + rest;
      assert w + rest == [op] + (x + rest);
    }
  }

  lemma LengthyRead(st: Structs, c: Cmd, len: seq<byte>, op: byte, x: seq<byte>, rest: seq<byte>, s: seq<byte>, n: nat)
    ensures n == 2 + |len| + |x| && IsExtended(s, len, op, x + rest) && Uleb(1 + |x|, len) && ExtendedBytes(st, c, op, x) ==>
      Lengthy(st, s[1..]) == Ok(Fetched(c, n))
  {
    if n == 2 + |len| + |x| && IsExtended(s, len, op, x + rest) && Uleb(1 + |x|, len) {
      var y := [op] + (x + rest);
      UlebRead(1 + |x|, len, y);
      assert Drop(s[1..], |len|) == y && y[0] == op && y[1..] == x + rest;
      ExtendedRead(st, c, op, x, rest, 2 + |len|);
    }
  }

  /** The opcode that an entry shows is the byte that was read. */
  lemma OpcodeIsByte(h: Header, st: Structs, c: Cmd, b: seq<byte>, shape: Shape)
    requires Emits(c) && EncodesAs(h, st, c, b, shape)
    ensures OpcodeOf(c) == (if shape.ExtendedShape? then shape.op else b[0]) && (Extends(c) <==> shape.ExtendedShape?)
  {
  }

  /** Where no command can be read: at the end of the data, and at an opcode below opcode_base without a meaning. */
  lemma FetchErrors(h: Header, st: Structs, s: seq<byte>)
    ensures s == [] ==> Fetch(h, st, s) == Err(ParseError)
    ensures s != [] && 12 < s[0] < h.opcodeBase ==> Fetch(h, st, s) == Err(InvalidOpcode)
    ensures s != [] && Fetch(h, st, s) == Err(InvalidOpcode) ==> 12 < s[0] < h.opcodeBase
  {
  }

  // ----- programs -----

  function Concat(bs: seq<seq<byte>>): seq<byte> {
    if bs == [] then [] else bs[0] + Concat(bs[1..])
  }

  lemma ConcatFirst(bs: seq<seq<byte>>, b: seq<byte>, more: seq<seq<byte>>, rest: seq<byte>, later: seq<byte>)
    requires bs != [] && b == bs[0] && more == bs[1..] && later == Concat(more) + rest
    ensures Concat(bs) + rest == b + later && |Concat(bs)| == |b| + |Concat(more)|
  {
  }

  ghost predicate EncodesAll(h: Header, st: Structs, cmds: seq<Cmd>, bs: seq<seq<byte>>) {
    |bs| == |cmds| && forall i :: 0 <= i < |cmds| ==> Encodes(h, st, cmds[i], bs[i])
  }

  lemma NotEmpty(h: Header, st: Structs, c: Cmd, b: seq<byte>)
    requires Encodes(h, st, c, b)
    ensures 0 < |b|
  {
  }

  lemma FirstEncoded(h: Header, st: Structs, c: Cmd, b: seq<byte>, later: seq<byte>, data: seq<byte>, off: nat, next: nat)
    requires Encodes(h, st, c, b) && Drop(data, off) == b + later && next == off + |b|
    ensures 0 < |b| && Fetcher(h, st, data)(off) == Ok(Fetched(c, |b|)) && Drop(data, next) == later
  {
    NotEmpty(h, st, c, b);
    FetchEncoded(h, st, c, b, later);
    DropDrop(data, off, |b|);
    assert Drop(b + later, |b|) == later;
  }

  lemma EncodesRest(h: Header, st: Structs, cmds: seq<Cmd>, bs: seq<seq<byte>>)
    requires EncodesAll(h, st, cmds, bs) && bs != []
    ensures EncodesAll(h, st, cmds[1..], bs[1..])
  {
    assert forall i :: 0 <= i < |bs[1..]| ==> bs[1..][i] == bs[i + 1] && cmds[1..][i] == cmds[i + 1];
  }

  /** Reading a program gives the commands that were written. */
  lemma {:induction false} CommandsEncoded(h: Header, st: Structs, cmds: seq<Cmd>, bs: seq<seq<byte>>, data: seq<byte>, off: nat, end: nat, rest: seq<byte>)
    requires EncodesAll(h, st, cmds, bs) && Drop(data, off) == Concat(bs) + rest && end == off + |Concat(bs)|
    ensures Commands(Fetcher(h, st, data), off, end) == cmds
    decreases |bs|
  {
    if bs != [] {
      var b, more, c := bs[0], bs[1..], cmds[0];
      var next, later := off + |b|, Concat(more) + rest;
      ConcatFirst(bs, b, more, rest, later);
      FirstEncoded(h, st, c, b, later, data, off, next);
      EncodesRest(h, st, cmds, bs);
      CommandsEncoded(h, st, cmds[1..], more, data, next, end, rest);
      FirstCommand(Fetcher(h, st, data), Fetched(c, |b|), off, next, end, cmds[1..]);
      assert cmds == [c] + cmds[1..];
    }
  }

  /** Special opcodes divide by line_range and by maximum_operations_per_instruction, const_add_pc by line_range. */
  ghost predicate NoZeroDivision(h: Header, cmds: seq<Cmd>) {
    && ((exists i :: 0 <= i < |cmds| && cmds[i].Special?) ==> h.lineRange > 0 && h.maxOps > 0)
    && (ConstAddPc in cmds ==> h.lineRange > 0)
  }

  lemma NoZeroDivisionRest(h: Header, cmds: seq<Cmd>)
    requires cmds != []
    ensures NoZeroDivision(h, cmds) <==> Divides(h, cmds[0]) && NoZeroDivision(h, cmds[1..])
  {
    var c, more := cmds[0], cmds[1..];
    assert cmds == [c] + more;
    if c.Special? { assert cmds[0].Special?; }
    if i :| 0 <= i < |more| && more[i].Special? { assert cmds[i + 1].Special?; }
    if i :| 0 <= i < |cmds| && cmds[i].Special? { assert i > 0 ==> more[i - 1].Special?; }
    if c.ConstAddPc? { assert c == ConstAddPc; }
  }

  lemma {:induction false} DecodesEncoded(h: Header, st: Structs, cmds: seq<Cmd>, bs: seq<seq<byte>>, data: seq<byte>, off: nat, end: nat, rest: seq<byte>, m: Machine)
    requires EncodesAll(h, st, cmds, bs) && Drop(data, off) == Concat(bs) + rest && end == off + |Concat(bs)|
    ensures Decode(h, Fetcher(h, st, data), off, end, m).Ok? <==> NoZeroDivision(h, cmds)
    ensures Decode(h, Fetcher(h, st, data), off, end, m).Err? ==> Decode(h, Fetcher(h, st, data), off, end, m).error == ZeroDivision
    decreases |bs|
  {
    if bs != [] {
      var b, more, c := bs[0], bs[1..], cmds[0];
      var next, later := off + |b|, Concat(more) + rest;
      ConcatFirst(bs, b, more, rest, later);
      FirstEncoded(h, st, c, b, later, data, off, next);
      EncodesRest(h, st, cmds, bs);
      NoZeroDivisionRest(h, cmds);
      DecodeRound(h, Fetcher(h, st, data), off, end, m, Ok(c), next);
      if Divides(h, c) { DecodesEncoded(h, st, cmds[1..], more, data, next, end, rest, Exec(h, m, c).value); }
    }
  }

  /** A written program is read back and run, unless it divides by zero: its entries are those its commands should
      leave. */
  lemma ProgramEncoded(h: Header, st: Structs, cmds: seq<Cmd>, bs: seq<seq<byte>>, data: seq<byte>, off: nat, end: nat, rest: seq<byte>)
    requires EncodesAll(h, st, cmds, bs) && Drop(data, off) == Concat(bs) + rest && end == off + |Concat(bs)|
    ensures match Decode(h, Fetcher(h, st, data), off, end, Start(h))
      case Ok(m) => NoZeroDivision(h, cmds) && EntriesOf(h, cmds, m.entries)
      case Err(e) => !NoZeroDivision(h, cmds) && e == ZeroDivision
  {
    CommandsEncoded(h, st, cmds, bs, data, off, end, rest);
    DecodesEncoded(h, st, cmds, bs, data, off, end, rest, Start(h));
    if Decode(h, Fetcher(h, st, data), off, end, Start(h)).Ok? { DecodedEntries(h, Fetcher(h, st, data), off, end); }
  }
}
