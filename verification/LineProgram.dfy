/**
 The line-number program of kern/dwarf_lines.c (section 6.2 of DWARF 4): a byte-coded
 machine that emits rows, run only until two consecutive rows bracket an address.
 */
module LineProgram {
  import opened Arith
  import opened Leb128
  import opened DwarfBytes

  const HALF32: int := 0x8000_0000

  datatype State = State(address: nat, line: int, column: int, endSequence: bool, discriminator: int)

  datatype Info = Info(minLength: Byte, maxOps: Byte, lineBase: int, lineRange: Byte, opcodeBase: Byte)

  const Start := State(0, 1, 0, false, 0)

  /** A signed 32-bit value. */
  function Int32(x: int): (r: int) {
    (x + HALF32) % MOD32 - HALF32
  }

  // ------------------------------------------------------------ instructions

  datatype Instr =
    | Copy
    | AdvancePc(ops: nat)
    | AdvanceLine(lines: int)
    | SetFile(file: nat)
    | SetColumn(column: nat)
    | NegateStmt
    | SetBasicBlock
    | ConstAddPc
    | FixedAdvancePc(bytes: nat)
    | SetPrologueEnd
    | SetEpilogueBegin
    | SetIsa(isa: nat)
    | Special(opcode: Byte)
    | EndSequence
    | SetAddress(address: nat)
    | DefineFile(name: seq<Byte>, dir: nat, time: nat, size: nat)
    | SetDiscriminator(discriminator: nat)

  /** The state afterwards, and the row appended to the table, if any. */
  datatype Effect = Effect(next: State, row: Option<State>)

  function Advance(info: Info, address: nat, ops: nat): (r: nat) {
    if info.maxOps == 0 then address else (address + info.minLength * (ops / info.maxOps)) % MOD64
  }

  /** Address and line of a special opcode. */
  function SpecialRow(info: Info, op: Byte, st: State): (r: State) {
    if info.lineRange == 0 then st
    else
      var adjusted := (op - info.opcodeBase) % 256;
      State(Advance(info, st.address, adjusted / info.lineRange),
            Int32(st.line + info.lineBase + adjusted % info.lineRange), st.column, st.endSequence, 0)
  }

  function Apply(info: Info, i: Instr, st: State): (e: Effect) {
    match i
    case Copy => Effect(st.(discriminator := 0), Some(st))
    case AdvancePc(n) => Effect(st.(address := Advance(info, st.address, n)), None)
    case AdvanceLine(d) => Effect(st.(line := Int32(st.line + d)), None)
    case SetColumn(c) => Effect(st.(column := Int32(c)), None)
    case ConstAddPc => Effect(st.(address := SpecialRow(info, 255, st).address), None)
    case FixedAdvancePc(n) => Effect(st.(address := (st.address + n) % MOD64), None)
    case Special(op) => var row := SpecialRow(info, op, st); Effect(row, Some(row))
    case EndSequence => Effect(Start, Some(st.(endSequence := true)))
    case SetAddress(a) => Effect(st.(address := a), None)
    case SetDiscriminator(d) => Effect(st.(discriminator := Int32(d)), None)
    case _ => Effect(st, None)
  }

  // ------------------------------------------------------------ the table of rows

  /** All rows, and the state the program ends in unless it goes wrong. */
  datatype Table = Table(rows: seq<State>, last: Option<State>)

  datatype Answer = Found(st: State) | Bad

  /** The first row, starting with an earlier one, that has an address up to p and is
      followed by a row beyond p. */
  function Search(prev: State, rows: seq<State>, p: nat): (r: Option<State>)
    decreases |rows|
  {
    if rows == [] then None
    else if prev.address <= p < rows[0].address then Some(prev)
    else Search(rows[0], rows[1..], p)
  }

  /** What a search that stops early has to answer. */
  function Lookup(prev: State, t: Table, p: nat): (a: Answer) {
    match Search(prev, t.rows, p)
    case Some(st) => Found(st)
    case None => if t.last.Some? then Found(t.last.value) else Bad
  }

  function Prefixed(row: Option<State>, t: Table): (r: Table) {
    if row.Some? then t.(rows := [row.value] + t.rows) else t
  }

  /** The table of a list of instructions. */
  function RowsOf(info: Info, code: seq<Instr>, st: State): (t: Table) {
    if code == [] then Table([], Some(st))
    else
      var e := Apply(info, code[0], st);
      Prefixed(e.row, RowsOf(info, code[1..], e.next))
  }

  predicate Ascending(rows: seq<State>) {
    forall i, j :: 0 <= i < j < |rows| ==> rows[i].address <= rows[j].address
  }

  /** In one sequence of rows the answer is the last row with an address up to p, whatever
      the row remembered from before the first one is. */
  lemma {:induction false} LastRowUpTo(junk: State, rows: seq<State>, p: nat) returns (k: nat)
    requires |rows| > 0 && Ascending(rows) && rows[0].address <= p < rows[|rows| - 1].address
    ensures k < |rows| && Search(junk, rows, p) == Some(rows[k])
    ensures rows[k].address <= p && forall j :: k < j < |rows| ==> p < rows[j].address
    decreases |rows|
  {
    var rest := rows[1..];
    if p < rows[1].address {
      k := 0;
      assert Search(rows[0], rest, p) == Some(rows[0]);
    } else {
      k := LastRowUpTo(rows[0], rest, p);
      assert rows[k + 1] == rest[k];
      k := k + 1;
      forall j | k < j < |rows| ensures p < rows[j].address {
        assert rows[j] == rest[j - 1];
      }
      assert Search(junk, rows, p) == Search(rows[0], rest, p);
    }
  }

  /** Below the first row the answer is exactly what the uninitialised row happens to hold,
      if its address is not above p. */
  lemma JunkIff(junk: State, rows: seq<State>, p: nat)
    requires |rows| > 0 && p < rows[0].address && Ascending(rows)
    ensures junk.address <= p ==> Search(junk, rows, p) == Some(junk)
    ensures junk.address > p ==> Search(junk, rows, p) == None
  {
    if junk.address > p {
      NothingBelow(rows[0], rows[1..], p);
    }
  }

  lemma {:induction false} NothingBelow(prev: State, rows: seq<State>, p: nat)
    requires p < prev.address && forall i :: 0 <= i < |rows| ==> p < rows[i].address
    ensures Search(prev, rows, p) == None
    decreases |rows|
  {
    if rows != [] {
      NothingBelow(rows[0], rows[1..], p);
    }
  }

  // ------------------------------------------------------------ bytes

  datatype Decoded = Decoded(instr: Instr, next: nat)

  predicate HasSigned(mem: seq<Byte>, at: nat) {
    HasEnd(mem, at) && (Negative(mem, at) ==> Len(mem, at) <= 4 || Len(mem, at) > 9)
  }

  /** The instruction of a standard opcode whose operands start at `at`; nothing where the
      source panics or would read outside the section. */
  function Standard(mem: seq<Byte>, op: Byte, at: nat, info: Info): (d: Option<Decoded>) {
    if op == 1 then Some(Decoded(Copy, at))
    else if op == 2 then
      if HasEnd(mem, at) && info.maxOps > 0
      then Some(Decoded(AdvancePc(Unsigned(mem, at)), at + Len(mem, at))) else None
    else if op == 3 then
      if HasSigned(mem, at) then Some(Decoded(AdvanceLine(SValue(mem, at)), at + Len(mem, at))) else None
    else if op == 4 then
      if HasEnd(mem, at) then Some(Decoded(SetFile(Unsigned(mem, at)), at + Len(mem, at))) else None
    else if op == 5 then
      if HasEnd(mem, at) then Some(Decoded(SetColumn(Unsigned(mem, at)), at + Len(mem, at))) else None
    else if op == 6 then Some(Decoded(NegateStmt, at))
    else if op == 7 then Some(Decoded(SetBasicBlock, at))
    else if op == 8 then
      if info.lineRange > 0 && info.maxOps > 0 then Some(Decoded(ConstAddPc, at)) else None
    else if op == 9 then
      if at + 2 <= |mem| then Some(Decoded(FixedAdvancePc(Little(mem, at, 2)), at + 2)) else None
    else if op == 10 then Some(Decoded(SetPrologueEnd, at))
    else if op == 11 then Some(Decoded(SetEpilogueBegin, at))
    else if op == 12 then
      if HasEnd(mem, at) then Some(Decoded(SetIsa(Unsigned(mem, at)), at + Len(mem, at))) else None
    else None
  }

  /** The operands of DW_LNE_define_file. */
  function FileEntry(mem: seq<Byte>, at: nat): (d: Option<Decoded>) {
    if !HasNul(mem, at) then None
    else
      var p := AfterNul(mem, at);
      if !HasEnd(mem, p) then None
      else
        var q := p + Len(mem, p);
        if !HasEnd(mem, q) then None
        else
          var r := q + Len(mem, q);
          if !HasEnd(mem, r) then None
          else
            Some(Decoded(DefineFile(mem[at..p - 1], Unsigned(mem, p), Unsigned(mem, q), Unsigned(mem, r)),
                         r + Len(mem, r)))
  }

  function ExtendedAt(mem: seq<Byte>, op: Byte, at: nat): (d: Option<Decoded>) {
    if op == 1 then Some(Decoded(EndSequence, at))
    else if op == 2 then
      if at + 8 <= |mem| then Some(Decoded(SetAddress(Little(mem, at, 8)), at + 8)) else None
    else if op == 3 then FileEntry(mem, at)
    else if op == 4 then
      if HasEnd(mem, at) then Some(Decoded(SetDiscriminator(Unsigned(mem, at)), at + Len(mem, at))) else None
    else None
  }

  /** After the zero byte: the length must agree with the operands. */
  function Extended(mem: seq<Byte>, at: nat): (d: Option<Decoded>) {
    if !HasEnd(mem, at) then None
    else
      var p := at + Len(mem, at);
      if p >= |mem| then None
      else
        var d := ExtendedAt(mem, mem[p], p + 1);
        if d.Some? && d.value.next == p + Unsigned(mem, at) then d else None
  }

  function Decode(mem: seq<Byte>, pc: nat, info: Info): (d: Option<Decoded>)
    ensures d.Some? ==> d.value.next > pc
  {
    if pc >= |mem| then None
    else if mem[pc] == 0 then Extended(mem, pc + 1)
    else if mem[pc] < info.opcodeBase then Standard(mem, mem[pc], pc + 1, info)
    else if info.lineRange > 0 && info.maxOps > 0 then Some(Decoded(Special(mem[pc]), pc + 1))
    else None
  }

  /** Standard opcodes from 13 on and extended opcodes from 5 on are unknown, and an extended
      opcode ends where its length says. */
  lemma Unknown(mem: seq<Byte>, pc: nat, info: Info)
    requires pc < |mem|
    ensures 12 < mem[pc] < info.opcodeBase ==> Decode(mem, pc, info) == None
    ensures mem[pc] == 0 && Decode(mem, pc, info).Some? ==>
      HasEnd(mem, pc + 1) &&
      var p := pc + 1 + Len(mem, pc + 1);
      p < |mem| && 1 <= mem[p] <= 4 && Decode(mem, pc, info).value.next == p + Unsigned(mem, pc + 1)
  {
    hide HasEnd, Len, Unsigned;
  }

  /** The table of the program between pc and end. */
  function Rows(mem: seq<Byte>, pc: nat, end: nat, info: Info, st: State): (t: Table)
    decreases end - pc
  {
    if pc >= end then Table([], Some(st))
    else
      var d := Decode(mem, pc, info);
      if d.None? then Table([], None)
      else
        var e := Apply(info, d.value.instr, st);
        Prefixed(e.row, Rows(mem, d.value.next, end, info, e.next))
  }

  // ------------------------------------------------------------ the machine

  /** An extended opcode, from just after its zero byte. `row` is the state at the point
      where the source compares it with the remembered row. */
  method RunExtended(mem: seq<Byte>, at: nat, st: State) returns (ok: bool, pc: nat, next: State, row: Option<State>)
    ensures ok <==> Extended(mem, at).Some?
    ensures ok ==> pc == Extended(mem, at).value.next
    ensures ok ==> forall info :: Effect(next, row) == Apply(info, Extended(mem, at).value.instr, st)
  {
    hide HasEnd, Len, UValue;
    ok, pc, next, row := false, at, st, None;
    if !HasEnd(mem, pc) {
      return;
    }
    var length, count := ReadUleb(mem, pc);
    pc := pc + count;
    var opcodeEnd := pc + length;
    if pc >= |mem| {
      return;
    }
    var opcode := mem[pc];
    pc := pc + 1;
    if opcode == 1 {
      row := Some(st.(endSequence := true));
      next := State(0, 1, 0, false, 0);
    } else if opcode == 2 {
      if pc + 8 > |mem| {
        return;
      }
      var address := ReadLittle(mem, pc, 8);
      next := next.(address := address);
      pc := pc + 8;
    } else if opcode == 3 {
      var good;
      good, pc := SkipFile(mem, pc);
      if !good {
        return;
      }
    } else if opcode == 4 {
      if !HasEnd(mem, pc) {
        return;
      }
      var discriminator, n := ReadUleb(mem, pc);
      next := next.(discriminator := Int32(discriminator));
      pc := pc + n;
    } else {
      return;
    }
    ok := pc == opcodeEnd;
  }

  method SkipFile(mem: seq<Byte>, at: nat) returns (ok: bool, pc: nat)
    ensures ok <==> FileEntry(mem, at).Some?
    ensures ok ==> pc == FileEntry(mem, at).value.next
  {
    ok, pc := false, at;
    while pc < |mem| && mem[pc] != 0
      invariant at <= pc && (HasNul(mem, pc) <==> HasNul(mem, at))
      invariant HasNul(mem, at) ==> AfterNul(mem, pc) == AfterNul(mem, at)
      decreases |mem| - pc
    {
      pc := pc + 1;
    }
    if pc >= |mem| {
      return;
    }
    pc := pc + 1;
    if !HasEnd(mem, pc) {
      return;
    }
    var dir, m := ReadUleb(mem, pc);
    pc := pc + m;
    if !HasEnd(mem, pc) {
      return;
    }
    var time, n := ReadUleb(mem, pc);
    pc := pc + n;
    if !HasEnd(mem, pc) {
      return;
    }
    var size, k := ReadUleb(mem, pc);
    pc := pc + k;
    ok := true;
  }

  /** A standard opcode, from its operands on. */
  method RunStandard(mem: seq<Byte>, opcode: Byte, at: nat, info: Info, st: State)
    returns (ok: bool, pc: nat, next: State, row: Option<State>)
    requires opcode > 0
    ensures ok <==> Standard(mem, opcode, at, info).Some?
    ensures ok ==> pc == Standard(mem, opcode, at, info).value.next
    ensures ok ==> Effect(next, row) == Apply(info, Standard(mem, opcode, at, info).value.instr, st)
  {
    hide Int32, HasEnd, Len, UValue, SValue, Negative, Little;
    ok, pc, next, row := false, at, st, None;
    if opcode == 1 {
      row := Some(next);
      next := next.(discriminator := 0);
    } else if opcode == 2 || opcode == 4 || opcode == 5 || opcode == 12 {
      if !HasEnd(mem, pc) || (opcode == 2 && info.maxOps == 0) {
        return;
      }
      var value, count := ReadUleb(mem, pc);
      if opcode == 2 {
        next := next.(address := Advance(info, next.address, value));
      } else if opcode == 5 {
        next := next.(column := Int32(value));
      }
      pc := pc + count;
    } else if opcode == 3 {
      if !HasSigned(mem, pc) {
        return;
      }
      var lines, count := ReadSleb(mem, pc);
      LowBits(next.line, lines, SValue(mem, pc));
      next := next.(line := Int32(next.line + Int32(lines)));
      pc := pc + count;
    } else if opcode == 8 {
      if info.lineRange == 0 || info.maxOps == 0 {
        return;
      }
      var adjusted := (255 - info.opcodeBase) % 256;
      next := next.(address := Advance(info, next.address, adjusted / info.lineRange));
    } else if opcode == 9 {
      if pc + 2 > |mem| {
        return;
      }
      var bytes := ReadLittle(mem, pc, 2);
      next := next.(address := (next.address + bytes) % MOD64);
      pc := pc + 2;
    } else if opcode > 12 {
      return;
    }
    ok := true;
  }

  /** Only the low 32 bits of the operand of DW_LNS_advance_line count. */
  lemma LowBits(line: int, pattern: nat, v: int)
    requires pattern % MOD32 == v % MOD32
    ensures Int32(line + Int32(pattern)) == Int32(line + v)
  {
    var k := pattern / MOD32 - v / MOD32;
    assert pattern == v + MOD32 * k;
    var j := (pattern + HALF32) / MOD32;
    assert Int32(pattern) == pattern - MOD32 * j;
    Int32Shift(line + v, k - j);
    assert line + Int32(pattern) == line + v + MOD32 * (k - j);
  }

  lemma Int32Shift(x: int, k: int)
    ensures Int32(x + MOD32 * k) == Int32(x)
  {
    DivModUnique(x + HALF32 + MOD32 * k, MOD32, (x + HALF32) / MOD32 + k, (x + HALF32) % MOD32);
  }

  /** A special opcode. */
  method RunSpecial(opcode: Byte, info: Info, st: State) returns (ok: bool, next: State)
    ensures ok <==> info.lineRange > 0 && info.maxOps > 0
    ensures ok ==> next == SpecialRow(info, opcode, st)
  {
    hide Advance, Int32;
    ok, next := info.lineRange > 0 && info.maxOps > 0, st;
    if ok {
      var adjusted := (opcode - info.opcodeBase) % 256;
      next := next.(line := Int32(next.line + info.lineBase + adjusted % info.lineRange));
      next := next.(address := Advance(info, next.address, adjusted / info.lineRange));
      next := next.(discriminator := 0);
    }
  }

  /** run_line_number_program. `remembered` stands for the uninitialised row; the answer is
      Bad where the source panics or leaves the section. */
  method RunLineNumberProgram(mem: seq<Byte>, programAddr: nat, endAddr: nat, info: Info, start: State,
                              destination: nat, remembered: State) returns (a: Answer)
    ensures a == Lookup(remembered, Rows(mem, programAddr, endAddr, info, start), destination)
  {
    hide Extended, Standard, HasEnd, SpecialRow;
    var pc, st, last := programAddr, start, remembered;
    while pc < endAddr
      invariant Lookup(remembered, Rows(mem, programAddr, endAddr, info, start), destination)
             == Lookup(last, Rows(mem, pc, endAddr, info, st), destination)
      decreases endAddr - pc
    {
      if pc >= |mem| {
        return Bad;
      }
      var opcode := mem[pc];
      var ok, next, row;
      ghost var at := pc;
      if opcode == 0 {
        ok, pc, next, row := RunExtended(mem, pc + 1, st);
      } else if opcode < info.opcodeBase {
        ok, pc, next, row := RunStandard(mem, opcode, pc + 1, info, st);
      } else {
        pc := pc + 1;
        ok, next := RunSpecial(opcode, info, st);
        row := Some(next);
      }
      if !ok {
        return Bad;
      }
      ghost var rest := Rows(mem, pc, endAddr, info, next);
      assert Rows(mem, at, endAddr, info, st) == Prefixed(row, rest);
      if row.Some? {
        assert Prefixed(row, rest).rows[1..] == rest.rows;
        if last.address <= destination < row.value.address {
          return Found(last);
        }
        last := row.value;
      }
      st := next;
    }
    a := Found(st);
  }

  // ------------------------------------------------------------ writing programs

  /** What the operands of an instruction may be. */
  predicate Encodable(info: Info, i: Instr) {
    match i
    case Special(op) => op >= info.opcodeBase && op > 0 && info.lineRange > 0 && info.maxOps > 0
    case AdvancePc(n) => info.opcodeBase > 2 && info.maxOps > 0 && n < MOD64
    case AdvanceLine(d) => info.opcodeBase > 3 && (-0x800_0000 <= d || |Sleb(d)| > 9)
    case SetFile(n) => info.opcodeBase > 4 && n < MOD64
    case SetColumn(n) => info.opcodeBase > 5 && n < MOD64
    case ConstAddPc => info.opcodeBase > 8 && info.lineRange > 0 && info.maxOps > 0
    case FixedAdvancePc(n) => info.opcodeBase > 9 && n < 0x1_0000
    case SetIsa(n) => info.opcodeBase > 12 && n < MOD64
    case Copy => info.opcodeBase > 1
    case NegateStmt => info.opcodeBase > 6
    case SetBasicBlock => info.opcodeBase > 7
    case SetPrologueEnd => info.opcodeBase > 10
    case SetEpilogueBegin => info.opcodeBase > 11
    case SetAddress(a) => a < MOD64
    case SetDiscriminator(d) => d < MOD64
    case DefineFile(name, a, b, c) => 0 !in name && a < MOD64 && b < MOD64 && c < MOD64 && |ExtendedBody(i)| < MOD64
    case EndSequence => true
  }

  function ExtendedBody(i: Instr): (bs: seq<Byte>) {
    match i
    case EndSequence => [1]
    case SetAddress(a) => [2] + LittleBytes(a, 8)
    case DefineFile(name, a, b, c) => [3] + FileBytes(name, a, b, c)
    case SetDiscriminator(d) => [4] + Uleb(d)
    case _ => []
  }

  function StandardBody(i: Instr): (bs: seq<Byte>) {
    match i
    case Copy => [1]
    case AdvancePc(n) => [2] + Uleb(n)
    case AdvanceLine(d) => [3] + Sleb(d)
    case SetFile(n) => [4] + Uleb(n)
    case SetColumn(n) => [5] + Uleb(n)
    case NegateStmt => [6]
    case SetBasicBlock => [7]
    case ConstAddPc => [8]
    case FixedAdvancePc(n) => [9] + LittleBytes(n, 2)
    case SetPrologueEnd => [10]
    case SetEpilogueBegin => [11]
    case SetIsa(n) => [12] + Uleb(n)
    case Special(op) => [op]
    case _ => []
  }

  /** The bytes of an instruction. */
  function Encode(i: Instr): (bs: seq<Byte>) {
    if ExtendedBody(i) == [] then StandardBody(i)
    else [0] + Uleb(|ExtendedBody(i)|) + ExtendedBody(i)
  }

  /** Sections 6.2.5.2 and 7.21: the numbers of the standard opcodes, and their operands. */
  lemma OpcodeTable(i: Instr)
    ensures ExtendedBody(i) == [] ==>
      match i
      case Copy => Encode(i) == [0x01]
      case AdvancePc(n) => Encode(i) == [0x02] + Uleb(n)
      case AdvanceLine(d) => Encode(i) == [0x03] + Sleb(d)
      case SetFile(n) => Encode(i) == [0x04] + Uleb(n)
      case SetColumn(n) => Encode(i) == [0x05] + Uleb(n)
      case NegateStmt => Encode(i) == [0x06]
      case SetBasicBlock => Encode(i) == [0x07]
      case ConstAddPc => Encode(i) == [0x08]
      case FixedAdvancePc(n) => Encode(i) == [0x09] + LittleBytes(n, 2)
      case SetPrologueEnd => Encode(i) == [0x0A]
      case SetEpilogueBegin => Encode(i) == [0x0B]
      case SetIsa(n) => Encode(i) == [0x0C] + Uleb(n)
      case Special(op) => Encode(i) == [op]
      case _ => false
  {
    hide LittleBytes, Uleb, Sleb;
  }

  /** Sections 6.2.5.3 and 7.21: the extended ones, between length and end. */
  lemma ExtendedTable(i: Instr)
    ensures ExtendedBody(i) ==
      match i
      case EndSequence => [0x01]
      case SetAddress(a) => [0x02] + LittleBytes(a, 8)
      case DefineFile(name, dir, time, size) => [0x03] + name + [0] + Uleb(dir) + Uleb(time) + Uleb(size)
      case SetDiscriminator(d) => [0x04] + Uleb(d)
      case _ => []
    ensures ExtendedBody(i) != [] ==> Encode(i) == [0x00] + Uleb(|ExtendedBody(i)|) + ExtendedBody(i)
  {
    hide LittleBytes, Uleb, Sleb;
    match i
    case DefineFile(name, dir, time, size) =>
      assert [0x03] + FileBytes(name, dir, time, size) == [0x03] + name + [0] + Uleb(dir) + Uleb(time) + Uleb(size);
    case _ =>
  }

  lemma StandardReads(mem: seq<Byte>, at: nat, i: Instr, info: Info)
    requires Encodable(info, i) && ExtendedBody(i) == [] && !i.Special? && At(mem, at, Encode(i))
    ensures 0 < mem[at] < info.opcodeBase && Standard(mem, mem[at], at + 1, info) == Some(Decoded(i, at + |Encode(i)|))
  {
    hide HasEnd, Len, UValue, Uleb, Sleb, SValue, Negative, Unsigned, At, LittleBytes, Little;
    var bs := Encode(i);
    assert bs == [bs[0]] + bs[1..];
    AtSplit(mem, at, [bs[0]], bs[1..]);
    OperandReads(mem, at + 1, i, bs[1..], info);
  }

  lemma OperandReads(mem: seq<Byte>, at: nat, i: Instr, rest: seq<Byte>, info: Info)
    requires Encodable(info, i) && ExtendedBody(i) == [] && !i.Special?
    requires rest == StandardBody(i)[1..] && At(mem, at, rest)
    ensures Standard(mem, StandardBody(i)[0], at, info) == Some(Decoded(i, at + |rest|))
  {
    hide HasEnd, Len, UValue, Uleb, Sleb, SValue, Negative, Unsigned, At, LittleBytes, Little;
    match i
    case AdvancePc(n) =>
      assert rest == Uleb(n);
      UnsignedReads(mem, at, n);
    case SetFile(n) =>
      assert rest == Uleb(n);
      UnsignedReads(mem, at, n);
    case SetColumn(n) =>
      assert rest == Uleb(n);
      UnsignedReads(mem, at, n);
    case SetIsa(n) =>
      assert rest == Uleb(n);
      UnsignedReads(mem, at, n);
    case AdvanceLine(d) =>
      assert rest == Sleb(d);
      SlebReads(mem, at, d);
      if -0x800_0000 <= d < 0 {
        SlebShort(d);
      }
    case FixedAdvancePc(n) =>
      assert rest == LittleBytes(n, 2);
      TwoBytes(mem, at, n);
    case _ =>
  }

  function FileBytes(name: seq<Byte>, a: nat, b: nat, c: nat): (bs: seq<Byte>) {
    (name + [0]) + (Uleb(a) + (Uleb(b) + Uleb(c)))
  }

  lemma FileReads(mem: seq<Byte>, at: nat, name: seq<Byte>, a: nat, b: nat, c: nat)
    requires 0 !in name && a < MOD64 && b < MOD64 && c < MOD64 && At(mem, at, FileBytes(name, a, b, c))
    ensures FileEntry(mem, at) == Some(Decoded(DefineFile(name, a, b, c), at + |FileBytes(name, a, b, c)|))
  {
    hide HasEnd, Len, UValue, Uleb, HasNul, AfterNul, Unsigned, At, FileEntry;
    AtSplit(mem, at, name + [0], Uleb(a) + (Uleb(b) + Uleb(c)));
    NulReads(mem, at, name);
    var p := at + |name| + 1;
    var q, r := ThreeRead(mem, p, a, b, c);
    FileEntryIs(mem, at, p, q, r);
  }

  lemma ThreeRead(mem: seq<Byte>, p: nat, a: nat, b: nat, c: nat) returns (q: nat, r: nat)
    requires a < MOD64 && b < MOD64 && c < MOD64 && At(mem, p, Uleb(a) + (Uleb(b) + Uleb(c)))
    ensures HasEnd(mem, p) && q == p + Len(mem, p) && Unsigned(mem, p) == a
    ensures HasEnd(mem, q) && r == q + Len(mem, q) && Unsigned(mem, q) == b
    ensures HasEnd(mem, r) && r + Len(mem, r) == p + |Uleb(a) + (Uleb(b) + Uleb(c))| && Unsigned(mem, r) == c
  {
    hide HasEnd, Len, UValue, Uleb, Unsigned, At;
    AtSplit(mem, p, Uleb(a), Uleb(b) + Uleb(c));
    UnsignedReads(mem, p, a);
    q := p + |Uleb(a)|;
    AtSplit(mem, q, Uleb(b), Uleb(c));
    UnsignedReads(mem, q, b);
    r := q + |Uleb(b)|;
    UnsignedReads(mem, r, c);
  }

  lemma FileEntryIs(mem: seq<Byte>, at: nat, p: nat, q: nat, r: nat)
    requires HasNul(mem, at) && AfterNul(mem, at) == p && HasEnd(mem, p) && q == p + Len(mem, p)
    requires HasEnd(mem, q) && r == q + Len(mem, q) && HasEnd(mem, r)
    ensures FileEntry(mem, at) ==
      Some(Decoded(DefineFile(mem[at..p - 1], Unsigned(mem, p), Unsigned(mem, q), Unsigned(mem, r)), r + Len(mem, r)))
  {
    hide HasNul, AfterNul, HasEnd, Len, Unsigned;
  }

  lemma ExtendedReads(mem: seq<Byte>, at: nat, i: Instr, info: Info)
    requires Encodable(info, i) && ExtendedBody(i) != [] && At(mem, at, Encode(i))
    ensures mem[at] == 0 && Extended(mem, at + 1) == Some(Decoded(i, at + |Encode(i)|))
  {
    hide ExtendedBody, ExtendedAt, Encodable, Extended, HasEnd, Len, Unsigned, At, Uleb, Encode;
    var body := ExtendedBody(i);
    BodyFits(i, info);
    EncodeIs(i);
    var p, first, rest := HeadReads(mem, at, body);
    OperandsRead(mem, p + 1, i, info, first, rest);
    ExtendedIs(mem, at + 1, i, p, |body|);
  }

  lemma EncodeIs(i: Instr)
    requires ExtendedBody(i) != []
    ensures Encode(i) == [0] + Uleb(|ExtendedBody(i)|) + ExtendedBody(i)
  {
  }

  lemma ExtendedIs(mem: seq<Byte>, at: nat, i: Instr, p: nat, n: nat)
    requires HasEnd(mem, at) && p == at + Len(mem, at) && p < |mem| && Unsigned(mem, at) == n
    requires ExtendedAt(mem, mem[p], p + 1) == Some(Decoded(i, p + n))
    ensures Extended(mem, at) == Some(Decoded(i, p + n))
  {
    hide HasEnd, Len, Unsigned, ExtendedAt;
  }

  lemma HeadReads(mem: seq<Byte>, at: nat, body: seq<Byte>) returns (p: nat, first: Byte, rest: seq<Byte>)
    requires At(mem, at, [0] + Uleb(|body|) + body) && 0 < |body| < MOD64
    ensures at < p < |mem| && mem[at] == 0 && HasEnd(mem, at + 1) && p == at + 1 + Len(mem, at + 1)
    ensures p + |body| == at + |[0] + Uleb(|body|) + body| && Unsigned(mem, at + 1) == |body|
    ensures mem[p] == first && At(mem, p + 1, rest) && body == [first] + rest && |body| == 1 + |rest|
  {
    hide HasEnd, Len, UValue, Uleb, Unsigned;
    p, first, rest := at + 1 + |Uleb(|body|)|, body[0], body[1..];
    AtSplit(mem, at, [0] + Uleb(|body|), body);
    AtSplit(mem, at, [0], Uleb(|body|));
    UnsignedReads(mem, at + 1, |body|);
    assert body == [first] + rest;
    AtSplit(mem, p, [first], rest);
  }

  lemma BodyFits(i: Instr, info: Info)
    requires Encodable(info, i)
    ensures |ExtendedBody(i)| < MOD64
  {
    if i.SetDiscriminator? {
      Pow2Values();
      Pow2Mono(64, 70);
      UlebShort(i.discriminator, 10);
    }
  }

  lemma {:induction false} UlebShort(v: nat, n: nat)
    requires v < Pow2(7 * n) && n > 0
    ensures |Uleb(v)| <= n
    decreases n
  {
    hide Pow2;
    Pow2Values();
    if v >= 128 {
      assert n > 1;
      Pow2At7(7 * (n - 1));
      UlebShort(v / 128, n - 1);
    }
  }

  lemma OperandsRead(mem: seq<Byte>, at: nat, i: Instr, info: Info, first: Byte, rest: seq<Byte>)
    requires Encodable(info, i) && ExtendedBody(i) == [first] + rest && At(mem, at, rest)
    ensures ExtendedAt(mem, first, at) == Some(Decoded(i, at + |rest|))
  {
    hide HasEnd, Len, UValue, Uleb, Unsigned, At, FileEntry, FileBytes, LittleBytes, Little;
    assert ExtendedBody(i)[0] == first && ExtendedBody(i)[1..] == rest;
    match i
    case SetAddress(a) =>
      assert rest == LittleBytes(a, 8);
      EightBytes(mem, at, a);
    case DefineFile(name, a, b, c) =>
      assert rest == FileBytes(name, a, b, c);
      FileReads(mem, at, name, a, b, c);
    case SetDiscriminator(d) =>
      assert rest == Uleb(d);
      UnsignedReads(mem, at, d);
    case EndSequence =>
      assert rest == [];
  }

  /** Decoding is inverse to encoding. */
  lemma DecodesBack(mem: seq<Byte>, at: nat, i: Instr, info: Info)
    requires Encodable(info, i) && At(mem, at, Encode(i))
    ensures Decode(mem, at, info) == Some(Decoded(i, at + |Encode(i)|))
  {
    if ExtendedBody(i) != [] {
      ExtendedReads(mem, at, i, info);
    } else if i.Special? {
      AtSplit(mem, at, [i.opcode], []);
    } else {
      StandardReads(mem, at, i, info);
    }
  }

  predicate AllEncodable(info: Info, code: seq<Instr>) {
    code == [] || (Encodable(info, code[0]) && AllEncodable(info, code[1..]))
  }

  function Assemble(code: seq<Instr>): (bs: seq<Byte>) {
    if code == [] then [] else Encode(code[0]) + Assemble(code[1..])
  }

  lemma RowsStep(mem: seq<Byte>, at: nat, end: nat, info: Info, st: State, i: Instr, next: nat)
    requires at < end && Decode(mem, at, info) == Some(Decoded(i, next))
    ensures Rows(mem, at, end, info, st) ==
      Prefixed(Apply(info, i, st).row, Rows(mem, next, end, info, Apply(info, i, st).next))
  {
    hide Decode, Apply, Prefixed;
  }

  lemma RowsOfStep(info: Info, i: Instr, rest: seq<Instr>, st: State)
    ensures RowsOf(info, [i] + rest, st) ==
      Prefixed(Apply(info, i, st).row, RowsOf(info, rest, Apply(info, i, st).next))
  {
    hide Apply, Prefixed;
    assert ([i] + rest)[1..] == rest;
  }

  /** The table of an assembled program is the table of its instructions. */
  lemma {:induction false} AssembledRows(mem: seq<Byte>, at: nat, code: seq<Instr>, info: Info, st: State, end: nat)
    requires At(mem, at, Assemble(code)) && AllEncodable(info, code)
    requires end == at + |Assemble(code)|
    ensures Rows(mem, at, end, info, st) == RowsOf(info, code, st)
    decreases |code|
  {
    if code != [] {
      hide Decode, Apply, Encode, At, Encodable, Prefixed, Rows, RowsOf, Assemble;
      var i, rest := code[0], code[1..];
      var next, e := at + |Encode(i)|, Apply(info, i, st);
      AssembledSplit(mem, at, code, end, next, rest);
      AssembledRows(mem, next, rest, info, e.next, end);
      DecodesBack(mem, at, i, info);
      EncodeSome(i, info);
      RowsStep(mem, at, end, info, st, i, next);
      RowsOfStep(info, i, rest, st);
      assert code == [i] + rest;
    }
  }

  lemma AssembledSplit(mem: seq<Byte>, at: nat, code: seq<Instr>, end: nat, next: nat, rest: seq<Instr>)
    requires code != [] && At(mem, at, Assemble(code)) && end == at + |Assemble(code)|
    requires next == at + |Encode(code[0])| && rest == code[1..]
    ensures At(mem, at, Encode(code[0])) && At(mem, next, Assemble(rest)) && end == next + |Assemble(rest)|
  {
    hide Encode, At;
    assert Assemble(code) == Encode(code[0]) + Assemble(rest);
    AtSplit(mem, at, Encode(code[0]), Assemble(rest));
  }

  lemma EncodeSome(i: Instr, info: Info)
    requires Encodable(info, i)
    ensures Encode(i) != []
  {
  }
}
