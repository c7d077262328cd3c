/**
 What a line-number program says, in steps of lines and of operations (section 6.2.5 of
 DWARF 4), and that the machine makes those steps: from the steps to the line reported for
 an address.
 */
module LineSteps {
  import opened Arith
  import opened Leb128
  import opened DwarfBytes
  import opened LineProgram
  import opened LineHeader

  /** Steps forward in lines and in operations, with a row of the table after both; the same
      without a row; and what else moves the registers. */
  datatype Step =
    | Both(lines: int, ops: nat)
    | Lines(lines: int)
    | Ops(ops: nat)
    | Constant
    | Fixed(bytes: nat)
    | Address(address: nat)
    | Row
    | End
    | Other(instr: Instr)

  /** The two registers that matter for a lookup. */
  datatype Place = Place(address: nat, line: int)

  /** Which steps there is an opcode for. */
  predicate Possible(info: Info, s: Step) {
    match s
    case Both(d, n) =>
      && info.lineBase <= d < info.lineBase + info.lineRange
      && (d - info.lineBase) + info.lineRange * n + info.opcodeBase <= 255
    case Constant => info.lineRange > 0
    case Other(i) =>
      i.SetFile? || i.SetColumn? || i.NegateStmt? || i.SetBasicBlock? || i.SetPrologueEnd? || i.SetEpilogueBegin? ||
      i.SetIsa? || i.DefineFile? || i.SetDiscriminator?
    case _ => true
  }

  function Opcode(info: Info, s: Step): (i: Instr)
    requires Possible(info, s)
  {
    match s
    case Both(d, n) => SpecialOpcode(info, d, n)
    case Lines(d) => AdvanceLine(d)
    case Ops(n) => AdvancePc(n)
    case Constant => ConstAddPc
    case Fixed(n) => FixedAdvancePc(n)
    case Address(a) => SetAddress(a)
    case Row => Copy
    case End => EndSequence
    case Other(i) => i
  }

  function SpecialOpcode(info: Info, d: int, n: nat): (i: Instr)
    requires Possible(info, Both(d, n))
  {
    assert info.lineRange * n >= 0;
    Special((d - info.lineBase) + info.lineRange * n + info.opcodeBase)
  }

  /** A signed 32-bit number that wraps around. */
  function Signed(x: int): (r: int)
    ensures -0x8000_0000 <= r < 0x8000_0000 && (x - r) % 0x1_0000_0000 == 0
  {
    var r := x % 0x1_0000_0000;
    if r < 0x8000_0000 then r else r - 0x1_0000_0000
  }

  function Forward(info: Info, address: nat, ops: nat): (a: nat)
    requires info.maxOps > 0
  {
    (address + info.minLength * (ops / info.maxOps)) % 0x1_0000_0000_0000_0000
  }

  /** Where a step leads. */
  function Moved(info: Info, s: Step, p: Place): (q: Place)
    requires info.maxOps > 0 && Possible(info, s)
  {
    match s
    case Both(d, n) => Place(Forward(info, p.address, n), Signed(p.line + d))
    case Lines(d) => Place(p.address, Signed(p.line + d))
    case Ops(n) => Place(Forward(info, p.address, n), p.line)
    case Constant => Place(Forward(info, p.address, (255 - info.opcodeBase) / info.lineRange), p.line)
    case Fixed(n) => Place((p.address + n) % 0x1_0000_0000_0000_0000, p.line)
    case Address(a) => Place(a, p.line)
    case End => Place(0, 1)
    case _ => p
  }

  /** The row a step adds to the table. */
  function Added(info: Info, s: Step, p: Place): (row: Option<Place>)
    requires info.maxOps > 0 && Possible(info, s)
  {
    match s
    case Both(_, _) => Some(Moved(info, s, p))
    case Row => Some(p)
    case End => Some(p)
    case _ => None
  }

  predicate AllPossible(info: Info, steps: seq<Step>) {
    forall i :: 0 <= i < |steps| ==> Possible(info, steps[i])
  }

  function Opcodes(info: Info, steps: seq<Step>): (code: seq<Instr>)
    requires AllPossible(info, steps)
  {
    if steps == [] then [] else [Opcode(info, steps[0])] + Opcodes(info, steps[1..])
  }

  /** The rows of the table. */
  function Places(info: Info, steps: seq<Step>, p: Place): (rows: seq<Place>)
    requires info.maxOps > 0 && AllPossible(info, steps)
  {
    if steps == [] then []
    else
      var row := Added(info, steps[0], p);
      (if row.Some? then [row.value] else []) + Places(info, steps[1..], Moved(info, steps[0], p))
  }

  // ------------------------------------------------------------ the machine makes these steps

  function PlaceOf(st: State): (p: Place) {
    Place(st.address, st.line)
  }

  lemma SignedIs(x: int)
    ensures Int32(x) == Signed(x)
  {
    var q := (x - Signed(x)) / 0x1_0000_0000;
    DivModUnique(x + HALF32, MOD32, q, Signed(x) + HALF32);
  }

  /** An opcode is taken apart into the steps it was made of. */
  lemma Adjusted(info: Info, d: int, n: nat)
    requires Possible(info, Both(d, n))
    ensures var op := SpecialOpcode(info, d, n).opcode;
      var adjusted := (op - info.opcodeBase) % 256;
      && info.lineRange > 0 && adjusted / info.lineRange == n && info.lineBase + adjusted % info.lineRange == d
  {
    assert info.lineRange * n >= 0;
    DivModUnique((d - info.lineBase) + info.lineRange * n, info.lineRange, n, d - info.lineBase);
  }

  /** What an instruction does to address and line, and to the table. */
  lemma StepIs(info: Info, s: Step, st: State)
    requires info.maxOps > 0 && Possible(info, s)
    ensures var e := Apply(info, Opcode(info, s), st);
      && PlaceOf(e.next) == Moved(info, s, PlaceOf(st))
      && (e.row.Some? <==> Added(info, s, PlaceOf(st)).Some?)
      && (e.row.Some? ==> PlaceOf(e.row.value) == Added(info, s, PlaceOf(st)).value)
  {
    hide Int32, Signed, Advance, Forward, SpecialRow, SpecialOpcode;
    match s
    case Both(d, n) => BothIs(info, d, n, st);
    case Lines(d) => SignedIs(st.line + d);
    case Ops(n) => AdvanceIs(info, st.address, n);
    case Constant => ConstantIs(info, st);
    case _ =>
  }

  lemma ConstantIs(info: Info, st: State)
    requires info.maxOps > 0 && info.lineRange > 0
    ensures SpecialRow(info, 255, st).address == Forward(info, st.address, (255 - info.opcodeBase) / info.lineRange)
  {
    hide Int32;
  }

  lemma BothIs(info: Info, d: int, n: nat, st: State)
    requires info.maxOps > 0 && Possible(info, Both(d, n))
    ensures var e := Apply(info, SpecialOpcode(info, d, n), st);
      e.row == Some(e.next) && PlaceOf(e.next) == Moved(info, Both(d, n), PlaceOf(st))
  {
    hide Int32, Signed;
    Adjusted(info, d, n);
    SignedIs(st.line + d);
    hide SpecialOpcode, Advance;
    var op := SpecialOpcode(info, d, n).opcode;
    var row := SpecialRow(info, op, st);
    AdvanceIs(info, st.address, n);
  }

  lemma AdvanceIs(info: Info, address: nat, n: nat)
    requires info.maxOps > 0
    ensures Advance(info, address, n) == Forward(info, address, n)
  {
  }

  /** The rows of the instructions are the rows of the steps. */
  lemma {:induction false} RowsAre(info: Info, steps: seq<Step>, st: State)
    requires info.maxOps > 0 && AllPossible(info, steps)
    ensures var rows := RowsOf(info, Opcodes(info, steps), st).rows;
      var places := Places(info, steps, PlaceOf(st));
      |rows| == |places| && forall k :: 0 <= k < |rows| ==> PlaceOf(rows[k]) == places[k]
    decreases |steps|
  {
    if steps != [] {
      hide Apply, Moved, Added, Opcode;
      StepIs(info, steps[0], st);
      var e := Apply(info, Opcode(info, steps[0]), st);
      RowsAre(info, steps[1..], e.next);
      RowsOfStep(info, Opcode(info, steps[0]), Opcodes(info, steps[1..]), st);
    }
  }

  /** Where the steps end. */
  function Ending(info: Info, steps: seq<Step>, p: Place): (q: Place)
    requires info.maxOps > 0 && AllPossible(info, steps)
  {
    if steps == [] then p else Ending(info, steps[1..], Moved(info, steps[0], p))
  }

  lemma {:induction false} EndsAt(info: Info, steps: seq<Step>, st: State)
    requires info.maxOps > 0 && AllPossible(info, steps)
    ensures var last := RowsOf(info, Opcodes(info, steps), st).last;
      last.Some? && PlaceOf(last.value) == Ending(info, steps, PlaceOf(st))
    decreases |steps|
  {
    if steps != [] {
      hide Apply, Moved, Added, Opcode;
      StepIs(info, steps[0], st);
      var e := Apply(info, Opcode(info, steps[0]), st);
      EndsAt(info, steps[1..], e.next);
      RowsOfStep(info, Opcode(info, steps[0]), Opcodes(info, steps[1..]), st);
    }
  }

  predicate Rising(rows: seq<Place>) {
    forall i, j :: 0 <= i < j < |rows| ==> rows[i].address <= rows[j].address
  }

  /** From steps to line: if the rows of the steps form one ascending sequence, the line
      reported for an address in its range is that of the last row up to the address. For other
      addresses it is the line the steps end with, unless the uninitialised row happens to fit. */
  method LineOfSteps(mem: seq<Byte>, at: nat, ghost version: nat, ghost info: Info, ghost stmt: Byte,
                     ghost tables: seq<Byte>, ghost steps: seq<Step>, p: nat, remembered: State)
    returns (r: Result)
    requires info.maxOps > 0 && AllPossible(info, steps) && AllEncodable(info, Opcodes(info, steps))
    requires Written(mem, at, version, info, stmt, tables, Opcodes(info, steps))
    requires Places(info, steps, Place(0, 1)) != [] && Rising(Places(info, steps, Place(0, 1)))
    ensures var rows := Places(info, steps, Place(0, 1));
      && (rows[0].address <= p < rows[|rows| - 1].address ==>
            exists k :: 0 <= k < |rows| && r == Line(rows[k].line) && rows[k].address <= p &&
                        forall j :: k < j < |rows| ==> p < rows[j].address)
      && (p < rows[0].address || rows[|rows| - 1].address <= p ==>
            r == Line(if remembered.address <= p < rows[0].address then remembered.line
                      else Ending(info, steps, Place(0, 1)).line))
  {
    hide Places, RowsOf, Opcodes, Written, AllEncodable, Ending;
    RowsAre(info, steps, Start);
    EndsAt(info, steps, Start);
    ghost var code, places := Opcodes(info, steps), Places(info, steps, Place(0, 1));
    ghost var rows := RowsOf(info, code, Start).rows;
    assert forall k :: 0 <= k < |rows| ==> PlaceOf(rows[k]) == places[k];
    r := LineAnywhere(mem, at, version, info, stmt, tables, code, p, remembered);
    if places[0].address <= p < places[|places| - 1].address {
      ghost var k := LastRowUpTo(remembered, rows, p);
      assert r == Line(places[k].line);
      assert forall j :: k < j < |places| ==> p < places[j].address;
    } else {
      OutsideRows(remembered, rows, p);
    }
  }

  lemma OutsideRows(junk: State, rows: seq<State>, p: nat)
    requires rows != [] && Ascending(rows) && !(rows[0].address <= p < rows[|rows| - 1].address)
    ensures Search(junk, rows, p) == if junk.address <= p < rows[0].address then Some(junk) else None
  {
    if p < rows[0].address {
      JunkIff(junk, rows, p);
    } else {
      AllBelow(junk, rows, p);
    }
  }

  lemma {:induction false} AllBelow(prev: State, rows: seq<State>, p: nat)
    requires forall i :: 0 <= i < |rows| ==> rows[i].address <= p
    ensures Search(prev, rows, p) == None
    decreases |rows|
  {
    if rows != [] {
      AllBelow(rows[0], rows[1..], p);
    }
  }
}
