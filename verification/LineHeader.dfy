/**
 line_for_address of kern/dwarf_lines.c: the header of a line-number program (section
 6.2.4 of DWARF 4), its constraints, and the whole lookup.
 */
module LineHeader {
  import opened Leb128
  import opened DwarfBytes
  import opened LineProgram

  datatype Header = Header(info: Info, program: nat, end: nat)

  /** Missing where the section ends too early or an assertion of the source fails. */
  datatype Parsed = Good(header: Header) | BadLength | Missing

  datatype Result = Line(line: int) | Invalid | BadDwarf | Crash

  function Signed8(b: Byte): (v: int) {
    if b < 128 then b else b - 256
  }

  function ParseHeader(mem: seq<Byte>, at: nat): (h: Parsed) {
    var unit := LengthAt(mem, at);
    if unit.None? then Missing
    else if unit.value.count == 0 then BadLength
    else
      var p := at + unit.value.count;
      if p + 2 > |mem| then Missing
      else
        var version := Little(mem, p, 2);
        if version < 2 || version > 4 then Missing
        else
          var header := LengthAt(mem, p + 2);
          if header.None? then Missing
          else if header.value.count == 0 then BadLength
          else
            var q := p + 2 + header.value.count;
            var r := if version == 4 then q + 2 else q + 1;
            if r + 4 > |mem| then Missing
            else if mem[q] != 1 || (version == 4 && mem[q + 1] != 1) then Missing
            else
              Good(Header(Info(1, 1, Signed8(mem[r + 1]), mem[r + 2], mem[r + 3]),
                          q + header.value.len, p + unit.value.len))
  }

  /** With plain lengths a header is taken exactly if its version is 2, 3 or 4, instructions have
      a minimum length of one, and, in version 4, there is one operation in each. */
  lemma TakenIff(mem: seq<Byte>, at: nat)
    requires at + 16 <= |mem| && Little(mem, at, 4) < 0xFFFF_FFF0 && Little(mem, at + 6, 4) < 0xFFFF_FFF0
    ensures ParseHeader(mem, at).Good? <==>
      var version := Little(mem, at + 4, 2);
      version in {2, 3, 4} && mem[at + 10] == 1 && (version == 4 ==> mem[at + 11] == 1)
    ensures ParseHeader(mem, at) != BadLength
  {
    hide Little;
  }

  method ReadHeader(mem: seq<Byte>, at: nat) returns (h: Parsed)
    ensures h == ParseHeader(mem, at)
  {
    hide LengthAt, Little;
    var unit := EntryLen(mem, at);
    if unit.None? {
      return Missing;
    }
    var addr := at + unit.value.count;
    if unit.value.count == 0 {
      return BadLength;
    }
    var unitEnd := addr + unit.value.len;
    if addr + 2 > |mem| {
      return Missing;
    }
    var version := ReadLittle(mem, addr, 2);
    addr := addr + 2;
    if !(version == 4 || version == 3 || version == 2) {
      return Missing;
    }
    var header := EntryLen(mem, addr);
    if header.None? {
      return Missing;
    }
    addr := addr + header.value.count;
    if header.value.count == 0 {
      return BadLength;
    }
    var program := addr + header.value.len;
    if addr + (if version == 4 then 6 else 5) > |mem| || mem[addr] != 1 {
      return Missing;
    }
    addr := addr + 1;
    if version == 4 {
      if mem[addr] != 1 {
        return Missing;
      }
      addr := addr + 1;
    }
    addr := addr + 1;
    h := Good(Header(Info(1, 1, Signed8(mem[addr]), mem[addr + 1], mem[addr + 2]), program, unitEnd));
  }

  /** line_for_address. */
  method LineForAddress(mem: seq<Byte>, p: nat, lineOffset: nat, remembered: State) returns (r: Result)
    ensures r ==
      if lineOffset > |mem| then Invalid
      else match ParseHeader(mem, lineOffset)
        case BadLength => BadDwarf
        case Missing => Crash
        case Good(h) =>
          match Lookup(remembered, Rows(mem, h.program, h.end, h.info, Start), p)
          case Found(st) => Line(st.line)
          case Bad => Crash
  {
    if lineOffset > |mem| {
      return Invalid;
    }
    var h := ReadHeader(mem, lineOffset);
    match h
    case BadLength => return BadDwarf;
    case Missing => return Crash;
    case Good(g) =>
      var a := RunLineNumberProgram(mem, g.program, g.end, g.info, Start, p, remembered);
      match a
      case Found(st) => return Line(st.line);
      case Bad => return Crash;
  }

  // ------------------------------------------------------------ writing

  function ByteOf(v: int): (b: Byte) {
    v % 256
  }

  /** The fields of a header after its length, before the tables that the source skips. Only
      version 4 has a maximum of operations per instruction. */
  function Fields(version: nat, info: Info, stmt: Byte): (bs: seq<Byte>)
    ensures |bs| == if version == 4 then 6 else 5
  {
    [1] + (if version == 4 then [1] else []) + [stmt, ByteOf(info.lineBase), info.lineRange, info.opcodeBase]
  }

  /** A whole unit: lengths, version, fields, the skipped tables, the program. */
  function UnitBytes(version: nat, info: Info, stmt: Byte, tables: seq<Byte>, code: seq<Instr>): (bs: seq<Byte>) {
    var program := Assemble(code);
    var n := |Fields(version, info, stmt)|;
    LittleBytes(6 + n + |tables| + |program|, 4)
    + (LittleBytes(version, 2)
       + (LittleBytes(n + |tables|, 4) + (Fields(version, info, stmt) + (tables + program))))
  }

  /** Section 6.2.4, for minimum lengths of one and one operation in each instruction. */
  lemma Layout(version: nat, info: Info, stmt: Byte, tables: seq<Byte>, code: seq<Instr>)
    requires 2 <= version <= 4
    ensures var fields := (if version == 4 then [0x01, 0x01] else [0x01])
                          + [stmt, info.lineBase % 0x100, info.lineRange, info.opcodeBase] + tables;
      var rest := [version, 0x00] + LittleBytes(|fields|, 4) + fields + Assemble(code);
      UnitBytes(version, info, stmt, tables, code) == LittleBytes(|rest|, 4) + rest
  {
    hide LittleBytes, Assemble;
    var program, own := Assemble(code), Fields(version, info, stmt);
    var fields := own + tables;
    assert fields == (if version == 4 then [0x01, 0x01] else [0x01])
                     + [stmt, info.lineBase % 0x100, info.lineRange, info.opcodeBase] + tables;
    assert LittleBytes(version, 2) == [version, 0] by {
      TwoLow(version);
    }
    var rest := [version, 0] + LittleBytes(|fields|, 4) + fields + program;
    assert rest == [version, 0] + (LittleBytes(|fields|, 4) + (own + (tables + program)));
  }

  lemma TwoLow(v: nat)
    requires v < 256
    ensures LittleBytes(v, 2) == [v, 0]
  {
    assert LittleBytes(0, 1) == [0];
  }

  predicate Written(mem: seq<Byte>, at: nat, version: nat, info: Info, stmt: Byte, tables: seq<Byte>,
                    code: seq<Instr>) {
    && 2 <= version <= 4 && info.minLength == info.maxOps == 1 && -128 <= info.lineBase < 128
    && |UnitBytes(version, info, stmt, tables, code)| < 0xFFFF_FFF0
    && At(mem, at, UnitBytes(version, info, stmt, tables, code))
  }

  function ProgramAt(at: nat, version: nat, tables: seq<Byte>): (p: nat) {
    at + (if version == 4 then 16 else 15) + |tables|
  }

  /** A header of any of the three versions reads back, and the program is where it says. */
  lemma HeaderReads(mem: seq<Byte>, at: nat, version: nat, info: Info, stmt: Byte, tables: seq<Byte>, code: seq<Instr>)
    requires Written(mem, at, version, info, stmt, tables, code)
    ensures var program := ProgramAt(at, version, tables);
      && ParseHeader(mem, at) == Good(Header(info, program, program + |Assemble(code)|))
      && At(mem, program, Assemble(code))
  {
    hide LittleBytes, Little, At, Assemble, LengthAt, Fields;
    var program := Assemble(code);
    var fields := Fields(version, info, stmt);
    var n := |fields|;
    assert PowBytes(2) == 0x1_0000;
    AtSplit(mem, at, LittleBytes(6 + n + |tables| + |program|, 4),
            LittleBytes(version, 2) + (LittleBytes(n + |tables|, 4) + (fields + (tables + program))));
    LengthReads(mem, at, 6 + n + |tables| + |program|);
    AtSplit(mem, at + 4, LittleBytes(version, 2), LittleBytes(n + |tables|, 4) + (fields + (tables + program)));
    LittleReads(mem, at + 4, version, 2);
    AtSplit(mem, at + 6, LittleBytes(n + |tables|, 4), fields + (tables + program));
    LengthReads(mem, at + 6, n + |tables|);
    AtSplit(mem, at + 10, fields, tables + program);
    FieldsRead(mem, at + 10, version, info, stmt);
    AtSplit(mem, at + 10 + n, tables, program);
  }

  lemma FieldsRead(mem: seq<Byte>, at: nat, version: nat, info: Info, stmt: Byte)
    requires At(mem, at, Fields(version, info, stmt))
    ensures at + |Fields(version, info, stmt)| <= |mem| && mem[at] == 1 && (version == 4 ==> mem[at + 1] == 1)
    ensures var r := at + (if version == 4 then 2 else 1);
      mem[r + 1] == ByteOf(info.lineBase) && mem[r + 2] == info.lineRange && mem[r + 3] == info.opcodeBase
  {
    hide At, ByteOf;
    var fs := Fields(version, info, stmt);
    var n := |fs| - 4;
    FieldsAt(mem, at, fs);
    assert mem[at + 0] == fs[0] && mem[at + 1] == fs[1];
    assert mem[at + (n + 1)] == fs[n + 1] && mem[at + (n + 2)] == fs[n + 2] && mem[at + (n + 3)] == fs[n + 3];
  }

  lemma FieldsAt(mem: seq<Byte>, at: nat, bs: seq<Byte>)
    requires At(mem, at, bs)
    ensures at + |bs| <= |mem| && forall k :: 0 <= k < |bs| ==> mem[at + k] == bs[k]
  {
    forall k | 0 <= k < |bs| ensures mem[at + k] == bs[k] {
      assert mem[at..at + |bs|][k] == mem[at + k];
    }
  }

  /** The lookup in an assembled unit, for any address. */
  method LineAnywhere(mem: seq<Byte>, at: nat, ghost version: nat, ghost info: Info, ghost stmt: Byte,
                      ghost tables: seq<Byte>, ghost code: seq<Instr>, p: nat, remembered: State)
    returns (r: Result)
    requires Written(mem, at, version, info, stmt, tables, code) && AllEncodable(info, code)
    ensures r == match Lookup(remembered, RowsOf(info, code, Start), p)
      case Found(st) => Line(st.line)
      case Bad => Crash
  {
    hide UnitBytes, ParseHeader, Assemble, RowsOf, Rows, Search, AllEncodable, Lookup;
    HeaderReads(mem, at, version, info, stmt, tables, code);
    ghost var program := ProgramAt(at, version, tables);
    AssembledRows(mem, program, code, info, Start, program + |Assemble(code)|);
    AtInside(mem, at, UnitBytes(version, info, stmt, tables, code));
    r := LineForAddress(mem, p, at, remembered);
  }

  /** From bytes to line: for a program whose rows form one ascending sequence, the line
      reported for an address in its range is that of the last row up to the address. */
  method LineOf(mem: seq<Byte>, at: nat, ghost version: nat, ghost info: Info, ghost stmt: Byte,
                ghost tables: seq<Byte>, ghost code: seq<Instr>, p: nat, remembered: State)
    returns (r: Result)
    requires Written(mem, at, version, info, stmt, tables, code) && AllEncodable(info, code)
    requires var rows := RowsOf(info, code, Start).rows;
      |rows| > 0 && Ascending(rows) && rows[0].address <= p < rows[|rows| - 1].address
    ensures var rows := RowsOf(info, code, Start).rows;
      exists k :: 0 <= k < |rows| && r == Line(rows[k].line) && rows[k].address <= p &&
                  forall j :: k < j < |rows| ==> p < rows[j].address
  {
    hide UnitBytes, Written, RowsOf, Ascending, Search, AllEncodable;
    ghost var k := LastRowUpTo(remembered, RowsOf(info, code, Start).rows, p);
    r := LineAnywhere(mem, at, version, info, stmt, tables, code, p, remembered);
  }

  lemma AtInside(mem: seq<Byte>, at: nat, bs: seq<Byte>)
    requires At(mem, at, bs)
    ensures at <= |mem|
  {
  }
}
