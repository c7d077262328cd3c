/**
 The walk of naive_address_by_fname in kern/dwarf.c over .debug_info: compilation units,
 their debugging information entries, and the abbreviations these follow (section 7.5 of
 DWARF 4).
 */
module DwarfWalk {
  import opened Leb128
  import opened DwarfBytes
  import opened DwarfForms

  const TAG_LABEL := 0x0A
  const TAG_SUBPROGRAM := 0x2E
  const AT_NAME := 0x03
  const AT_LOW_PC := 0x11

  /** The sections the walk reads, and where .debug_info is loaded. */
  datatype Sections = Sections(info: seq<Byte>, abbrev: seq<Byte>, str: seq<Byte>, base: nat)

  /** E_INVAL, E_BAD_DWARF and E_NO_ENT; Crash where the source fails an assertion or leaves
      a section. */
  datatype Result = Address(pc: nat) | Invalid | BadDwarf | NoEntry | Crash

  predicate HasPair(mem: seq<Byte>, at: nat) {
    HasEnd(mem, at) && HasEnd(mem, at + Len(mem, at))
  }

  /** The second number of a pair, and the place after it. */
  function SecondAt(mem: seq<Byte>, at: nat): (p: nat)
    requires HasEnd(mem, at)
  {
    at + Len(mem, at)
  }

  function AfterPair(mem: seq<Byte>, at: nat): (p: nat)
    requires HasPair(mem, at)
    ensures at + 2 <= p <= |mem|
  {
    SecondAt(mem, at) + Len(mem, SecondAt(mem, at))
  }

  // ------------------------------------------------------------ what the loops compute

  /** Past the attribute specifications that start at `at`. */
  function SkipSpecs(mem: seq<Byte>, at: nat): (p: Option<nat>)
    ensures p.Some? ==> at < p.value <= |mem|
    decreases |mem| - at
  {
    if !HasPair(mem, at) then None
    else if Unsigned(mem, at) == 0 && Unsigned(mem, SecondAt(mem, at)) == 0 then Some(AfterPair(mem, at))
    else SkipSpecs(mem, AfterPair(mem, at))
  }

  datatype Decl = Decl(tag: nat, specs: nat)

  /** The declaration with this code from `at` on. Off the end of the section the source
      goes on with the last tag it has read. */
  function FindDecl(mem: seq<Byte>, at: nat, code: nat, tag: nat): (d: Option<Decl>)
    ensures d.Some? && at <= |mem| ==> d.value.specs <= |mem|
    decreases |mem| - at
  {
    if at >= |mem| then Some(Decl(tag, at))
    else if !HasPair(mem, at) || AfterPair(mem, at) >= |mem| then None
    else if Unsigned(mem, at) == code then Some(Decl(Unsigned(mem, SecondAt(mem, at)), AfterPair(mem, at) + 1))
    else
      var p := SkipSpecs(mem, AfterPair(mem, at) + 1);
      if p.None? then None else FindDecl(mem, p.value, code, Unsigned(mem, SecondAt(mem, at)))
  }

  /** strcmp with a name that holds no zero byte. */
  predicate Spells(mem: seq<Byte>, at: nat, name: seq<Byte>) {
    At(mem, at, name + [0])
  }

  /** Whether the attribute value is the name looked for; nothing if the string does not
      end inside its section. */
  function NameHere(s: Sections, entry: nat, form: nat, name: seq<Byte>): (r: Option<bool>)
    requires entry <= |s.info| && FormSize(s.info, entry, form % MOD32).Some?
  {
    if form == STRP then
      var offset := LengthAt(s.info, entry).value.len;
      if HasNul(s.str, offset) then Some(Spells(s.str, offset, name)) else None
    else if HasNul(s.info, entry) then Some(Spells(s.info, entry, name))
    else None
  }

  datatype Die = Die(entry: nat, lowPc: nat, found: bool)

  /** The effect of one attribute. */
  function Attribute(s: Sections, d: Die, at: nat, form: nat, look: bool, name: seq<Byte>): (r: Option<Die>)
    requires d.entry <= |s.info|
    ensures r.Some? ==> d.entry <= r.value.entry <= |s.info|
  {
    var n := FormSize(s.info, d.entry, form % MOD32);
    if n.None? then None
    else if look && at == AT_LOW_PC then
      var v := FormNumber(s.info, d.entry, form % MOD32, s.base);
      if v.None? then None
      else Some(Die(d.entry + n.value, Over(d.lowPc, FormStored(s.info, d.entry, form % MOD32), v.value), d.found))
    else if look && at == AT_NAME then
      var same := NameHere(s, d.entry, form, name);
      if same.None? then None else Some(Die(d.entry + n.value, d.lowPc, d.found || same.value))
    else Some(d.(entry := d.entry + n.value))
  }

  /** The attributes of an entry, following the specifications at `at`, the pair of zeros
      included. */
  function Attributes(s: Sections, at: nat, d: Die, look: bool, name: seq<Byte>): (r: Option<Die>)
    requires d.entry <= |s.info|
    ensures r.Some? ==> d.entry <= r.value.entry <= |s.info|
    decreases |s.abbrev| - at
  {
    if !HasPair(s.abbrev, at) then None
    else
      var attr, form := Unsigned(s.abbrev, at), Unsigned(s.abbrev, SecondAt(s.abbrev, at));
      var e := Attribute(s, d, attr, form, look, name);
      if e.None? then None
      else if attr == 0 && form == 0 then e
      else Attributes(s, AfterPair(s.abbrev, at), e.value, look, name)
  }

  predicate Looks(tag: nat) {
    tag == TAG_SUBPROGRAM || tag == TAG_LABEL
  }

  datatype Walk = Hit(pc: nat) | Past(entry: nat)

  /** The entries of one unit. */
  function Entries(s: Sections, table: nat, entry: nat, end: nat, name: seq<Byte>): (w: Option<Walk>)
    ensures w.Some? && w.value.Past? ==> w.value.entry >= entry && w.value.entry >= end
    decreases |s.info| - entry
  {
    if entry >= end then Some(Past(entry))
    else if !HasEnd(s.info, entry) then None
    else
      var next := SecondAt(s.info, entry);
      if Unsigned(s.info, entry) == 0 then Entries(s, table, next, end, name)
      else
        var decl := FindDecl(s.abbrev, table, Unsigned(s.info, entry), 0);
        if decl.None? then None
        else
          var look := Looks(decl.value.tag);
          var d := Attributes(s, decl.value.specs, Die(next, 0, false), look, name);
          if d.None? then None
          else if look && d.value.found && d.value.lowPc > 0 then Some(Hit(d.value.lowPc))
          else Entries(s, table, d.value.entry, end, name)
  }

  /** All units from `entry` on. */
  function Units(s: Sections, entry: nat, name: seq<Byte>): (r: Result)
    decreases |s.info| - entry
  {
    if entry >= |s.info| then NoEntry
    else
      var length := LengthAt(s.info, entry);
      if length.None? then Crash
      else if length.value.count == 0 then BadDwarf
      else
        var p := entry + length.value.count;
        if p + 7 > |s.info| then Crash
        else
          var version := Little(s.info, p, 2);
          if (version != 4 && version != 2) || s.info[p + 6] != 8 then Crash
          else
            var w := Entries(s, Little(s.info, p + 2, 4), p + 7, p + length.value.len, name);
            if w.None? then Crash
            else if w.value.Hit? then Address(w.value.pc)
            else Units(s, w.value.entry, name)
  }

  /** Only units of versions 2 and 4 with eight-byte addresses get past the assertions. */
  lemma UnitRefused(s: Sections, entry: nat, name: seq<Byte>)
    requires entry + 11 <= |s.info| && Little(s.info, entry, 4) < 0xFFFF_FFF0
    requires Little(s.info, entry + 4, 2) !in {2, 4} || s.info[entry + 10] != 8
    ensures Units(s, entry, name) == Crash
  {
    hide Little, Entries;
  }

  // ------------------------------------------------------------ the loops

  method SkipSpecsFrom(mem: seq<Byte>, at: nat) returns (p: Option<nat>)
    ensures p == SkipSpecs(mem, at)
  {
    var cursor := at;
    while true
      invariant SkipSpecs(mem, cursor) == SkipSpecs(mem, at)
      decreases |mem| - cursor
    {
      if !HasPair(mem, cursor) {
        return None;
      }
      var name, n := ReadUleb(mem, cursor);
      var form, k := ReadUleb(mem, cursor + n);
      cursor := cursor + n + k;
      if name == 0 && form == 0 {
        return Some(cursor);
      }
    }
  }

  /** The search of the abbreviation table. */
  method FindAbbrev(mem: seq<Byte>, table: nat, code: nat) returns (d: Option<Decl>)
    ensures d == FindDecl(mem, table, code, 0)
  {
    hide HasEnd, Len, UValue, Unsigned, SkipSpecs;
    var cursor: nat, tag: nat := table, 0;
    while cursor < |mem|
      invariant FindDecl(mem, cursor, code, tag) == FindDecl(mem, table, code, 0)
      decreases |mem| - cursor
    {
      if !HasPair(mem, cursor) {
        return None;
      }
      var tableCode;
      tableCode, tag, cursor := ReadPair(mem, cursor);
      if cursor >= |mem| {
        return None;
      }
      cursor := cursor + 1;
      if tableCode == code {
        return Some(Decl(tag, cursor));
      }
      var p := SkipSpecsFrom(mem, cursor);
      if p.None? {
        return None;
      }
      cursor := p.value;
    }
    d := Some(Decl(tag, cursor));
  }

  /** strcmp(name, mem + at) == 0. */
  method Compare(mem: seq<Byte>, at: nat, name: seq<Byte>) returns (same: bool)
    requires HasNul(mem, at) && 0 !in name
    ensures same <==> Spells(mem, at, name)
  {
    var i := 0;
    while i < |name|
      invariant i <= |name| && HasNul(mem, at + i) && at + i < |mem|
      invariant mem[at..at + i] == name[..i]
    {
      assert name[i] in name;
      if mem[at + i] != name[i] {
        assert (name + [0])[i] == name[i];
        return false;
      }
      assert mem[at..at + i + 1] == mem[at..at + i] + [mem[at + i]];
      i := i + 1;
    }
    same := mem[at + i] == 0;
    assert mem[at..at + |name| + 1] == mem[at..at + i] + [mem[at + i]];
    assert (name + [0])[|name|] == 0;
  }

  /** The attributes of one entry: both do-while loops of the source, which differ in
      whether they look at the values. */
  method ReadAttributes(s: Sections, specs: nat, start: nat, look: bool, name: seq<Byte>) returns (r: Option<Die>)
    requires start <= |s.info| && 0 !in name
    ensures r == Attributes(s, specs, Die(start, 0, false), look, name)
  {
    hide HasEnd, Len, UValue, Unsigned, HasNul, FormSize, FormNumber, Spells, LengthAt;
    var cursor: nat, entry: nat, lowPc: nat, found := specs, start, 0, false;
    while true
      invariant entry <= |s.info|
      invariant Attributes(s, cursor, Die(entry, lowPc, found), look, name) ==
        Attributes(s, specs, Die(start, 0, false), look, name)
      decreases |s.abbrev| - cursor
    {
      if !HasPair(s.abbrev, cursor) {
        return None;
      }
      ghost var at, d := cursor, Die(entry, lowPc, found);
      var attr, form;
      attr, form, cursor := ReadPair(s.abbrev, cursor);
      var e := ReadAttribute(s, entry, lowPc, found, attr, form, look, name);
      if e.None? {
        return None;
      }
      entry, lowPc, found := e.value.entry, e.value.lowPc, e.value.found;
      if attr == 0 && form == 0 {
        return e;
      }
    }
  }

  method ReadPair(mem: seq<Byte>, at: nat) returns (first: nat, second: nat, next: nat)
    requires HasPair(mem, at)
    ensures first == Unsigned(mem, at) && second == Unsigned(mem, SecondAt(mem, at)) && next == AfterPair(mem, at)
  {
    var n, k;
    first, n := ReadUleb(mem, at);
    second, k := ReadUleb(mem, at + n);
    next := at + n + k;
  }

  method ReadAttribute(s: Sections, entry: nat, lowPc: nat, found: bool, attr: nat, form: nat, look: bool,
                       name: seq<Byte>)
    returns (r: Option<Die>)
    requires entry <= |s.info| && 0 !in name
    ensures r == Attribute(s, Die(entry, lowPc, found), attr, form, look, name)
  {
    hide HasEnd, Len, UValue, Unsigned, HasNul, FormSize, FormNumber, FormStored, Over, Spells;
    var n, data := ReadAbbrevEntry(s.info, entry, form, s.base,
      if look && attr == AT_LOW_PC then Some(lowPc) else None);
    if n.None? {
      return None;
    }
    var next := entry + n.value;
    if look && attr == AT_LOW_PC {
      return if data.Some? then Some(Die(next, data.value, found)) else None;
    }
    if look && attr == AT_NAME {
      if form == STRP {
        OffsetSize(s.info, entry);
        var offset := EntryLen(s.info, entry);
        if !HasNul(s.str, offset.value.len) {
          return None;
        }
        var same := Compare(s.str, offset.value.len, name);
        return Some(Die(next, lowPc, found || same));
      }
      if !HasNul(s.info, entry) {
        return None;
      }
      var same := Compare(s.info, entry, name);
      return Some(Die(next, lowPc, found || same));
    }
    r := Some(Die(next, lowPc, found));
  }

  lemma OffsetSize(mem: seq<Byte>, at: nat)
    requires at <= |mem| && FormSize(mem, at, STRP % MOD32).Some?
    ensures LengthAt(mem, at).Some?
  {
  }

  /** The inner loop of naive_address_by_fname. */
  method ReadEntries(s: Sections, table: nat, start: nat, end: nat, name: seq<Byte>) returns (w: Option<Walk>)
    requires 0 !in name
    ensures w == Entries(s, table, start, end, name)
  {
    hide HasEnd, Len, UValue, Unsigned, FindDecl, Attributes;
    var entry := start;
    while entry < end
      invariant Entries(s, table, entry, end, name) == Entries(s, table, start, end, name)
      decreases |s.info| - entry
    {
      if !HasEnd(s.info, entry) {
        return None;
      }
      var code, count := ReadUleb(s.info, entry);
      CodeIs(s.info, entry, code, count);
      ghost var at := entry;
      entry := entry + count;
      if code != 0 {
        var decl := FindAbbrev(s.abbrev, table, code);
        if decl.None? {
          return None;
        }
        var look := Looks(decl.value.tag);
        var d := ReadAttributes(s, decl.value.specs, entry, look, name);
        if d.None? {
          return None;
        }
        if look && d.value.found && d.value.lowPc != 0 {
          return Some(Hit(d.value.lowPc));
        }
        entry := d.value.entry;
      }
    }
    w := Some(Past(entry));
  }

  lemma CodeIs(mem: seq<Byte>, at: nat, code: nat, count: nat)
    requires HasEnd(mem, at) && code == UValue(mem, at) % MOD64 && count == Len(mem, at)
    ensures code == Unsigned(mem, at) && at + count <= |mem| && count > 0
  {
  }

  /** naive_address_by_fname. */
  method NaiveAddressByFname(s: Sections, name: seq<Byte>) returns (r: Result)
    requires 0 !in name
    ensures r == if name == [] then Invalid else Units(s, 0, name)
  {
    hide LengthAt, Entries, Little;
    if |name| == 0 {
      return Invalid;
    }
    var entry := 0;
    while entry < |s.info|
      invariant Units(s, entry, name) == Units(s, 0, name)
      decreases |s.info| - entry
    {
      var length := EntryLen(s.info, entry);
      if length.None? {
        return Crash;
      }
      if length.value.count == 0 {
        return BadDwarf;
      }
      var p := entry + length.value.count;
      if p + 7 > |s.info| {
        return Crash;
      }
      var version := ReadLittle(s.info, p, 2);
      var abbrevOffset := ReadLittle(s.info, p + 2, 4);
      var addressSize := s.info[p + 6];
      if (version != 4 && version != 2) || addressSize != 8 {
        return Crash;
      }
      var w := ReadEntries(s, abbrevOffset, p + 7, p + length.value.len, name);
      if w.None? {
        return Crash;
      }
      if w.value.Hit? {
        return Address(w.value.pc);
      }
      entry := w.value.entry;
    }
    r := NoEntry;
  }
}
