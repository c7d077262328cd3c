/**
 Well-formed debug sections: compilation units and their abbreviations as values, the
 bytes that hold them, and what the walk of DwarfWalk finds in them.
 */
module DwarfUnits {
  import opened Leb128
  import opened DwarfBytes
  import opened DwarfForms
  import opened DwarfWalk

  datatype Spec = Spec(name: nat, form: nat)

  datatype Abbrev = Abbrev(code: nat, tag: nat, children: Byte, specs: seq<Spec>)

  /** A debugging information entry, or the null entry that ends a list of siblings. */
  datatype Dbg = NullEntry | Dbg(code: nat, values: seq<Value>)

  datatype Unit = Unit(version: nat, table: nat, abbrevs: seq<Abbrev>, dies: seq<Dbg>)

  // ------------------------------------------------------------ bytes

  function SpecBytes(specs: seq<Spec>): (bs: seq<Byte>) {
    if specs == [] then Uleb(0) + Uleb(0)
    else Uleb(specs[0].name) + (Uleb(specs[0].form) + SpecBytes(specs[1..]))
  }

  function AbbrevBytes(a: Abbrev): (bs: seq<Byte>) {
    Uleb(a.code) + (Uleb(a.tag) + ([a.children] + SpecBytes(a.specs)))
  }

  /** A table ends with a zero code. */
  function TableBytes(abbrevs: seq<Abbrev>): (bs: seq<Byte>) {
    if abbrevs == [] then Uleb(0) else AbbrevBytes(abbrevs[0]) + TableBytes(abbrevs[1..])
  }

  function AttrBytes(specs: seq<Spec>, values: seq<Value>): (bs: seq<Byte>)
    requires |specs| == |values|
  {
    if specs == [] then []
    else ValueBytes(specs[0].form, values[0]) + AttrBytes(specs[1..], values[1..])
  }

  /** The first abbreviation with a code. */
  function ByCode(abbrevs: seq<Abbrev>, code: nat): (a: Option<Abbrev>) {
    if abbrevs == [] then None
    else if abbrevs[0].code == code then Some(abbrevs[0])
    else ByCode(abbrevs[1..], code)
  }

  function DieBytes(abbrevs: seq<Abbrev>, d: Dbg): (bs: seq<Byte>)
    requires DieShape(abbrevs, d)
  {
    match d
    case NullEntry => Uleb(0)
    case Dbg(code, values) => Uleb(code) + AttrBytes(ByCode(abbrevs, code).value.specs, values)
  }

  predicate DieShape(abbrevs: seq<Abbrev>, d: Dbg) {
    d.Dbg? ==> ByCode(abbrevs, d.code).Some? && |ByCode(abbrevs, d.code).value.specs| == |d.values|
  }

  predicate DiesShape(abbrevs: seq<Abbrev>, dies: seq<Dbg>) {
    dies == [] || (DieShape(abbrevs, dies[0]) && DiesShape(abbrevs, dies[1..]))
  }

  function DiesBytes(abbrevs: seq<Abbrev>, dies: seq<Dbg>): (bs: seq<Byte>)
    requires DiesShape(abbrevs, dies)
  {
    if dies == [] then [] else DieBytes(abbrevs, dies[0]) + DiesBytes(abbrevs, dies[1..])
  }

  /** Length, version, abbreviation offset, address size; the length counts what follows
      it. */
  function UnitBytes(u: Unit): (bs: seq<Byte>)
    requires DiesShape(u.abbrevs, u.dies)
  {
    var body := DiesBytes(u.abbrevs, u.dies);
    LittleBytes(7 + |body|, 4) + (LittleBytes(u.version, 2) + (LittleBytes(u.table, 4) + ([8] + body)))
  }

  function InfoBytes(us: seq<Unit>): (bs: seq<Byte>)
    requires Shapes(us)
  {
    if us == [] then [] else UnitBytes(us[0]) + InfoBytes(us[1..])
  }

  predicate Shapes(us: seq<Unit>) {
    us == [] || (DiesShape(us[0].abbrevs, us[0].dies) && Shapes(us[1..]))
  }

  // ------------------------------------------------------------ well-formed sections

  /** Entries for subprograms and for labels; DW_AT_name is attribute 0x03 and DW_AT_low_pc
      attribute 0x11 (sections 7.5.3 and 7.5.4). */
  predicate Sought(tag: nat) {
    tag == 0x2E || tag == 0x0A
  }

  predicate SpecsOk(specs: seq<Spec>) {
    specs == [] ||
    (&& specs[0].name < 0x1_0000_0000_0000_0000 && specs[0].form < 0x1_0000_0000_0000_0000
     && (specs[0].name != 0 || specs[0].form != 0)
     && SpecsOk(specs[1..]))
  }

  predicate TableOk(abbrevs: seq<Abbrev>) {
    abbrevs == [] ||
    (&& 0 < abbrevs[0].code < 0x1_0000_0000_0000_0000 && abbrevs[0].tag < 0x1_0000_0000_0000_0000
     && SpecsOk(abbrevs[0].specs) && TableOk(abbrevs[1..]))
  }

  /** The value is a string, there or in .debug_str, whatever forms lead to it. */
  predicate IsName(str: seq<Byte>, form: nat, v: Value)
    decreases v
  {
    match v
    case Text(_) => true
    case Word(n) => form == 0x0E && HasNul(str, n)
    case Other(g, w) => IsName(str, g, w)
    case _ => false
  }

  /** Addresses are numbers and names are strings; `more` is what follows the value in its
      section. What the walk takes for a string ends there. */
  predicate ValueOk(str: seq<Byte>, spec: Spec, v: Value, look: bool, more: seq<Byte>) {
    && Fits(spec.form, v)
    && (look && spec.name == 0x11 ==> Numeric(v))
    && (look && spec.name == 0x03 ==>
        IsName(str, spec.form, v) && (spec.form != 0x0E ==> 0 in ValueBytes(spec.form, v) + more))
  }

  predicate ValuesOk(str: seq<Byte>, specs: seq<Spec>, values: seq<Value>, look: bool, more: seq<Byte>)
    requires |specs| == |values|
  {
    specs == [] ||
    (&& ValueOk(str, specs[0], values[0], look, AttrBytes(specs[1..], values[1..]) + more)
     && ValuesOk(str, specs[1..], values[1..], look, more))
  }

  predicate DieOk(str: seq<Byte>, abbrevs: seq<Abbrev>, d: Dbg, more: seq<Byte>)
    requires DieShape(abbrevs, d)
  {
    d.Dbg? ==>
      var a := ByCode(abbrevs, d.code).value;
      0 < d.code < 0x1_0000_0000_0000_0000 && ValuesOk(str, a.specs, d.values, Sought(a.tag), more)
  }

  predicate DiesOk(str: seq<Byte>, abbrevs: seq<Abbrev>, dies: seq<Dbg>, more: seq<Byte>)
    requires DiesShape(abbrevs, dies)
  {
    dies == [] ||
    (DieOk(str, abbrevs, dies[0], DiesBytes(abbrevs, dies[1..]) + more) && DiesOk(str, abbrevs, dies[1..], more))
  }

  /** A 32-bit unit whose abbreviations stand where it says. */
  predicate UnitOk(s: Sections, u: Unit, more: seq<Byte>)
    requires DiesShape(u.abbrevs, u.dies)
  {
    && (u.version == 2 || u.version == 4) && u.table < 0x1_0000_0000
    && 7 + |DiesBytes(u.abbrevs, u.dies)| < 0xFFFF_FFF0
    && TableOk(u.abbrevs) && At(s.abbrev, u.table, TableBytes(u.abbrevs))
    && DiesOk(s.str, u.abbrevs, u.dies, more)
  }

  predicate UnitsOk(s: Sections, us: seq<Unit>)
    requires Shapes(us)
  {
    us == [] || (UnitOk(s, us[0], InfoBytes(us[1..])) && UnitsOk(s, us[1..]))
  }

  // ------------------------------------------------------------ what is looked for

  /** What comes before the first zero byte. */
  function TextOf(bs: seq<Byte>): (text: seq<Byte>) {
    if bs == [] || bs[0] == 0 then [] else [bs[0]] + TextOf(bs[1..])
  }

  /** The name a value stands for. */
  function Meaning(str: seq<Byte>, form: nat, v: Value): (name: seq<Byte>)
    decreases v
  {
    match v
    case Text(name) => name
    case Word(n) => if n <= |str| then TextOf(str[n..]) else []
    case Other(g, w) => Meaning(str, g, w)
    case _ => []
  }

  /** The name the walk takes it for: unless the form is DW_FORM_strp, whatever stands there,
      form numbers included. */
  function AsRead(str: seq<Byte>, form: nat, v: Value, more: seq<Byte>): (name: seq<Byte>) {
    if form == 0x0E then Meaning(str, form, v) else TextOf(ValueBytes(form, v) + more)
  }

  /** How names are taken: for what they stand for, or as the walk takes them. */
  datatype Reading = Meant | Read

  /** Whether a name attribute spells the name. */
  predicate Named(how: Reading, str: seq<Byte>, spec: Spec, v: Value, more: seq<Byte>, name: seq<Byte>) {
    spec.name == 0x03 && name == if how.Meant? then Meaning(str, spec.form, v) else AsRead(str, spec.form, v, more)
  }

  predicate HasName(how: Reading, str: seq<Byte>, specs: seq<Spec>, values: seq<Value>, more: seq<Byte>,
                    name: seq<Byte>)
    requires |specs| == |values|
  {
    specs != [] &&
    (|| Named(how, str, specs[0], values[0], AttrBytes(specs[1..], values[1..]) + more, name)
     || HasName(how, str, specs[1..], values[1..], more, name))
  }

  /** The low_pc of an entry; attributes of that name fill the same eight bytes in turn. */
  function LowPc(specs: seq<Spec>, values: seq<Value>, otherwise: nat): (pc: nat)
    requires |specs| == |values|
  {
    if specs == [] then otherwise
    else LowPc(specs[1..], values[1..], Filled(specs[0], values[0], otherwise))
  }

  function Filled(spec: Spec, v: Value, pc: nat): (r: nat) {
    if spec.name == 0x11 then Over(pc, StoredOf(spec.form, v), NumberOf(spec.form, v)) else pc
  }

  /** Whether an entry is a subprogram or label with this name and a low_pc. */
  predicate Matches(how: Reading, str: seq<Byte>, abbrevs: seq<Abbrev>, d: Dbg, more: seq<Byte>, name: seq<Byte>)
    requires DieShape(abbrevs, d)
  {
    d.Dbg? &&
    var a := ByCode(abbrevs, d.code).value;
    Sought(a.tag) && HasName(how, str, a.specs, d.values, more, name) && LowPc(a.specs, d.values, 0) > 0
  }

  function FirstEntry(how: Reading, str: seq<Byte>, abbrevs: seq<Abbrev>, dies: seq<Dbg>, more: seq<Byte>,
                      name: seq<Byte>): (pc: Option<nat>)
    requires DiesShape(abbrevs, dies)
  {
    if dies == [] then None
    else if Matches(how, str, abbrevs, dies[0], DiesBytes(abbrevs, dies[1..]) + more, name) then
      Some(LowPc(ByCode(abbrevs, dies[0].code).value.specs, dies[0].values, 0))
    else FirstEntry(how, str, abbrevs, dies[1..], more, name)
  }

  /** The low_pc of the first entry in order of the section that matches. */
  function First(how: Reading, str: seq<Byte>, us: seq<Unit>, name: seq<Byte>): (pc: Option<nat>)
    requires Shapes(us)
  {
    if us == [] then None
    else
      var pc := FirstEntry(how, str, us[0].abbrevs, us[0].dies, InfoBytes(us[1..]), name);
      if pc.Some? then pc else First(how, str, us[1..], name)
  }

  // ------------------------------------------------------------ abbreviations

  lemma PairReads(mem: seq<Byte>, at: nat, a: nat, b: nat, rest: seq<Byte>) returns (next: nat)
    requires At(mem, at, Uleb(a) + (Uleb(b) + rest)) && a < MOD64 && b < MOD64
    ensures HasPair(mem, at) && Unsigned(mem, at) == a && Unsigned(mem, SecondAt(mem, at)) == b
    ensures next == AfterPair(mem, at) == at + |Uleb(a)| + |Uleb(b)| && At(mem, next, rest)
  {
    hide HasEnd, Len, UValue, Unsigned, Uleb;
    AtSplit(mem, at, Uleb(a), Uleb(b) + rest);
    UnsignedReads(mem, at, a);
    AtSplit(mem, at + |Uleb(a)|, Uleb(b), rest);
    UnsignedReads(mem, at + |Uleb(a)|, b);
    next := at + |Uleb(a)| + |Uleb(b)|;
  }

  lemma {:induction false} SpecsSkip(mem: seq<Byte>, at: nat, specs: seq<Spec>)
    requires SpecsOk(specs) && At(mem, at, SpecBytes(specs))
    ensures SkipSpecs(mem, at) == Some(at + |SpecBytes(specs)|)
    decreases |specs|
  {
    hide HasEnd, Len, UValue, Unsigned, Uleb, At, HasPair, AfterPair;
    if specs == [] {
      assert Uleb(0) + (Uleb(0) + []) == Uleb(0) + Uleb(0);
      var next := PairReads(mem, at, 0, 0, []);
    } else {
      var next := PairReads(mem, at, specs[0].name, specs[0].form, SpecBytes(specs[1..]));
      SpecsSkip(mem, next, specs[1..]);
    }
  }

  /** The search finds the first abbreviation with the code. */
  lemma {:induction false} FindReads(mem: seq<Byte>, at: nat, abbrevs: seq<Abbrev>, code: nat, tag: nat)
    requires TableOk(abbrevs) && At(mem, at, TableBytes(abbrevs)) && ByCode(abbrevs, code).Some?
    ensures var a := ByCode(abbrevs, code).value;
      var d := FindDecl(mem, at, code, tag);
      d.Some? && d.value.tag == a.tag && SpecsOk(a.specs) && At(mem, d.value.specs, SpecBytes(a.specs))
    decreases |abbrevs|
  {
    hide HasEnd, Len, UValue, Unsigned, Uleb, At, HasPair, AfterPair, SpecBytes, SkipSpecs;
    var a, rest := abbrevs[0], TableBytes(abbrevs[1..]);
    AtSplit(mem, at, AbbrevBytes(a), rest);
    var next := PairReads(mem, at, a.code, a.tag, [a.children] + SpecBytes(a.specs));
    AtSplit(mem, next, [a.children], SpecBytes(a.specs));
    Within(mem, next, [a.children] + SpecBytes(a.specs));
    if a.code != code {
      SpecsSkip(mem, next + 1, a.specs);
      assert |AbbrevBytes(a)| == next + 1 + |SpecBytes(a.specs)| - at;
      FindReads(mem, next + 1 + |SpecBytes(a.specs)|, abbrevs[1..], code, a.tag);
    }
  }

  lemma Within(mem: seq<Byte>, at: nat, bs: seq<Byte>)
    requires At(mem, at, bs)
    ensures at + |bs| <= |mem|
  {
  }

  // ------------------------------------------------------------ attributes

  /** These bytes are the rest of the section. */
  predicate Ends(mem: seq<Byte>, at: nat, bs: seq<Byte>) {
    at <= |mem| && mem[at..] == bs
  }

  lemma EndsSplit(mem: seq<Byte>, at: nat, a: seq<Byte>, b: seq<Byte>)
    requires Ends(mem, at, a + b)
    ensures At(mem, at, a) && Ends(mem, at + |a|, b)
  {
    assert (a + b)[..|a|] == a && (a + b)[|a|..] == b;
    assert mem[at..][..|a|] == mem[at..at + |a|];
    assert mem[at..][|a|..] == mem[at + |a|..];
  }

  /** strcmp sees the text before the first zero byte. */
  lemma {:induction false} TextSpells(mem: seq<Byte>, at: nat, name: seq<Byte>)
    requires at <= |mem| && 0 in mem[at..] && 0 !in name
    ensures HasNul(mem, at)
    ensures Spells(mem, at, name) <==> name == TextOf(mem[at..])
    decreases |mem| - at
  {
    if mem[at] == 0 {
      assert name != [] ==> (name + [0])[0] in name;
      assert mem[at..at + 1] == [0];
    } else {
      assert mem[at + 1..] == mem[at..][1..];
      if name == [] {
        TextSpells(mem, at + 1, []);
      } else {
        TextSpells(mem, at + 1, name[1..]);
        SpellsStep(mem, at, name);
      }
    }
  }

  lemma SpellsStep(mem: seq<Byte>, at: nat, name: seq<Byte>)
    requires at < |mem| && name != []
    ensures Spells(mem, at, name) <==> mem[at] == name[0] && Spells(mem, at + 1, name[1..])
  {
    var n, rest := |name|, name[1..] + [0];
    assert name + [0] == [name[0]] + rest;
    if at + n + 1 <= |mem| {
      var there := mem[at + 1..at + n + 1];
      assert mem[at..at + n + 1] == [mem[at]] + there;
      assert ([mem[at]] + there)[1..] == there && ([name[0]] + rest)[1..] == rest;
    }
  }

  lemma {:induction false} NulIn(mem: seq<Byte>, at: nat)
    requires HasNul(mem, at)
    ensures at <= |mem| && 0 in mem[at..]
    decreases |mem| - at
  {
    if mem[at] != 0 {
      NulIn(mem, at + 1);
      assert mem[at + 1..] == mem[at..][1..];
    } else {
      assert mem[at..][0] == 0;
    }
  }

  /** What one attribute contributes. */
  function After(str: seq<Byte>, d: Die, spec: Spec, v: Value, look: bool, more: seq<Byte>, name: seq<Byte>): (r: Die) {
    Die(d.entry + |ValueBytes(spec.form, v)|,
        if look then Filled(spec, v, d.lowPc) else d.lowPc,
        d.found || (look && Named(Read, str, spec, v, more, name)))
  }

  lemma FitsSmall(form: nat, v: Value)
    requires Fits(form, v)
    ensures form % MOD32 == form
  {
  }

  lemma AttributeReads(s: Sections, d: Die, spec: Spec, v: Value, look: bool, more: seq<Byte>, name: seq<Byte>)
    requires ValueOk(s.str, spec, v, look, more) && Ends(s.info, d.entry, ValueBytes(spec.form, v) + more) && 0 !in name
    ensures d.entry <= |s.info|
    ensures Attribute(s, d, spec.name, spec.form, look, name) == Some(After(s.str, d, spec, v, look, more, name))
  {
    hide HasEnd, Len, UValue, Unsigned, Uleb, FormSize, FormNumber, FormStored, Over, HasNul, Little, LittleBytes, At;
    hide Spells, TextOf, ValueBytes, Fits;
    FitsSmall(spec.form, v);
    EndsSplit(s.info, d.entry, ValueBytes(spec.form, v), more);
    ValueReads(s.info, d.entry, spec.form, v, s.base);
    if look && spec.name == AT_NAME {
      if spec.form == STRP {
        NameAside(s, d.entry, v, name);
      } else {
        TextSpells(s.info, d.entry, name);
      }
    }
  }

  /** A name in .debug_str. */
  lemma NameAside(s: Sections, entry: nat, v: Value, name: seq<Byte>)
    requires Fits(STRP, v) && IsName(s.str, STRP, v) && At(s.info, entry, ValueBytes(STRP, v)) && 0 !in name
    ensures v.Word? && LengthAt(s.info, entry) == Some(Length(4, v.n)) && HasNul(s.str, v.n)
    ensures Spells(s.str, v.n, name) <==> name == Meaning(s.str, STRP, v)
  {
    hide HasNul, LittleBytes, At, Spells, TextOf;
    LengthReads(s.info, entry, v.n);
    NulIn(s.str, v.n);
    TextSpells(s.str, v.n, name);
  }

  /** What all of them contribute. */
  function Total(str: seq<Byte>, d: Die, specs: seq<Spec>, values: seq<Value>, look: bool, more: seq<Byte>,
                 name: seq<Byte>): (r: Die)
    requires |specs| == |values|
  {
    Die(d.entry + |AttrBytes(specs, values)|,
        if look then LowPc(specs, values, d.lowPc) else d.lowPc,
        d.found || (look && HasName(Read, str, specs, values, more, name)))
  }

  /** The cursor lands just after the entry, whatever its attributes are used for. */
  lemma {:induction false} AttributesRead(s: Sections, at: nat, d: Die, specs: seq<Spec>, values: seq<Value>,
                                          look: bool, more: seq<Byte>, name: seq<Byte>)
    requires SpecsOk(specs) && At(s.abbrev, at, SpecBytes(specs)) && |specs| == |values| && 0 !in name
    requires ValuesOk(s.str, specs, values, look, more) && Ends(s.info, d.entry, AttrBytes(specs, values) + more)
    ensures d.entry <= |s.info|
    ensures Attributes(s, at, d, look, name) == Some(Total(s.str, d, specs, values, look, more, name))
    decreases |specs|
  {
    hide HasEnd, Len, UValue, Unsigned, Uleb, At, HasPair, AfterPair, Attribute, ValueOk, ValueBytes, Named, Filled;
    if specs == [] {
      assert Uleb(0) + (Uleb(0) + []) == Uleb(0) + Uleb(0);
      var next := PairReads(s.abbrev, at, 0, 0, []);
      NoAttribute(s, d, look, name);
    } else {
      var next := PairReads(s.abbrev, at, specs[0].name, specs[0].form, SpecBytes(specs[1..]));
      var v, rest := ValueBytes(specs[0].form, values[0]), AttrBytes(specs[1..], values[1..]) + more;
      assert AttrBytes(specs, values) + more == v + rest;
      EndsSplit(s.info, d.entry, v, rest);
      AttributeReads(s, d, specs[0], values[0], look, rest, name);
      AttributesRead(s, next, After(s.str, d, specs[0], values[0], look, rest, name), specs[1..], values[1..],
                     look, more, name);
    }
  }

  lemma NoAttribute(s: Sections, d: Die, look: bool, name: seq<Byte>)
    requires d.entry <= |s.info|
    ensures Attribute(s, d, 0, 0, look, name) == Some(d)
  {
  }

  // ------------------------------------------------------------ entries and units

  /** What the inner loop makes of the entries of one unit. */
  lemma {:induction false} EntriesRead(s: Sections, u: Unit, dies: seq<Dbg>, entry: nat, end: nat, more: seq<Byte>,
                                       name: seq<Byte>)
    requires TableOk(u.abbrevs) && At(s.abbrev, u.table, TableBytes(u.abbrevs)) && 0 !in name
    requires DiesShape(u.abbrevs, dies) && DiesOk(s.str, u.abbrevs, dies, more)
    requires Ends(s.info, entry, DiesBytes(u.abbrevs, dies) + more) && end == entry + |DiesBytes(u.abbrevs, dies)|
    ensures var pc := FirstEntry(Read, s.str, u.abbrevs, dies, more, name);
      Entries(s, u.table, entry, end, name) == Some(if pc.Some? then Hit(pc.value) else Past(end))
    decreases |dies|
  {
    hide HasEnd, Len, UValue, Unsigned, Uleb, At, Attributes, FindDecl, TableOk, TableBytes, AttrBytes, HasName;
    hide LowPc, ByCode, Entries, DiesBytes, DieBytes, Matches, Ends, DieOk, FirstEntry;
    if dies == [] {
      NoEntries(s, u, entry, end, more, name);
    } else {
      var next := DiesSplit(s.info, u.abbrevs, dies, entry, more);
      var rest := DiesBytes(u.abbrevs, dies[1..]) + more;
      DieRead(s, u, dies[0], entry, rest, name);
      EntriesRead(s, u, dies[1..], next, end, more, name);
      EntryStep(s, u, dies[0], entry, next, end, rest, name);
      FirstStep(s.str, u.abbrevs, dies, more, name);
    }
  }

  lemma FirstStep(str: seq<Byte>, abbrevs: seq<Abbrev>, dies: seq<Dbg>, more: seq<Byte>, name: seq<Byte>)
    requires dies != [] && DiesShape(abbrevs, dies)
    ensures FirstEntry(Read, str, abbrevs, dies, more, name) ==
      if Matches(Read, str, abbrevs, dies[0], DiesBytes(abbrevs, dies[1..]) + more, name) then
        Some(LowPc(ByCode(abbrevs, dies[0].code).value.specs, dies[0].values, 0))
      else FirstEntry(Read, str, abbrevs, dies[1..], more, name)
  {
    hide HasName, LowPc, ByCode, DiesBytes;
  }

  lemma NoEntries(s: Sections, u: Unit, entry: nat, end: nat, more: seq<Byte>, name: seq<Byte>)
    requires end == entry + |DiesBytes(u.abbrevs, [])|
    ensures FirstEntry(Read, s.str, u.abbrevs, [], more, name) == None
    ensures Entries(s, u.table, entry, end, name) == Some(Past(end))
  {
  }

  lemma DiesSplit(mem: seq<Byte>, abbrevs: seq<Abbrev>, dies: seq<Dbg>, entry: nat, more: seq<Byte>)
    returns (next: nat)
    requires dies != [] && DiesShape(abbrevs, dies) && Ends(mem, entry, DiesBytes(abbrevs, dies) + more)
    ensures next == entry + |DieBytes(abbrevs, dies[0])|
    ensures |DiesBytes(abbrevs, dies)| == |DieBytes(abbrevs, dies[0])| + |DiesBytes(abbrevs, dies[1..])|
    ensures Ends(mem, entry, DieBytes(abbrevs, dies[0]) + (DiesBytes(abbrevs, dies[1..]) + more))
    ensures Ends(mem, next, DiesBytes(abbrevs, dies[1..]) + more)
  {
    hide DieBytes, Ends;
    var first, rest := DieBytes(abbrevs, dies[0]), DiesBytes(abbrevs, dies[1..]) + more;
    assert DiesBytes(abbrevs, dies) + more == first + rest;
    EndsSplit(mem, entry, first, rest);
    next := entry + |first|;
  }

  /** One entry: where it ends, and what its attributes say. */
  lemma DieRead(s: Sections, u: Unit, d: Dbg, entry: nat, more: seq<Byte>, name: seq<Byte>)
    requires TableOk(u.abbrevs) && At(s.abbrev, u.table, TableBytes(u.abbrevs)) && 0 !in name
    requires DieShape(u.abbrevs, d) && DieOk(s.str, u.abbrevs, d, more)
    requires Ends(s.info, entry, DieBytes(u.abbrevs, d) + more)
    ensures HasEnd(s.info, entry) && Unsigned(s.info, entry) == if d.Dbg? then d.code else 0
    ensures d.NullEntry? ==> SecondAt(s.info, entry) == entry + |DieBytes(u.abbrevs, d)|
    ensures d.Dbg? ==> d.code > 0
    ensures entry + |DieBytes(u.abbrevs, d)| <= |s.info| && |DieBytes(u.abbrevs, d)| > 0
    ensures d.Dbg? ==>
      var a := ByCode(u.abbrevs, d.code).value;
      var decl := FindDecl(s.abbrev, u.table, d.code, 0);
      && decl.Some? && decl.value.tag == a.tag
      && Attributes(s, decl.value.specs, Die(SecondAt(s.info, entry), 0, false), Looks(a.tag), name)
         == Some(Total(s.str, Die(SecondAt(s.info, entry), 0, false), a.specs, d.values, Looks(a.tag), more, name))
      && SecondAt(s.info, entry) + |AttrBytes(a.specs, d.values)| == entry + |DieBytes(u.abbrevs, d)|
  {
    hide HasEnd, Len, UValue, Unsigned, Uleb, At, Attributes, FindDecl, TableOk, TableBytes, SpecsOk, SpecBytes;
    hide ValuesOk, AttrBytes, HasName, LowPc, ByCode, Total;
    EndsSplit(s.info, entry, DieBytes(u.abbrevs, d), more);
    Within(s.info, entry, DieBytes(u.abbrevs, d));
    match d
    case NullEntry => UnsignedReads(s.info, entry, 0);
    case Dbg(code, values) =>
      var a := ByCode(u.abbrevs, code).value;
      assert DieBytes(u.abbrevs, d) + more == Uleb(code) + (AttrBytes(a.specs, values) + more);
      EndsSplit(s.info, entry, Uleb(code), AttrBytes(a.specs, values) + more);
      UnsignedReads(s.info, entry, code);
      FindReads(s.abbrev, u.table, u.abbrevs, code, 0);
      var specs := FindDecl(s.abbrev, u.table, code, 0).value.specs;
      AttributesRead(s, specs, Die(entry + |Uleb(code)|, 0, false), a.specs, values, Looks(a.tag), more, name);
  }

  lemma EntryStep(s: Sections, u: Unit, d: Dbg, entry: nat, next: nat, end: nat, more: seq<Byte>, name: seq<Byte>)
    requires entry < end && HasEnd(s.info, entry) && Unsigned(s.info, entry) == if d.Dbg? then d.code else 0
    requires DieShape(u.abbrevs, d) && (d.Dbg? ==> d.code > 0) && SecondAt(s.info, entry) <= |s.info|
    requires d.NullEntry? ==> SecondAt(s.info, entry) == next
    requires d.Dbg? ==>
      var a := ByCode(u.abbrevs, d.code).value;
      var decl := FindDecl(s.abbrev, u.table, d.code, 0);
      && decl.Some? && decl.value.tag == a.tag
      && Attributes(s, decl.value.specs, Die(SecondAt(s.info, entry), 0, false), Looks(a.tag), name)
         == Some(Total(s.str, Die(SecondAt(s.info, entry), 0, false), a.specs, d.values, Looks(a.tag), more, name))
      && SecondAt(s.info, entry) + |AttrBytes(a.specs, d.values)| == next
    ensures Entries(s, u.table, entry, end, name) ==
      if Matches(Read, s.str, u.abbrevs, d, more, name) then
        Some(Hit(LowPc(ByCode(u.abbrevs, d.code).value.specs, d.values, 0)))
      else Entries(s, u.table, next, end, name)
  {
    hide HasEnd, Len, UValue, Unsigned, Attributes, FindDecl, AttrBytes, HasName, LowPc, ByCode;
  }

  /** The outer loop: the cursor stands at a unit's first byte each time round, and the
      answer is the first match. */
  lemma {:induction false} UnitsRead(s: Sections, us: seq<Unit>, entry: nat, name: seq<Byte>) returns (pc: Option<nat>)
    requires Shapes(us) && UnitsOk(s, us) && 0 !in name
    requires Ends(s.info, entry, InfoBytes(us))
    ensures pc == First(Read, s.str, us, name)
    ensures Units(s, entry, name) == if pc.Some? then Address(pc.value) else NoEntry
    decreases |us|
  {
    if us == [] {
      pc := None;
    } else {
      hide Ends, UnitOk, FirstEntry, Entries, LengthAt, Little, Units, InfoBytes, UnitBytes;
      var u := us[0];
      var end := UnitsSplit(s, us, entry);
      pc := UnitRead(s, u, entry, end, InfoBytes(us[1..]), name);
      if pc.None? {
        pc := UnitsRead(s, us[1..], end, name);
      }
    }
  }

  lemma UnitsSplit(s: Sections, us: seq<Unit>, entry: nat) returns (end: nat)
    requires us != [] && Shapes(us) && Ends(s.info, entry, InfoBytes(us))
    ensures Ends(s.info, entry, UnitBytes(us[0]) + InfoBytes(us[1..]))
    ensures end == entry + |UnitBytes(us[0])| && Ends(s.info, end, InfoBytes(us[1..])) && entry < |s.info|
  {
    hide UnitBytes, Ends;
    EndsSplit(s.info, entry, UnitBytes(us[0]), InfoBytes(us[1..]));
    end := entry + |UnitBytes(us[0])|;
    UnitLong(us[0]);
    Within(s.info, entry, UnitBytes(us[0]));
  }

  lemma UnitLong(u: Unit)
    requires DiesShape(u.abbrevs, u.dies)
    ensures |UnitBytes(u)| > 0
  {
  }

  lemma UnitRead(s: Sections, u: Unit, entry: nat, end: nat, more: seq<Byte>, name: seq<Byte>)
    returns (pc: Option<nat>)
    requires DiesShape(u.abbrevs, u.dies) && UnitOk(s, u, more) && 0 !in name
    requires Ends(s.info, entry, UnitBytes(u) + more) && end == entry + |UnitBytes(u)|
    ensures pc == FirstEntry(Read, s.str, u.abbrevs, u.dies, more, name)
    ensures Units(s, entry, name) == if pc.Some? then Address(pc.value) else Units(s, end, name)
  {
    hide At, DiesBytes, DiesOk, TableOk, TableBytes, FirstEntry, Entries, LengthAt, Little, LittleBytes, Units;
    var body := DiesBytes(u.abbrevs, u.dies);
    UnitHead(s.info, entry, u, body, more);
    HeaderReads(s.info, entry, u, body);
    EntriesRead(s, u, u.dies, entry + 11, end, more, name);
    UnitStep(s, entry, u, |body|, name);
    pc := FirstEntry(Read, s.str, u.abbrevs, u.dies, more, name);
  }

  lemma UnitHead(mem: seq<Byte>, at: nat, u: Unit, body: seq<Byte>, more: seq<Byte>)
    requires DiesShape(u.abbrevs, u.dies) && body == DiesBytes(u.abbrevs, u.dies)
    requires Ends(mem, at, UnitBytes(u) + more)
    ensures At(mem, at, UnitBytes(u)) && Ends(mem, at + 11, body + more) && |UnitBytes(u)| == 11 + |body|
  {
    hide DiesBytes, LittleBytes, At, Ends;
    EndsSplit(mem, at, UnitBytes(u), more);
    var head := LittleBytes(7 + |body|, 4) + LittleBytes(u.version, 2) + LittleBytes(u.table, 4) + [8];
    assert UnitBytes(u) + more == head + (body + more);
    EndsSplit(mem, at, head, body + more);
  }

  lemma UnitStep(s: Sections, entry: nat, u: Unit, n: nat, name: seq<Byte>)
    requires entry + 11 + n <= |s.info| && LengthAt(s.info, entry) == Some(Length(4, 7 + n))
    requires Little(s.info, entry + 4, 2) == u.version && Little(s.info, entry + 6, 4) == u.table
    requires s.info[entry + 10] == 8
    requires (u.version == 2 || u.version == 4)
    requires Entries(s, u.table, entry + 11, entry + 11 + n, name).Some?
    ensures Units(s, entry, name) ==
      match Entries(s, u.table, entry + 11, entry + 11 + n, name).value
      case Hit(pc) => Address(pc)
      case Past(e) => Units(s, e, name)
  {
    hide LengthAt, Entries, Little;
  }

  lemma HeaderReads(mem: seq<Byte>, at: nat, u: Unit, body: seq<Byte>)
    requires (u.version == 2 || u.version == 4) && u.table < 0x1_0000_0000 && 7 + |body| < 0xFFFF_FFF0
    requires At(mem, at, LittleBytes(7 + |body|, 4)
                         + (LittleBytes(u.version, 2) + (LittleBytes(u.table, 4) + ([8] + body))))
    ensures at + 11 + |body| <= |mem| && LengthAt(mem, at) == Some(Length(4, 7 + |body|))
    ensures Little(mem, at + 4, 2) == u.version && Little(mem, at + 6, 4) == u.table && mem[at + 10] == 8
    ensures At(mem, at + 11, body)
  {
    hide LittleBytes, Little, At;
    assert PowBytes(2) == 0x1_0000 && PowBytes(4) == MOD32;
    AtSplit(mem, at, LittleBytes(7 + |body|, 4), LittleBytes(u.version, 2) + (LittleBytes(u.table, 4) + ([8] + body)));
    LengthReads(mem, at, 7 + |body|);
    AtSplit(mem, at + 4, LittleBytes(u.version, 2), LittleBytes(u.table, 4) + ([8] + body));
    LittleReads(mem, at + 4, u.version, 2);
    AtSplit(mem, at + 6, LittleBytes(u.table, 4), [8] + body);
    LittleReads(mem, at + 6, u.table, 4);
    AtSplit(mem, at + 10, [8], body);
    Within(mem, at + 11, body);
  }

  // ------------------------------------------------------------ names through DW_FORM_indirect

  /** The form numbers that come with a value. */
  function Forms(v: Value): (bs: seq<Byte>) {
    match v
    case Other(g, w) => Uleb(g) + Forms(w)
    case _ => []
  }

  /** The string, or the offset of the string, that stands after them, up to a zero byte. */
  function Tail(v: Value, more: seq<Byte>): (bs: seq<Byte>) {
    match v
    case Text(name) => name
    case Word(n) => TextOf(LittleBytes(n, 4) + more)
    case Other(_, w) => Tail(w, more)
    case _ => []
  }

  predicate InPlace(v: Value) {
    v.Text? || (v.Other? && InPlace(v.value))
  }

  lemma {:induction false} TextOfAppend(a: seq<Byte>, b: seq<Byte>)
    requires 0 !in a
    ensures TextOf(a + b) == a + TextOf(b)
    decreases |a|
  {
    if a == [] {
      assert a + b == b;
    } else {
      assert a[0] in a && (a + b)[1..] == a[1..] + b;
      TextOfAppend(a[1..], b);
      assert a + TextOf(b) == [a[0]] + (a[1..] + TextOf(b));
    }
  }

  /** A form number is one byte, and it counts as the name's first. */
  lemma {:induction false} FormsThenTail(str: seq<Byte>, form: nat, v: Value, more: seq<Byte>)
    requires Fits(form, v) && IsName(str, form, v)
    ensures TextOf(ValueBytes(form, v) + more) == Forms(v) + Tail(v, more)
    ensures form == 0x16 ==> Forms(v) != []
    decreases v
  {
    hide LittleBytes, PowBytes;
    match v
    case Text(name) =>
      assert name + [0] + more == name + ([0] + more) && name == name + TextOf([0] + more);
      TextOfAppend(name, [0] + more);
    case Word(n) =>
    case Other(g, w) =>
      FormsThenTail(str, g, w, more);
      assert Uleb(g) == [g];
      FormThen(g, ValueBytes(g, w), more, Forms(w), Tail(w, more));
  }

  lemma FormThen(g: nat, bs: seq<Byte>, more: seq<Byte>, forms: seq<Byte>, tail: seq<Byte>)
    requires 0 < g < 128 && TextOf(bs + more) == forms + tail
    ensures TextOf(Uleb(g) + bs + more) == Uleb(g) + forms + tail
  {
    hide TextOf;
    assert Uleb(g) + bs + more == Uleb(g) + (bs + more);
    TextOfAppend(Uleb(g), bs + more);
    assert Uleb(g) + (forms + tail) == Uleb(g) + forms + tail;
  }

  /** The walk takes a name attribute for the name it stands for exactly if its form is not
      DW_FORM_indirect, but for strings in .debug_str that happen to be the form numbers and
      what follows them. */
  lemma NameExactIff(str: seq<Byte>, form: nat, v: Value, more: seq<Byte>)
    requires Fits(form, v) && IsName(str, form, v)
    ensures AsRead(str, form, v, more) == Meaning(str, form, v) <==>
      form != 0x16 || (!InPlace(v) && Meaning(str, form, v) == Forms(v) + Tail(v, more))
  {
    hide LittleBytes, PowBytes, TextOf;
    FormsThenTail(str, form, v, more);
    if InPlace(v) {
      InPlaceTail(str, form, v, more);
    }
  }

  lemma {:induction false} InPlaceTail(str: seq<Byte>, form: nat, v: Value, more: seq<Byte>)
    requires InPlace(v)
    ensures Meaning(str, form, v) == Tail(v, more)
    decreases v
  {
    if v.Other? {
      InPlaceTail(str, v.form, v.value, more);
    }
  }

  predicate PlainSpecs(specs: seq<Spec>) {
    specs == [] || ((specs[0].name == 0x03 ==> specs[0].form != 0x16) && PlainSpecs(specs[1..]))
  }

  /** No abbreviation of a subprogram or label has its name through DW_FORM_indirect. */
  predicate PlainTable(abbrevs: seq<Abbrev>) {
    abbrevs == [] || ((Sought(abbrevs[0].tag) ==> PlainSpecs(abbrevs[0].specs)) && PlainTable(abbrevs[1..]))
  }

  predicate PlainUnits(us: seq<Unit>) {
    us == [] || (PlainTable(us[0].abbrevs) && PlainUnits(us[1..]))
  }

  /** Then the first entry the walk finds is the first entry of that name, for every name. */
  lemma {:induction false} PlainNames(s: Sections, us: seq<Unit>, name: seq<Byte>)
    requires Shapes(us) && UnitsOk(s, us) && PlainUnits(us)
    ensures First(Read, s.str, us, name) == First(Meant, s.str, us, name)
    decreases |us|
  {
    if us != [] {
      hide DiesOk, FirstEntry, TableOk, TableBytes, At, InfoBytes;
      PlainEntries(s.str, us[0].abbrevs, us[0].dies, InfoBytes(us[1..]), name);
      PlainNames(s, us[1..], name);
    }
  }

  lemma {:induction false} PlainEntries(str: seq<Byte>, abbrevs: seq<Abbrev>, dies: seq<Dbg>, more: seq<Byte>,
                                        name: seq<Byte>)
    requires DiesShape(abbrevs, dies) && DiesOk(str, abbrevs, dies, more) && PlainTable(abbrevs)
    ensures FirstEntry(Read, str, abbrevs, dies, more, name) == FirstEntry(Meant, str, abbrevs, dies, more, name)
    decreases |dies|
  {
    if dies != [] {
      hide DiesBytes, ByCode, ValuesOk, HasName, LowPc, PlainTable;
      PlainEntries(str, abbrevs, dies[1..], more, name);
      if dies[0].Dbg? {
        PlainFound(abbrevs, dies[0].code);
        var a := ByCode(abbrevs, dies[0].code).value;
        if Sought(a.tag) {
          PlainValues(str, a.specs, dies[0].values, DiesBytes(abbrevs, dies[1..]) + more, name);
        }
      }
    }
  }

  lemma {:induction false} PlainFound(abbrevs: seq<Abbrev>, code: nat)
    requires PlainTable(abbrevs) && ByCode(abbrevs, code).Some?
    ensures var a := ByCode(abbrevs, code).value; Sought(a.tag) ==> PlainSpecs(a.specs)
    decreases |abbrevs|
  {
    if abbrevs[0].code != code {
      PlainFound(abbrevs[1..], code);
    }
  }

  lemma {:induction false} PlainValues(str: seq<Byte>, specs: seq<Spec>, values: seq<Value>, more: seq<Byte>,
                                       name: seq<Byte>)
    requires |specs| == |values| && ValuesOk(str, specs, values, true, more) && PlainSpecs(specs)
    ensures HasName(Read, str, specs, values, more, name) == HasName(Meant, str, specs, values, more, name)
    decreases |specs|
  {
    if specs != [] {
      hide AttrBytes, AsRead, Meaning, Fits, ValueBytes, IsName;
      PlainValues(str, specs[1..], values[1..], more, name);
      if specs[0].name == 0x03 {
        NameExactIff(str, specs[0].form, values[0], AttrBytes(specs[1..], values[1..]) + more);
      }
    }
  }

  // ------------------------------------------------------------ one low_pc

  lemma NumberFits(form: nat, v: Value)
    requires Fits(form, v) && Numeric(v)
    ensures NumberOf(form, v) < PowBytes(StoredOf(form, v))
    decreases v
  {
    assert PowBytes(4) == MOD32 && PowBytes(8) == MOD64 && PowBytes(1) == 256;
  }

  lemma {:induction false} NoLowPc(specs: seq<Spec>, values: seq<Value>, pc: nat)
    requires |specs| == |values| && forall k :: 0 <= k < |specs| ==> specs[k].name != 0x11
    ensures LowPc(specs, values, pc) == pc
    decreases |specs|
  {
    if specs != [] {
      NoLowPc(specs[1..], values[1..], pc);
    }
  }

  /** With one low_pc attribute, of any numeric form, the address is the number it carries. */
  lemma {:induction false} OneLowPc(specs: seq<Spec>, values: seq<Value>, i: nat)
    requires |specs| == |values| && i < |specs|
    requires forall k :: 0 <= k < |specs| ==> (specs[k].name == 0x11 <==> k == i)
    requires Fits(specs[i].form, values[i]) && Numeric(values[i])
    ensures LowPc(specs, values, 0) == NumberOf(specs[i].form, values[i])
    decreases |specs|
  {
    hide Over, Fits, Numeric, NumberOf, StoredOf, PowBytes;
    if i == 0 {
      var n, number := StoredOf(specs[0].form, values[0]), NumberOf(specs[0].form, values[0]);
      NumberFits(specs[0].form, values[0]);
      OverZero(n, number);
      NoLowPc(specs[1..], values[1..], number);
    } else {
      OneLowPc(specs[1..], values[1..], i - 1);
    }
  }

  // ------------------------------------------------------------ the walk

  /** naive_address_by_fname on well-formed sections: the low_pc of the first subprogram or
      label with the name, as the walk reads names, and a nonzero low_pc, or that there is
      none. With no name through DW_FORM_indirect it is the first entry of that name. */
  method Find(s: Sections, us: seq<Unit>, name: seq<Byte>) returns (r: Result)
    requires Shapes(us) && UnitsOk(s, us) && s.info == InfoBytes(us) && 0 !in name && name != []
    ensures r == match First(Read, s.str, us, name) case Some(pc) => Address(pc) case None => NoEntry
    ensures PlainUnits(us) ==>
      r == match First(Meant, s.str, us, name) case Some(pc) => Address(pc) case None => NoEntry
  {
    hide UnitsOk, Shapes, First, PlainUnits, InfoBytes, Units;
    assert s.info[0..] == s.info;
    assert Ends(s.info, 0, InfoBytes(us));
    ghost var pc := UnitsRead(s, us, 0, name);
    if PlainUnits(us) {
      PlainNames(s, us, name);
    }
    r := NaiveAddressByFname(s, name);
  }
}
