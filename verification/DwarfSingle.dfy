/**
 Sections with a single entry: which tags the walk looks at, and a name that stands behind
 its form number.
 */
module DwarfSingle {
  import opened Leb128
  import opened DwarfBytes
  import opened DwarfForms
  import opened DwarfWalk
  import opened DwarfUnits

  /** A declaration with DW_AT_name, as DW_FORM_string or through DW_FORM_indirect, and
      DW_AT_low_pc as DW_FORM_addr. */
  function OneAbbrev(tag: nat, behind: bool): (a: Abbrev) {
    Abbrev(1, tag, 0, [Spec(0x03, if behind then 0x16 else 0x08), Spec(0x11, 0x01)])
  }

  function OneValues(behind: bool, text: seq<Byte>, pc: nat): (values: seq<Value>) {
    [if behind then Other(0x08, Text(text)) else Text(text), Word(pc)]
  }

  /** A unit of version 4 with one entry. */
  function One(tag: nat, behind: bool, text: seq<Byte>, pc: nat): (us: seq<Unit>)
    ensures Shapes(us) && |us| == 1
  {
    var a := OneAbbrev(tag, behind);
    var d := Dbg(1, OneValues(behind, text, pc));
    assert ByCode([a], 1) == Some(a) && [d][1..] == [] && DieShape([a], d) && DiesShape([a], [d][1..]);
    var us := [Unit(4, 0, [a], [d])];
    assert us[1..] == [];
    us
  }

  function OneSections(tag: nat, behind: bool, text: seq<Byte>, pc: nat): (s: Sections) {
    var us := One(tag, behind, text, pc);
    Sections(InfoBytes(us), TableBytes(us[0].abbrevs), [], 0)
  }

  /** The bytes (sections 7.5.1.1, 7.5.3 and 7.5.4). */
  lemma OneIs(tag: nat, text: seq<Byte>, pc: nat)
    ensures var s := OneSections(tag, false, text, pc);
      && s.abbrev == [0x01] + Uleb(tag) + [0x00, 0x03, 0x08, 0x11, 0x01, 0x00, 0x00, 0x00]
      && var rest := [0x04, 0x00, 0x00, 0x00, 0x00, 0x00, 0x08, 0x01] + text + [0x00] + LittleBytes(pc, 8);
         s.info == LittleBytes(|rest|, 4) + rest
  {
    hide LittleBytes, Uleb, TableBytes, DiesBytes, DieBytes;
    var us, d := One(tag, false, text, pc), Dbg(1, OneValues(false, text, pc));
    OneTable(tag);
    OneEntry(tag, text, pc);
    OneZeroes();
    assert us[1..] == [] && us[0].abbrevs == [OneAbbrev(tag, false)] && us[0].dies == [d];
    var body := DiesBytes(us[0].abbrevs, us[0].dies);
    var rest := [0x04, 0x00, 0x00, 0x00, 0x00, 0x00, 0x08, 0x01] + text + [0x00] + LittleBytes(pc, 8);
    assert rest == [4, 0] + ([0, 0, 0, 0] + ([8] + body)) && |rest| == 7 + |body|;
    assert InfoBytes(us) == UnitBytes(us[0]) + [];
  }

  lemma OneTable(tag: nat)
    ensures TableBytes([OneAbbrev(tag, false)]) ==
      [0x01] + Uleb(tag) + [0x00, 0x03, 0x08, 0x11, 0x01, 0x00, 0x00, 0x00]
  {
    hide Uleb;
    var a := OneAbbrev(tag, false);
    ShortUleb();
    OneZeroes();
    assert [a][1..] == [] && a.specs[1..][1..] == [];
    assert SpecBytes(a.specs[1..]) == [0x11, 0x01, 0x00, 0x00];
    assert SpecBytes(a.specs) == [0x03, 0x08, 0x11, 0x01, 0x00, 0x00];
    assert TableBytes([a]) == AbbrevBytes(a) + [0];
  }

  lemma OneEntry(tag: nat, text: seq<Byte>, pc: nat)
    ensures var table, dies := [OneAbbrev(tag, false)], [Dbg(1, OneValues(false, text, pc))];
      DiesShape(table, dies) && DiesBytes(table, dies) == [0x01] + text + [0x00] + LittleBytes(pc, 8)
  {
    hide LittleBytes, Uleb;
    var a, values := OneAbbrev(tag, false), OneValues(false, text, pc);
    var d := Dbg(1, values);
    ShortUleb();
    assert [d][1..] == [] && a.specs[1..][1..] == [] && values[1..][1..] == [] && ByCode([a], 1) == Some(a);
    assert DieShape([a], d) && DiesShape([a], [d][1..]);
    assert AttrBytes(a.specs[1..], values[1..]) == LittleBytes(pc, 8) + [];
    assert AttrBytes(a.specs, values) == text + [0] + LittleBytes(pc, 8);
    assert DieBytes([a], d) == [1] + (text + [0] + LittleBytes(pc, 8));
    assert DiesBytes([a], [d][1..]) == [] && DiesBytes([a], [d]) == DieBytes([a], d) + [];
  }

  lemma OneZeroes()
    ensures LittleBytes(4, 2) == [4, 0] && LittleBytes(0, 4) == [0, 0, 0, 0]
    ensures Uleb(0) == [0] && Uleb(0x03) == [0x03] && Uleb(0x11) == [0x11]
  {
    assert LittleBytes(0, 1) == [0] && LittleBytes(0, 2) == [0, 0] && LittleBytes(0, 3) == [0, 0, 0];
  }

  predicate OneFits(tag: nat, text: seq<Byte>, pc: nat) {
    tag < 0x1_0000_0000_0000_0000 && 0 !in text && |text| < 0x7FFF_0000 && 0 < pc < 0x1_0000_0000_0000_0000
  }

  lemma ShortUleb()
    ensures Uleb(0x08) == [0x08] && Uleb(1) == [1]
  {
  }

  lemma OneNamed(how: Reading, tag: nat, behind: bool, text: seq<Byte>, pc: nat, name: seq<Byte>)
    requires 0 !in text
    ensures HasName(how, [], OneAbbrev(tag, behind).specs, OneValues(behind, text, pc), [], name) <==>
      name == if how.Meant? || !behind then text else [0x08] + text
  {
    hide AttrBytes, ValueBytes, TextOf, Uleb;
    var specs, values := OneAbbrev(tag, behind).specs, OneValues(behind, text, pc);
    var more := AttrBytes(specs[1..], values[1..]) + [];
    assert specs[1..][1..] == [] && values[1..][1..] == [];
    FormsThenTail([], specs[0].form, values[0], more);
    assert Uleb(0x08) == [0x08] by {
      ShortUleb();
    }
    assert [0x08] + [] + text == [0x08] + text && [] + text == text;
    assert HasName(how, [], specs[1..], values[1..], [], name) == false;
    assert Meaning([], specs[0].form, values[0]) == text;
    assert AsRead([], specs[0].form, values[0], more) == if behind then [0x08] + text else text;
  }

  lemma OnePc(tag: nat, behind: bool, text: seq<Byte>, pc: nat)
    requires 0 < pc < 0x1_0000_0000_0000_0000
    ensures LowPc(OneAbbrev(tag, behind).specs, OneValues(behind, text, pc), 0) == pc
  {
    assert PowBytes(8) == MOD64;
    OneLowPc(OneAbbrev(tag, behind).specs, OneValues(behind, text, pc), 1);
  }

  lemma OneOk(tag: nat, behind: bool, text: seq<Byte>, pc: nat)
    requires OneFits(tag, text, pc)
    ensures UnitsOk(OneSections(tag, behind, text, pc), One(tag, behind, text, pc))
  {
    hide InfoBytes, LittleBytes, DiesBytes, DiesOk;
    OneDies(tag, behind, text, pc);
    var us, s := One(tag, behind, text, pc), OneSections(tag, behind, text, pc);
    var u, a := us[0], OneAbbrev(tag, behind);
    assert us[1..] == [] && u.abbrevs[1..] == [] && a.specs[1..][1..] == [];
    assert SpecsOk(a.specs[1..][1..]) && SpecsOk(a.specs[1..]) && SpecsOk(a.specs);
    assert TableOk(u.abbrevs[1..]) && TableOk(u.abbrevs);
    assert s.abbrev[0..0 + |s.abbrev|] == s.abbrev;
  }

  lemma OneDies(tag: nat, behind: bool, text: seq<Byte>, pc: nat)
    requires OneFits(tag, text, pc)
    ensures var u := One(tag, behind, text, pc)[0];
      DiesOk([], u.abbrevs, u.dies, InfoBytes([])) && |DiesBytes(u.abbrevs, u.dies)| < 0x7FFF_1000
  {
    hide LittleBytes, Uleb;
    assert PowBytes(8) == MOD64;
    var u, a, values := One(tag, behind, text, pc)[0], OneAbbrev(tag, behind), OneValues(behind, text, pc);
    var d := u.dies[0];
    assert u.dies[1..] == [] && a.specs[1..][1..] == [] && values[1..][1..] == [];
    assert ByCode(u.abbrevs, 1) == Some(a);
    var first, last := ValueBytes(a.specs[0].form, values[0]), ValueBytes(0x01, values[1]);
    var rest := AttrBytes(a.specs[1..], values[1..]);
    assert ValueBytes(0x08, Text(text)) == text + [0];
    assert first == (if behind then Uleb(0x08) else []) + (text + [0]) && (first + (rest + []))[|first| - 1] == 0;
    assert |Uleb(0x08)| == 1 && |Uleb(1)| == 1 by {
      ShortUleb();
    }
    assert 0 in first + (rest + []) && Fits(0x08, Text(text)) && IsName([], 0x08, Text(text));
    assert ValueOk([], a.specs[0], values[0], Sought(tag), rest + []);
    assert ValueOk([], a.specs[1], values[1], Sought(tag), []);
    assert ValuesOk([], a.specs[1..], values[1..], Sought(tag), []);
    assert ValuesOk([], a.specs, values, Sought(tag), []);
    assert rest == last + [] && AttrBytes(a.specs, values) == first + rest;
    assert DieBytes(u.abbrevs, d) == Uleb(1) + AttrBytes(a.specs, values);
    assert DiesBytes(u.abbrevs, []) + InfoBytes([]) == [];
    assert DiesBytes(u.abbrevs, u.dies) == DieBytes(u.abbrevs, d) + [];
  }

  lemma OneFirst(how: Reading, tag: nat, behind: bool, text: seq<Byte>, pc: nat, name: seq<Byte>)
    requires 0 < pc < 0x1_0000_0000_0000_0000 && 0 !in text
    ensures First(how, [], One(tag, behind, text, pc), name) ==
      if (tag == 0x2E || tag == 0x0A) && name == (if how.Meant? || !behind then text else [0x08] + text)
      then Some(pc) else None
  {
    hide HasName, LowPc;
    OnePc(tag, behind, text, pc);
    OneNamed(how, tag, behind, text, pc, name);
    var us := One(tag, behind, text, pc);
    assert us[1..] == [] && us[0].dies[1..] == [];
    assert ByCode(us[0].abbrevs, 1) == Some(OneAbbrev(tag, behind));
    assert DiesBytes(us[0].abbrevs, []) + InfoBytes([]) == [];
    assert Matches(how, [], us[0].abbrevs, us[0].dies[0], [], name) <==>
      Sought(tag) && HasName(how, [], OneAbbrev(tag, behind).specs, OneValues(behind, text, pc), [], name);
    assert FirstEntry(how, [], us[0].abbrevs, [], [], name) == None;
    assert First(how, [], [], name) == None;
  }

  /** Through DW_FORM_indirect the walk does not find an entry by its name, only by the form
      number and the name. */
  lemma BehindFormNumber(tag: nat, text: seq<Byte>, pc: nat)
    requires OneFits(tag, text, pc) && (tag == 0x2E || tag == 0x0A)
    ensures var us, s := One(tag, true, text, pc), OneSections(tag, true, text, pc);
      && UnitsOk(s, us)
      && First(Meant, s.str, us, text) == Some(pc) && First(Read, s.str, us, text) == None
      && First(Read, s.str, us, [0x08] + text) == Some(pc)
  {
    hide UnitsOk, InfoBytes, TableBytes, First, One;
    OneOk(tag, true, text, pc);
    OneFirst(Meant, tag, true, text, pc, text);
    OneFirst(Read, tag, true, text, pc, text);
    OneFirst(Read, tag, true, text, pc, [0x08] + text);
    assert |[0x08] + text| == |text| + 1;
  }

  /** Entries for subprograms, tag 0x2E, and for labels, tag 0x0A, are found by their name; no
      entry of another tag is. */
  method FindOne(tag: nat, text: seq<Byte>, pc: nat, name: seq<Byte>) returns (r: Result)
    requires OneFits(tag, text, pc) && 0 !in name && name != []
    ensures r == if (tag == 0x2E || tag == 0x0A) && name == text then Address(pc) else NoEntry
  {
    hide UnitsOk, First, InfoBytes, TableBytes, PlainUnits;
    OneOk(tag, false, text, pc);
    OneFirst(Read, tag, false, text, pc, name);
    r := Find(OneSections(tag, false, text, pc), One(tag, false, text, pc), name);
  }
}
