/**
 Attribute values in .debug_info: how many bytes each form takes (section 7.5.4 of
 DWARF 4) and what dwarf_read_abbrev_entry of kern/dwarf.c makes of them.
 */
module DwarfForms {
  import opened Leb128
  import opened DwarfBytes

  const ADDR := 0x01
  const BLOCK2 := 0x03
  const BLOCK4 := 0x04
  const DATA2 := 0x05
  const DATA4 := 0x06
  const DATA8 := 0x07
  const STRING := 0x08
  const BLOCK := 0x09
  const BLOCK1 := 0x0A
  const DATA1 := 0x0B
  const FLAG := 0x0C
  const SDATA := 0x0D
  const STRP := 0x0E
  const UDATA := 0x0F
  const REF_ADDR := 0x10
  const REF1 := 0x11
  const REF2 := 0x12
  const REF4 := 0x13
  const REF8 := 0x14
  const REF_UDATA := 0x15
  const INDIRECT := 0x16
  const SEC_OFFSET := 0x17
  const EXPRLOC := 0x18
  const FLAG_PRESENT := 0x19
  const REF_SIG8 := 0x20

  /** Forms of a fixed number of bytes, 0 for all others. */
  function Width(form: nat): (n: nat) {
    if form == DATA1 || form == FLAG || form == REF1 then 1
    else if form == DATA2 || form == REF2 then 2
    else if form == DATA4 || form == REF4 then 4
    else if form == ADDR || form == DATA8 || form == REF8 || form == REF_SIG8 then 8
    else 0
  }

  /** Bytes of the length that precedes a block, for fixed-size lengths. */
  function Prefix(form: nat): (n: nat) {
    if form == BLOCK1 then 1 else if form == BLOCK2 then 2 else if form == BLOCK4 then 4 else 0
  }

  predicate IsOffset(form: nat) {
    form == STRP || form == REF_ADDR || form == SEC_OFFSET
  }

  predicate IsLeb(form: nat) {
    form == UDATA || form == REF_UDATA || form == SDATA
  }

  predicate IsLongBlock(form: nat) {
    form == BLOCK || form == EXPRLOC
  }

  /** The bytes an attribute value takes; nothing if it does not end inside the section.
      Unknown forms take none. */
  function FormSize(mem: seq<Byte>, at: nat, form: nat): (n: Option<nat>)
    requires at <= |mem|
    ensures n.Some? ==> at + n.value <= |mem|
    decreases |mem| - at
  {
    if Width(form) > 0 then
      if at + Width(form) <= |mem| then Some(Width(form)) else None
    else if Prefix(form) > 0 then
      if at + Prefix(form) > |mem| then None
      else
        var n := Prefix(form) + Little(mem, at, Prefix(form));
        if at + n <= |mem| then Some(n) else None
    else if form == STRING then
      if HasNul(mem, at) then Some(AfterNul(mem, at) - at) else None
    else if IsLongBlock(form) then
      if !HasEnd(mem, at) then None
      else
        var n := Len(mem, at) + Unsigned(mem, at);
        if at + n <= |mem| then Some(n) else None
    else if IsLeb(form) then
      if HasEnd(mem, at) && (form == SDATA ==> Negative(mem, at) ==> Len(mem, at) <= 4 || Len(mem, at) > 9)
      then Some(Len(mem, at)) else None
    else if IsOffset(form) then
      var r := LengthAt(mem, at);
      if r.None? || at + r.value.count > |mem| then None else Some(r.value.count)
    else if form == INDIRECT then
      if !HasEnd(mem, at) then None
      else
        var r := FormSize(mem, at + Len(mem, at), Unsigned(mem, at) % MOD32);
        if r.None? then None else Some(Len(mem, at) + r.value)
    else Some(0)
  }

  function AtMost8(n: nat): (m: nat) {
    if n < 8 then n else 8
  }

  /** How many bytes of an eight-byte buffer are written. */
  function FormStored(mem: seq<Byte>, at: nat, form: nat): (n: nat)
    requires at <= |mem| && FormSize(mem, at, form).Some?
    ensures n <= 8
    decreases |mem| - at
  {
    if Width(form) > 0 then Width(form)
    else if IsLeb(form) then 4
    else if IsOffset(form) || form == STRING then 8
    else if form == FLAG_PRESENT then 1
    else if form == EXPRLOC then AtMost8(Unsigned(mem, at))
    else if form == INDIRECT then FormStored(mem, at + Len(mem, at), Unsigned(mem, at) % MOD32)
    else 0
  }

  /** The number written there: for a string its address, if the section is loaded at base.
      Nothing for blocks, whose slice does not fit. */
  function FormNumber(mem: seq<Byte>, at: nat, form: nat, base: nat): (v: Option<nat>)
    requires at <= |mem| && FormSize(mem, at, form).Some?
    decreases |mem| - at
  {
    if form == FLAG then Some(if mem[at] > 0 then 1 else 0)
    else if Width(form) > 0 then Some(Little(mem, at, Width(form)))
    else if form == SDATA then Some(SValue(mem, at) % MOD32)
    else if IsLeb(form) then Some(Unsigned(mem, at) % MOD32)
    else if IsOffset(form) then Some(LengthAt(mem, at).value.len)
    else if form == STRING then Some((base + at) % MOD64)
    else if form == FLAG_PRESENT then Some(1)
    else if form == INDIRECT then FormNumber(mem, at + Len(mem, at), Unsigned(mem, at) % MOD32, base)
    else if form == EXPRLOC then Some(Little(mem, at + Len(mem, at), AtMost8(Unsigned(mem, at))))
    else if Prefix(form) > 0 || form == BLOCK then None
    else Some(0)
  }

  /** The low n bytes of v take the place of those of the buffer. */
  function Over(buffer: nat, n: nat, v: nat): (r: nat)
    decreases n
  {
    if n == 0 then buffer else v % 256 + 256 * Over(buffer / 256, n - 1, v / 256)
  }

  /** Into a zeroed buffer a number goes as it is. */
  lemma {:induction false} OverZero(n: nat, v: nat)
    requires v < PowBytes(n)
    ensures Over(0, n, v) == v
    decreases n
  {
    if n > 0 {
      OverZero(n - 1, v / 256);
    }
  }

  datatype Entry = Entry(bytes: nat, stored: nat, number: Option<nat>)

  /** dwarf_read_abbrev_entry, with an eight-byte buffer or with none; the form is cut down to
      32 bits by the call. The number of bytes does not depend on the buffer; what it holds
      afterwards is not known after a block, whose slice does not fit. */
  method ReadAbbrevEntry(mem: seq<Byte>, at: nat, form: nat, base: nat, buffer: Option<nat>)
    returns (r: Option<nat>, data: Option<nat>)
    requires at <= |mem|
    ensures r == FormSize(mem, at, form % MOD32)
    ensures r.Some? ==> data == Filling(mem, at, form % MOD32, base, buffer)
  {
    hide FormSize, FormNumber, FormStored, PowBytes;
    var e := ReadForm(mem, at, form % MOD32, base);
    if e.None? {
      return None, None;
    }
    r, data := Some(e.value.bytes), None;
    if buffer.Some? && e.value.number.Some? {
      data := Some(Over(buffer.value, e.value.stored, e.value.number.value));
    }
  }

  /** What the buffer holds after a value is read into it. */
  function Filling(mem: seq<Byte>, at: nat, form: nat, base: nat, buffer: Option<nat>): (data: Option<nat>)
    requires at <= |mem| && FormSize(mem, at, form).Some?
  {
    var v := FormNumber(mem, at, form, base);
    if buffer.Some? && v.Some? then Some(Over(buffer.value, FormStored(mem, at, form), v.value)) else None
  }

  /** The switch over the forms. */
  method ReadForm(mem: seq<Byte>, at: nat, form: nat, base: nat) returns (r: Option<Entry>)
    requires at <= |mem|
    ensures FormSize(mem, at, form) == if r.Some? then Some(r.value.bytes) else None
    ensures r.Some? ==> FormNumber(mem, at, form, base) == r.value.number && FormStored(mem, at, form) == r.value.stored
    decreases |mem| - at
  {
    hide HasEnd, Len, UValue, Unsigned, SValue, Negative, Little, HasNul, AfterNul, LengthAt;
    if Width(form) > 0 {
      if at + Width(form) > |mem| {
        return None;
      }
      var data := ReadLittle(mem, at, Width(form));
      OneByte(mem, at);
      return Some(Entry(Width(form), Width(form), Some(if form == FLAG then (if data > 0 then 1 else 0) else data)));
    }
    if Prefix(form) > 0 {
      if at + Prefix(form) > |mem| {
        return None;
      }
      var length := ReadLittle(mem, at, Prefix(form));
      return if at + Prefix(form) + length > |mem| then None else Some(Entry(Prefix(form) + length, 0, None));
    }
    if form == STRING {
      var n := StringBytes(mem, at);
      return if n.Some? then Some(Entry(n.value, 8, Some((base + at) % MOD64))) else None;
    }
    if IsLongBlock(form) || IsLeb(form) || form == INDIRECT {
      r := ReadLebForm(mem, at, form, base);
      return;
    }
    if IsOffset(form) {
      var length := EntryLen(mem, at);
      if length.None? || at + length.value.count > |mem| {
        return None;
      }
      return Some(Entry(length.value.count, 8, Some(length.value.len)));
    }
    r := Some(if form == FLAG_PRESENT then Entry(0, 1, Some(1)) else Entry(0, 0, Some(0)));
  }

  /** The forms that start with a LEB128 number. */
  method ReadLebForm(mem: seq<Byte>, at: nat, form: nat, base: nat) returns (r: Option<Entry>)
    requires at <= |mem| && (IsLongBlock(form) || IsLeb(form) || form == INDIRECT)
    ensures FormSize(mem, at, form) == if r.Some? then Some(r.value.bytes) else None
    ensures r.Some? ==> FormNumber(mem, at, form, base) == r.value.number && FormStored(mem, at, form) == r.value.stored
    decreases |mem| - at, 0
  {
    hide HasEnd, Len, UValue, SValue, Negative, Little, HasNul, AfterNul, LengthAt;
    if !HasEnd(mem, at) {
      return None;
    }
    if form == SDATA {
      if Negative(mem, at) && 4 < Len(mem, at) <= 9 {
        return None;
      }
      var data, count := ReadSleb(mem, at);
      return Some(Entry(count, 4, Some(data % MOD32)));
    }
    var data, count := ReadUleb(mem, at);
    if form == INDIRECT {
      var rest := ReadForm(mem, at + count, data % MOD32, base);
      return if rest.Some? then Some(rest.value.(bytes := count + rest.value.bytes)) else None;
    }
    if IsLeb(form) {
      return Some(Entry(count, 4, Some(data % MOD32)));
    }
    if at + count + data > |mem| {
      return None;
    }
    var copied, copy := if form == EXPRLOC then AtMost8(data) else 0, None;
    if form == EXPRLOC {
      var bytes := ReadLittle(mem, at + count, copied);
      copy := Some(bytes);
    }
    r := Some(Entry(count + data, copied, copy));
  }

  /** strlen + 1. */
  method StringBytes(mem: seq<Byte>, at: nat) returns (n: Option<nat>)
    requires at <= |mem|
    ensures n == if HasNul(mem, at) then Some(AfterNul(mem, at) - at) else None
  {
    var p := at;
    while p < |mem| && mem[p] != 0
      invariant at <= p <= |mem| && (HasNul(mem, p) <==> HasNul(mem, at))
      invariant HasNul(mem, at) ==> AfterNul(mem, p) == AfterNul(mem, at)
    {
      p := p + 1;
    }
    n := if p < |mem| then Some(p + 1 - at) else None;
  }

  lemma OneByte(mem: seq<Byte>, at: nat)
    requires at < |mem|
    ensures Little(mem, at, 1) == mem[at]
  {
    assert Little(mem, at + 1, 0) == 0;
  }

  // ------------------------------------------------------------ writing

  /** Section 7.5.4: the bytes of a value of fixed size, with eight-byte addresses. */
  function FixedSize(form: nat): (n: nat) {
    if form in {0x0B, 0x0C, 0x11} then 1
    else if form in {0x05, 0x12} then 2
    else if form in {0x06, 0x13} then 4
    else if form in {0x01, 0x07, 0x14, 0x20} then 8
    else 0
  }

  /** The bytes of the length of a block. */
  function LengthSize(form: nat): (n: nat) {
    if form == 0x0A then 1 else if form == 0x03 then 2 else if form == 0x04 then 4 else 0
  }

  /** Offsets, in four bytes. */
  predicate OffsetForm(form: nat) {
    form in {0x0E, 0x10, 0x17}
  }

  /** Blocks whose length is a LEB128 number. */
  predicate LebBlock(form: nat) {
    form in {0x09, 0x18}
  }

  /** The code's tests on forms are those of the standard. */
  lemma FormsAgree(form: nat)
    ensures Width(form) == FixedSize(form) && Prefix(form) == LengthSize(form)
    ensures IsOffset(form) == OffsetForm(form) && IsLongBlock(form) == LebBlock(form)
    ensures Width(form) == 1 <==> form in {0x0B, 0x0C, 0x11}
    ensures Width(form) == 2 <==> form in {0x05, 0x12}
    ensures Width(form) == 4 <==> form in {0x06, 0x13}
    ensures Width(form) == 8 <==> form in {0x01, 0x07, 0x14, 0x20}
    ensures IsOffset(form) <==> form in {0x0E, 0x10, 0x17}
    ensures IsLongBlock(form) <==> form in {0x09, 0x18}
    ensures IsLeb(form) <==> form in {0x0D, 0x0F, 0x15}
    ensures Prefix(form) == if form == 0x0A then 1 else if form == 0x03 then 2 else if form == 0x04 then 4 else 0
  {
  }

  /** No other form takes a byte. */
  lemma OtherForms(mem: seq<Byte>, at: nat, form: nat)
    requires at <= |mem| && FixedSize(form) == LengthSize(form) == 0 && !OffsetForm(form) && !LebBlock(form)
    requires form !in {0x08, 0x0D, 0x0F, 0x15, 0x16}
    ensures FormSize(mem, at, form) == Some(0)
  {
    hide HasNul, HasEnd, LengthAt;
  }

  /** A value, by the shape of its encoding. */
  datatype Value =
    | Word(n: nat)
    | Bytes(data: seq<Byte>)
    | Text(name: seq<Byte>)
    | Number(n: nat)
    | Signed(d: int)
    | Other(form: nat, value: Value)
    | Present

  /** Which values a form can carry. */
  predicate Fits(form: nat, v: Value)
    decreases v
  {
    match v
    case Word(n) => if OffsetForm(form) then n < 0xFFFF_FFF0 else FixedSize(form) > 0 && n < PowBytes(FixedSize(form))
    case Bytes(data) =>
      if LebBlock(form) then |data| < 0x1_0000_0000_0000_0000
      else LengthSize(form) > 0 && |data| < PowBytes(LengthSize(form))
    case Text(name) => form == 0x08 && 0 !in name
    case Number(n) => (form == 0x0F || form == 0x15) && n < 0x1_0000_0000_0000_0000
    case Signed(d) => form == 0x0D && (-0x800_0000 <= d || |Sleb(d)| > 9)
    case Other(g, w) => form == 0x16 && g < 0x1_0000_0000 && Fits(g, w)
    case Present => form == 0x19
  }

  function ValueBytes(form: nat, v: Value): (bs: seq<Byte>)
    decreases v
  {
    match v
    case Word(n) => LittleBytes(n, if OffsetForm(form) then 4 else FixedSize(form))
    case Bytes(data) =>
      (if LebBlock(form) then Uleb(|data|) else LittleBytes(|data|, LengthSize(form))) + data
    case Text(name) => name + [0]
    case Number(n) => Uleb(n)
    case Signed(d) => Sleb(d)
    case Other(g, w) => Uleb(g) + ValueBytes(g, w)
    case Present => []
  }

  /** How many bytes of a buffer a value fills. */
  function StoredOf(form: nat, v: Value): (n: nat)
    decreases v
  {
    match v
    case Word(_) => if OffsetForm(form) then 8 else FixedSize(form)
    case Other(g, w) => StoredOf(g, w)
    case Present => 1
    case _ => 4
  }

  /** The number a value stands for there. */
  function NumberOf(form: nat, v: Value): (n: nat)
    decreases v
  {
    match v
    case Word(n) => if form == 0x0C then (if n > 0 then 1 else 0) else n
    case Number(n) => n % MOD32
    case Signed(d) => d % MOD32
    case Other(g, w) => NumberOf(g, w)
    case Present => 1
    case _ => 0
  }

  predicate Numeric(v: Value) {
    match v
    case Bytes(_) => false
    case Text(_) => false
    case Other(_, w) => Numeric(w)
    case _ => true
  }

  /** Every form takes exactly the bytes that were written for it, and numbers come back. */
  lemma {:induction false} ValueReads(mem: seq<Byte>, at: nat, form: nat, v: Value, base: nat)
    requires Fits(form, v) && At(mem, at, ValueBytes(form, v))
    ensures FormSize(mem, at, form) == Some(|ValueBytes(form, v)|)
    ensures Numeric(v) ==>
      FormNumber(mem, at, form, base) == Some(NumberOf(form, v)) && FormStored(mem, at, form) == StoredOf(form, v)
    decreases v
  {
    hide FormSize, FormNumber, FormStored, PowBytes, Uleb, Sleb, LittleBytes, At;
    match v
    case Word(n) => WordReads(mem, at, form, n, base);
    case Bytes(data) => BlockReads(mem, at, form, data);
    case Text(name) => TextReads(mem, at, name);
    case Number(n) => NumberReads(mem, at, form, n, base);
    case Signed(d) => SignedReads(mem, at, d, base);
    case Other(g, w) =>
      AtSplit(mem, at, Uleb(g), ValueBytes(g, w));
      ValueReads(mem, at + |Uleb(g)|, g, w, base);
      IndirectReads(mem, at, g, |ValueBytes(g, w)|, base);
    case Present => PresentReads(mem, at, base);
  }

  lemma PresentReads(mem: seq<Byte>, at: nat, base: nat)
    requires At(mem, at, [])
    ensures FormSize(mem, at, FLAG_PRESENT) == Some(0)
    ensures FormNumber(mem, at, FLAG_PRESENT, base) == Some(1) && FormStored(mem, at, FLAG_PRESENT) == 1
  {
  }

  lemma TextReads(mem: seq<Byte>, at: nat, name: seq<Byte>)
    requires 0 !in name && At(mem, at, name + [0])
    ensures FormSize(mem, at, STRING) == Some(|name| + 1)
  {
    hide HasNul, AfterNul, At;
    NulReads(mem, at, name);
  }

  lemma NumberReads(mem: seq<Byte>, at: nat, form: nat, n: nat, base: nat)
    requires (form == UDATA || form == REF_UDATA) && n < MOD64 && At(mem, at, Uleb(n))
    ensures FormSize(mem, at, form) == Some(|Uleb(n)|)
    ensures FormNumber(mem, at, form, base) == Some(n % MOD32) && FormStored(mem, at, form) == 4
  {
    hide HasEnd, Len, Unsigned, Uleb, At;
    UnsignedReads(mem, at, n);
  }

  /** A form that comes with the value, and then the value. */
  lemma IndirectReads(mem: seq<Byte>, at: nat, g: nat, n: nat, base: nat)
    requires g < MOD32 && At(mem, at, Uleb(g)) && at + |Uleb(g)| <= |mem|
    requires FormSize(mem, at + |Uleb(g)|, g) == Some(n)
    ensures FormSize(mem, at, INDIRECT) == Some(|Uleb(g)| + n)
    ensures FormNumber(mem, at, INDIRECT, base) == FormNumber(mem, at + |Uleb(g)|, g, base)
    ensures FormStored(mem, at, INDIRECT) == FormStored(mem, at + |Uleb(g)|, g)
  {
    hide HasEnd, Len, Unsigned, Uleb, At, Width, Prefix, IsLeb, IsOffset, IsLongBlock, HasNul, AfterNul, LengthAt;
    hide Little;
    IndirectForm();
    UnsignedReads(mem, at, g);
    assert g % MOD32 == g;
  }

  lemma IndirectForm()
    ensures Width(INDIRECT) == Prefix(INDIRECT) == 0
    ensures !IsLeb(INDIRECT) && !IsOffset(INDIRECT) && !IsLongBlock(INDIRECT)
  {
  }

  lemma SignedReads(mem: seq<Byte>, at: nat, d: int, base: nat)
    requires Fits(SDATA, Signed(d)) && At(mem, at, Sleb(d))
    ensures FormSize(mem, at, SDATA) == Some(|Sleb(d)|)
    ensures FormNumber(mem, at, SDATA, base) == Some(d % MOD32) && FormStored(mem, at, SDATA) == 4
  {
    hide HasEnd, Len, UValue, SValue, Negative, Sleb, At;
    SlebReads(mem, at, d);
    if -0x800_0000 <= d < 0 {
      SlebShort(d);
    }
  }

  lemma WordReads(mem: seq<Byte>, at: nat, form: nat, n: nat, base: nat)
    requires Fits(form, Word(n)) && At(mem, at, ValueBytes(form, Word(n)))
    ensures FormSize(mem, at, form) == Some(|ValueBytes(form, Word(n))|)
    ensures FormNumber(mem, at, form, base) == Some(NumberOf(form, Word(n)))
    ensures FormStored(mem, at, form) == StoredOf(form, Word(n))
  {
    hide HasEnd, Len, UValue, Unsigned, SValue, Negative, Little, HasNul, AfterNul, LittleBytes;
    FormsAgree(form);
    if IsOffset(form) {
      assert PowBytes(4) == MOD32;
      LittleReads(mem, at, n, 4);
    } else {
      LittleReads(mem, at, n, Width(form));
      if form == FLAG {
        OneByte(mem, at);
      }
    }
  }

  lemma BlockReads(mem: seq<Byte>, at: nat, form: nat, data: seq<Byte>)
    requires Fits(form, Bytes(data)) && At(mem, at, ValueBytes(form, Bytes(data)))
    ensures FormSize(mem, at, form) == Some(|ValueBytes(form, Bytes(data))|)
  {
    hide HasEnd, Len, UValue, Unsigned, SValue, Negative, Little, HasNul, AfterNul, LittleBytes, Uleb;
    FormsAgree(form);
    if IsLongBlock(form) {
      AtSplit(mem, at, Uleb(|data|), data);
      UnsignedReads(mem, at, |data|);
    } else {
      AtSplit(mem, at, LittleBytes(|data|, Prefix(form)), data);
      LittleReads(mem, at, |data|, Prefix(form));
    }
  }

  lemma {:induction false} LittleSame(mem: seq<Byte>, at: nat, data: seq<Byte>, k: nat, n: nat)
    requires At(mem, at, data) && k + n <= |data|
    ensures Little(mem, at + k, n) == Little(data, k, n)
    decreases n
  {
    if n > 0 {
      assert mem[at..at + |data|][k] == mem[at + k];
      LittleSame(mem, at, data, k + 1, n - 1);
    }
  }

  /** Of an expression the first eight bytes are stored, or all if there are fewer. */
  lemma ExpressionCopied(mem: seq<Byte>, at: nat, data: seq<Byte>, base: nat)
    requires |data| < 0x1_0000_0000_0000_0000 && At(mem, at, Uleb(|data|) + data)
    ensures FormSize(mem, at, 0x18).Some?
    ensures var n := if |data| < 8 then |data| else 8;
            FormStored(mem, at, 0x18) == n && FormNumber(mem, at, 0x18, base) == Some(Little(data, 0, n))
  {
    hide FormSize, FormNumber, FormStored, HasEnd, Len, Unsigned, Little, At, Uleb;
    BlockReads(mem, at, 0x18, data);
    AtSplit(mem, at, Uleb(|data|), data);
    UnsignedReads(mem, at, |data|);
    assert at + |Uleb(|data|)| + |data| <= |mem| by {
      AtFits(mem, at + |Uleb(|data|)|, data);
    }
    ExpressionIs(mem, at, base);
    LittleSame(mem, at + |Uleb(|data|)|, data, 0, if |data| < 8 then |data| else 8);
  }

  lemma AtFits(mem: seq<Byte>, at: nat, data: seq<Byte>)
    requires At(mem, at, data)
    ensures at + |data| <= |mem|
  {
  }

  lemma ExpressionIs(mem: seq<Byte>, at: nat, base: nat)
    requires at <= |mem| && FormSize(mem, at, EXPRLOC).Some?
    requires HasEnd(mem, at) && at + Len(mem, at) + Unsigned(mem, at) <= |mem|
    ensures var n := AtMost8(Unsigned(mem, at));
            FormStored(mem, at, EXPRLOC) == n &&
              FormNumber(mem, at, EXPRLOC, base) == Some(Little(mem, at + Len(mem, at), n))
  {
    hide FormSize, HasEnd, Len, Unsigned, Little, LengthAt, SValue, HasNul, AfterNul;
  }
}
