/**
 Fixed-size values, strings and lengths in the debug sections, as inc/dwarf.h reads them.
 */
module DwarfBytes {
  import opened Leb128

  datatype Option<T> = None | Some(value: T)

  /** A little-endian value of n bytes. */
  function Little(mem: seq<Byte>, at: nat, n: nat): (v: nat)
    requires at + n <= |mem|
    decreases n
  {
    if n == 0 then 0 else mem[at] + 256 * Little(mem, at + 1, n - 1)
  }

  /** The least significant byte comes first. */
  lemma LittleIs(mem: seq<Byte>, at: nat)
    ensures at + 2 <= |mem| ==> Little(mem, at, 2) == mem[at] + 0x100 * (mem[at + 1] as nat)
    ensures at + 4 <= |mem| ==>
      Little(mem, at, 4) ==
        mem[at] + 0x100 * (mem[at + 1] as nat) + 0x1_0000 * (mem[at + 2] as nat) + 0x100_0000 * (mem[at + 3] as nat)
    ensures at + 8 <= |mem| ==> Little(mem, at, 8) == Little(mem, at, 4) + 0x1_0000_0000 * Little(mem, at + 4, 4)
  {
    if at + 4 <= |mem| {
      LittleFour(mem, at);
    }
    if at + 8 <= |mem| {
      LittleFour(mem, at + 4);
      assert Little(mem, at + 3, 5) == mem[at + 3] + 256 * Little(mem, at + 4, 4);
      assert Little(mem, at + 2, 6) == mem[at + 2] + 256 * Little(mem, at + 3, 5);
      assert Little(mem, at + 1, 7) == mem[at + 1] + 256 * Little(mem, at + 2, 6);
    }
  }

  lemma LittleFour(mem: seq<Byte>, at: nat)
    requires at + 4 <= |mem|
    ensures Little(mem, at, 4) ==
      mem[at] + 0x100 * (mem[at + 1] as nat) + 0x1_0000 * (mem[at + 2] as nat) + 0x100_0000 * (mem[at + 3] as nat)
  {
    assert Little(mem, at + 2, 2) == mem[at + 2] + 256 * (mem[at + 3] as nat);
    assert Little(mem, at + 1, 3) == mem[at + 1] + 256 * Little(mem, at + 2, 2);
  }

  predicate HasNul(mem: seq<Byte>, at: nat)
    decreases |mem| - at
  {
    at < |mem| && (mem[at] == 0 || HasNul(mem, at + 1))
  }

  /** Just after the string that starts at `at`. */
  function AfterNul(mem: seq<Byte>, at: nat): (p: nat)
    requires HasNul(mem, at)
    ensures at < p <= |mem|
    decreases |mem| - at
  {
    if mem[at] == 0 then at + 1 else AfterNul(mem, at + 1)
  }

  function Unsigned(mem: seq<Byte>, at: nat): (v: nat)
    requires HasEnd(mem, at)
  {
    UValue(mem, at) % MOD64
  }

  /** get_unaligned. */
  method ReadLittle(mem: seq<Byte>, at: nat, n: nat) returns (v: nat)
    requires at + n <= |mem|
    ensures v == Little(mem, at, n)
  {
    v := 0;
    var i := n;
    while i > 0
      invariant 0 <= i <= n && v == Little(mem, at + i, n - i)
    {
      i := i - 1;
      v := mem[at + i] + 256 * v;
    }
  }

  // ------------------------------------------------------------ lengths

  const EXT_LO: nat := 0xFFFF_FFF0
  const EXT_64: nat := 0xFFFF_FFFF

  datatype Length = Length(count: nat, len: nat)

  /** What dwarf_entry_len reads: the number of bytes, 0 for an unknown extension, and the
      length; nothing if the section ends before. The 64-bit form counts twelve bytes but
      takes its length from 32 bytes further on, since the offset is scaled by the size of
      the value. */
  function LengthAt(mem: seq<Byte>, at: nat): (r: Option<Length>) {
    if at + 4 > |mem| then None
    else
      var initial := Little(mem, at, 4);
      if initial < EXT_LO then Some(Length(4, initial))
      else if initial != EXT_64 then Some(Length(0, 0))
      else if at + 40 > |mem| then None
      else Some(Length(12, Little(mem, at + 32, 8)))
  }

  /** dwarf_entry_len. */
  method EntryLen(mem: seq<Byte>, at: nat) returns (r: Option<Length>)
    ensures r == LengthAt(mem, at)
  {
    if at + 4 > |mem| {
      return None;
    }
    LittleBound(mem, at, 4);
    assert PowBytes(4) == MOD32;
    var initial := ReadLittle(mem, at, 4);
    if EXT_LO <= initial <= EXT_64 {
      if initial == EXT_64 {
        if at + 40 > |mem| {
          return None;
        }
        var len := ReadLittle(mem, at + 32, 8);
        return Some(Length(12, len));
      }
      return Some(Length(0, 0));
    }
    r := Some(Length(4, initial));
  }

  lemma {:induction false} LittleBound(mem: seq<Byte>, at: nat, n: nat)
    requires at + n <= |mem|
    ensures Little(mem, at, n) < PowBytes(n)
    decreases n
  {
    if n > 0 {
      LittleBound(mem, at + 1, n - 1);
    }
  }

  // ------------------------------------------------------------ writing

  function LittleBytes(v: nat, n: nat): (bs: seq<Byte>)
    ensures |bs| == n
    decreases n
  {
    if n == 0 then [] else [v % 256] + LittleBytes(v / 256, n - 1)
  }

  function PowBytes(n: nat): (r: nat)
    ensures r > 0
  {
    if n == 0 then 1 else 256 * PowBytes(n - 1)
  }

  lemma {:induction false} LittleReads(mem: seq<Byte>, at: nat, v: nat, n: nat)
    requires v < PowBytes(n) && At(mem, at, LittleBytes(v, n))
    ensures Little(mem, at, n) == v
    decreases n
  {
    if n > 0 {
      AtSplit(mem, at, [v % 256], LittleBytes(v / 256, n - 1));
      LittleReads(mem, at + 1, v / 256, n - 1);
    }
  }

  lemma LengthReads(mem: seq<Byte>, at: nat, n: nat)
    requires n < 0xFFFF_FFF0 && At(mem, at, LittleBytes(n, 4))
    ensures LengthAt(mem, at) == Some(Length(4, n))
  {
    assert PowBytes(4) == MOD32;
    LittleReads(mem, at, n, 4);
  }

  /** The values of the first four bytes that are no length: those that are reserved, and the
      one before a 64-bit length, which is then taken from 32 bytes on. */
  lemma LengthEscapes(mem: seq<Byte>, at: nat)
    requires at + 4 <= |mem|
    ensures 0xFFFF_FFF0 <= Little(mem, at, 4) < 0xFFFF_FFFF ==> LengthAt(mem, at) == Some(Length(0, 0))
    ensures Little(mem, at, 4) == 0xFFFF_FFFF ==>
      LengthAt(mem, at) == if at + 40 <= |mem| then Some(Length(12, Little(mem, at + 32, 8))) else None
  {
  }

  lemma UnsignedReads(mem: seq<Byte>, at: nat, v: nat)
    requires At(mem, at, Uleb(v)) && v < MOD64
    ensures HasEnd(mem, at) && Len(mem, at) == |Uleb(v)| && Unsigned(mem, at) == v
  {
    UlebReads(mem, at, v);
  }

  lemma {:induction false} NulReads(mem: seq<Byte>, at: nat, name: seq<Byte>)
    requires 0 !in name && At(mem, at, name + [0])
    ensures HasNul(mem, at) && AfterNul(mem, at) == at + |name| + 1 && mem[at..at + |name|] == name
    decreases |name|
  {
    if name == [] {
      AtSplit(mem, at, [0], []);
    } else {
      assert name[0] in name;
      assert name + [0] == [name[0]] + (name[1..] + [0]);
      AtSplit(mem, at, [name[0]], name[1..] + [0]);
      NulReads(mem, at + 1, name[1..]);
      AtSplit(mem, at, name, [0]);
    }
  }

  lemma TwoBytes(mem: seq<Byte>, at: nat, n: nat)
    requires n < 0x1_0000 && At(mem, at, LittleBytes(n, 2))
    ensures at + 2 <= |mem| && Little(mem, at, 2) == n
  {
    assert PowBytes(2) == 0x1_0000;
    LittleReads(mem, at, n, 2);
  }

  lemma EightBytes(mem: seq<Byte>, at: nat, n: nat)
    requires n < MOD64 && At(mem, at, LittleBytes(n, 8))
    ensures at + 8 <= |mem| && Little(mem, at, 8) == n
  {
    assert PowBytes(4) == MOD32;
    assert PowBytes(8) == MOD64;
    LittleReads(mem, at, n, 8);
  }
}
