/**
 LEB128 numbers as read by inc/dwarf.h (section 7.6 and Appendix C of DWARF 4): the
 readers are loops over bytes, proved against the base-128 value of the whole encoding.
 */
module Leb128 {
  import opened Arith

  type Byte = b: nat | b < 256

  const MOD64: nat := 0x1_0000_0000_0000_0000
  const MOD32: nat := 0x1_0000_0000

  /** An encoding starts at i and ends inside the buffer. */
  predicate HasEnd(bs: seq<Byte>, i: nat)
    decreases |bs| - i
  {
    i < |bs| && (bs[i] < 128 || HasEnd(bs, i + 1))
  }

  /** Number of bytes of the encoding at i. */
  function Len(bs: seq<Byte>, i: nat): (n: nat)
    requires HasEnd(bs, i)
    ensures n > 0 && i + n <= |bs|
    decreases |bs| - i
  {
    if bs[i] < 128 then 1 else 1 + Len(bs, i + 1)
  }

  /** The unsigned value: seven bits a byte, least significant first. */
  function UValue(bs: seq<Byte>, i: nat): (v: nat)
    requires HasEnd(bs, i)
    decreases |bs| - i
  {
    bs[i] % 128 + if bs[i] < 128 then 0 else 128 * UValue(bs, i + 1)
  }

  /** Bit 6 of the last byte is the sign. */
  predicate Negative(bs: seq<Byte>, i: nat)
    requires HasEnd(bs, i)
    decreases |bs| - i
  {
    if bs[i] < 128 then bs[i] >= 64 else Negative(bs, i + 1)
  }

  /** The signed value: two's complement in 7 * Len bits. */
  function SValue(bs: seq<Byte>, i: nat): (v: int)
    requires HasEnd(bs, i)
  {
    UValue(bs, i) - if Negative(bs, i) then Pow2(7 * Len(bs, i)) else 0
  }

  /** Bitwise or. */
  function Or(x: nat, y: nat): (r: nat) {
    if x == 0 then y else if y == 0 then x
    else (if x % 2 == 1 || y % 2 == 1 then 1 else 0) + 2 * Or(x / 2, y / 2)
  }

  /** Numbers without a common bit are added. */
  lemma {:induction false} OrAdds(x: nat, k: nat, y: nat)
    requires x < Pow2(k)
    ensures Or(x, Pow2(k) * y) == x + Pow2(k) * y
    decreases k
  {
    if k > 0 {
      var p := Pow2(k - 1);
      Distribute(2, p, y, 0);
      OrAdds(x / 2, k - 1, y);
      OrStep(x, p * y);
    }
  }

  lemma OrStep(x: nat, h: nat)
    ensures Or(x, 2 * h) == x % 2 + 2 * Or(x / 2, h)
  {
  }

  lemma Distribute(p: int, c: int, q: int, r: int)
    ensures p * (c * q + r) == p * c * q + p * r
  {
  }

  /** Setting the bits of low7 from bit `shift` on, in 64 bits. */
  function OrAt(result: nat, low7: nat, shift: nat): (r: nat) {
    Or(result, Pow2(shift) * low7 % MOD64)
  }

  /** The bits set so far are all below, so this adds. */
  lemma OrAtAdds(result: nat, low7: nat, shift: nat)
    requires result < Pow2(shift) && shift < 64 && low7 < 128
    ensures OrAt(result, low7, shift) == (result + Pow2(shift) * low7) % MOD64 < Pow2(shift + 7)
  {
    hide Or, Pow2;
    var p, c := Pow2(shift), Pow2(64 - shift);
    Pow2Add(shift, 64 - shift);
    Pow2Values();
    Pow2At7(shift);
    var r := Truncated(p, c, low7, result);
    OrAdds(result, shift, r);
    MulLess(p, r, 128);
  }

  /** What a shift to the left leaves of low7, and what is left of the sum. */
  lemma Truncated(p: nat, c: nat, low7: nat, result: nat) returns (r: nat)
    requires p * c == MOD64 && result < p && c > 0
    ensures r <= low7 && p * low7 % MOD64 == p * r && (result + p * low7) % MOD64 == result + p * r
  {
    var q := low7 / c;
    r := low7 % c;
    MulLess(p, r, c);
    Distribute(p, c, q, r);
    DivModUnique(p * low7, MOD64, q, p * r);
    DivModUnique(result + p * low7, MOD64, q, result + p * r);
  }

  lemma MulLess(p: nat, r: nat, c: nat)
    requires r < c
    ensures p * r + p <= p * c
  {
    assert p * c == p * r + p * (c - r);
    assert p * (c - r) == p + p * (c - r - 1);
  }

  // ------------------------------------------------------------ the readers

  /** What is still to come when the bytes before i have been read, 0 after the last. */
  ghost function Rest(bs: seq<Byte>, i: nat, more: bool): nat
    requires more ==> HasEnd(bs, i)
  {
    if more then UValue(bs, i) else 0
  }

  lemma Pow2At7(shift: nat)
    ensures Pow2(shift + 7) == 128 * Pow2(shift)
  {
    Pow2Add(7, shift);
  }

  lemma Pow2Big(shift: nat)
    requires shift >= 64
    ensures Pow2(shift) == MOD64 * Pow2(shift - 64)
  {
    Pow2Add(64, shift - 64);
    Pow2Values();
  }

  lemma Pow2Values()
    ensures Pow2(0) == 1 && Pow2(7) == 128 && Pow2(14) == 0x4000 && Pow2(21) == 0x20_0000 && Pow2(28) == 0x1000_0000
    ensures Pow2(32) == MOD32 && Pow2(64) == MOD64
  {
    assert Pow2(4) == 16;
    Pow2Add(4, 3);
    Pow2Add(7, 7);
    Pow2Add(14, 7);
    Pow2Add(14, 14);
    Pow2Add(28, 4);
    Pow2Add(32, 32);
  }

  /** One byte moves from the rest to the result; q counts the multiples of 2^64 dropped. */
  lemma Absorb(total: int, result: nat, shift: nat, q: int, b: nat, rest: nat) returns (q': int)
    requires total == result + Pow2(shift) * (b + 128 * rest) + MOD64 * q
    ensures total == (result + Pow2(shift) * b) % MOD64 + Pow2(shift + 7) * rest + MOD64 * q'
  {
    var x := result + Pow2(shift) * b;
    q' := q + x / MOD64;
    Pow2At7(shift);
    assert Pow2(shift) * (b + 128 * rest) == Pow2(shift) * b + 128 * Pow2(shift) * rest;
    assert x == x % MOD64 + MOD64 * (x / MOD64);
  }

  lemma Finish(total: int, result: nat, shift: nat, q: int, rest: nat)
    requires total == result + Pow2(shift) * rest + MOD64 * q && result < MOD64
    requires rest == 0 || shift >= 64
    ensures total % MOD64 == result
  {
    hide Pow2;
    if rest == 0 {
      DivModUnique(total, MOD64, q, result);
    } else {
      Pow2Big(shift);
      var k := Pow2(shift - 64) * rest;
      assert Pow2(shift) * rest == MOD64 * k;
      DivModUnique(total, MOD64, q + k, result);
    }
  }

  /** The two loops both readers share: the bits of the first ten bytes, the byte count of
      all of them, and the last byte. */
  method ReadBits(bs: seq<Byte>, at: nat) returns (result: nat, shift: nat, count: nat, byte: Byte)
    requires HasEnd(bs, at)
    ensures result == UValue(bs, at) % MOD64 && result < Pow2(shift)
    ensures count == Len(bs, at) && count > 0 && byte == bs[at + count - 1] < 128
    ensures if count <= 10 then shift == 7 * count else shift == 70
  {
    hide Pow2, OrAt, Or;
    ghost var total, q := UValue(bs, at), 0;
    var addr := at;
    result, shift, count := 0, 0, 0;
    Pow2Values();
    while true
      invariant addr == at + count && HasEnd(bs, addr) && count + Len(bs, addr) == Len(bs, at)
      invariant shift == 7 * count < 64 && result < Pow2(shift) && result < MOD64
      invariant total == result + Pow2(shift) * UValue(bs, addr) + MOD64 * q
      decreases Len(bs, addr)
    {
      byte := bs[addr];
      q := Absorb(total, result, shift, q, byte % 128, Rest(bs, addr + 1, byte >= 128));
      OrAtAdds(result, byte % 128, shift);
      addr := addr + 1;
      result := OrAt(result, byte % 128, shift);
      shift := shift + 7;
      count := count + 1;
      if byte < 128 || shift >= 64 {
        break;
      }
    }
    Finish(total, result, shift, q, Rest(bs, addr, byte >= 128));
    while byte >= 128
      invariant addr == at + count <= |bs| && count > 0 && byte == bs[addr - 1]
      invariant byte >= 128 ==> HasEnd(bs, addr) && count + Len(bs, addr) == Len(bs, at) && shift == 70 && count >= 10
      invariant result < Pow2(shift)
      invariant byte < 128 ==> count == Len(bs, at) && (if count <= 10 then shift == 7 * count else shift == 70)
      decreases Len(bs, at) - count
    {
      byte := bs[addr];
      addr := addr + 1;
      count := count + 1;
    }
  }

  /** dwarf_read_uleb128: the value modulo 2^64 and the number of bytes, for encodings of
      any length. */
  method ReadUleb(bs: seq<Byte>, at: nat) returns (value: nat, count: nat)
    requires HasEnd(bs, at)
    ensures value == UValue(bs, at) % MOD64 && count == Len(bs, at)
  {
    var shift, byte;
    value, shift, count, byte := ReadBits(bs, at);
  }

  /** dwarf_read_leb128, as a 64-bit pattern. The sign is extended with a 32-bit -1, so the
      shift is undefined for negative encodings of five to nine bytes. */
  method ReadSleb(bs: seq<Byte>, at: nat) returns (value: nat, count: nat)
    requires HasEnd(bs, at) && (Negative(bs, at) ==> Len(bs, at) <= 4 || Len(bs, at) > 9)
    ensures count == Len(bs, at) && value < MOD64
    ensures value % MOD32 == SValue(bs, at) % MOD32
    ensures value == SValue(bs, at) % MOD64 <==> !Negative(bs, at) || Len(bs, at) > 9
  {
    hide Pow2, Or;
    var result, shift, byte;
    result, shift, count, byte := ReadBits(bs, at);
    LastByte(bs, at);
    SignFacts(bs, at, result);
    if shift < 64 && byte % 128 >= 64 {
      SignBits(result, shift);
      result := Or(result, MOD32 - Pow2(shift));
    }
    value := result;
  }

  /** The sign extension sets bits above those that were read. */
  lemma SignBits(result: nat, shift: nat)
    requires result < Pow2(shift) && shift <= 28
    ensures Pow2(shift) <= MOD32 && Or(result, MOD32 - Pow2(shift)) == result + (MOD32 - Pow2(shift))
  {
    hide Or, Pow2;
    Pow2Values();
    Pow2Add(shift, 32 - shift);
    var c := Pow2(32 - shift);
    assert MOD32 - Pow2(shift) == Pow2(shift) * (c - 1);
    OrAdds(result, shift, c - 1);
  }

  lemma {:induction false} LastByte(bs: seq<Byte>, i: nat)
    requires HasEnd(bs, i)
    ensures Negative(bs, i) <==> bs[i + Len(bs, i) - 1] >= 64
    ensures 0 <= UValue(bs, i) < Pow2(7 * Len(bs, i))
    decreases |bs| - i
  {
    if bs[i] >= 128 {
      LastByte(bs, i + 1);
      assert 7 * Len(bs, i) == 7 * Len(bs, i + 1) + 7;
      Pow2At7(7 * Len(bs, i + 1));
    } else {
      Pow2Values();
    }
  }

  /** What the sign extension makes of the bits read. */
  lemma SignFacts(bs: seq<Byte>, at: nat, result: nat)
    requires HasEnd(bs, at) && result == UValue(bs, at) % MOD64
    requires Negative(bs, at) ==> Len(bs, at) <= 4 || Len(bs, at) > 9
    ensures !Negative(bs, at) || Len(bs, at) > 9 ==>
      result == SValue(bs, at) % MOD64 && result % MOD32 == SValue(bs, at) % MOD32
    ensures Negative(bs, at) && Len(bs, at) <= 4 ==>
      var p := Pow2(7 * Len(bs, at));
      var value := result + (MOD32 - p);
      && result < p <= MOD32 && value % MOD32 == SValue(bs, at) % MOD32 && value != SValue(bs, at) % MOD64
  {
    hide Pow2;
    var u, n := UValue(bs, at), Len(bs, at);
    LastByte(bs, at);
    if !Negative(bs, at) {
      LowHalf(u);
    } else if n > 9 {
      Pow2Big(7 * n);
      var k := Pow2(7 * n - 64);
      DivModUnique(u - MOD64 * k, MOD64, u / MOD64 - k, u % MOD64);
      LowHalf(u - MOD64 * k);
    } else {
      Pow2Mono(7 * n, 28);
      Pow2Values();
      var p := Pow2(7 * n);
      var v := u - p;
      DivModUnique(v, MOD64, -1, v + MOD64);
      DivModUnique(v, MOD32, -1, v + MOD32);
      DivModUnique(u, MOD64, 0, u);
    }
  }

  lemma LowHalf(x: int)
    ensures x % MOD64 % MOD32 == x % MOD32
  {
    var q, r := x / MOD64, x % MOD64;
    assert x == MOD32 * (MOD32 * q + r / MOD32) + r % MOD32;
    DivModUnique(x, MOD32, MOD32 * q + r / MOD32, r % MOD32);
  }

  // ------------------------------------------------------------ writing

  /** The shortest unsigned encoding. */
  function Uleb(v: nat): (bs: seq<Byte>)
    ensures |bs| > 0
  {
    if v < 128 then [v] else [v % 128 + 128] + Uleb(v / 128)
  }

  /** These bytes are in the buffer at this place. */
  predicate At(mem: seq<Byte>, at: nat, bs: seq<Byte>) {
    at + |bs| <= |mem| && mem[at..at + |bs|] == bs
  }

  lemma AtSplit(mem: seq<Byte>, at: nat, a: seq<Byte>, b: seq<Byte>)
    requires At(mem, at, a + b)
    ensures At(mem, at, a) && At(mem, at + |a|, b)
    ensures a != [] ==> mem[at] == a[0]
  {
    var m := mem[at..at + |a + b|];
    assert m[..|a|] == a && m[|a|..] == b;
    assert a != [] ==> m[0] == mem[at];
  }

  /** Figure 22 of DWARF 4. */
  lemma UnsignedExamples()
    ensures Uleb(2) == [0x02] && Uleb(127) == [0x7F] && Uleb(128) == [0x80, 0x01] && Uleb(129) == [0x81, 0x01]
    ensures Uleb(130) == [0x82, 0x01] && Uleb(12857) == [0xB9, 0x64]
  {
    assert Uleb(1) == [1] && Uleb(100) == [0x64];
  }

  /** Reading back what was written, anywhere in a buffer. */
  lemma {:induction false} UlebReads(mem: seq<Byte>, at: nat, v: nat)
    requires At(mem, at, Uleb(v))
    ensures HasEnd(mem, at) && Len(mem, at) == |Uleb(v)| && UValue(mem, at) == v
    decreases v
  {
    if v < 128 {
      AtSplit(mem, at, [v], []);
    } else {
      AtSplit(mem, at, [v % 128 + 128], Uleb(v / 128));
      UlebReads(mem, at + 1, v / 128);
    }
  }

  /** The shortest signed encoding. */
  function Sleb(v: int): (bs: seq<Byte>)
    ensures |bs| > 0
    decreases if v < 0 then -v else v
  {
    if -64 <= v < 64 then [v % 128] else [v % 128 + 128] + Sleb(v / 128)
  }

  /** Figure 23 of DWARF 4. */
  lemma SignedExamples()
    ensures Sleb(2) == [0x02] && Sleb(-2) == [0x7E] && Sleb(127) == [0xFF, 0x00] && Sleb(-127) == [0x81, 0x7F]
    ensures Sleb(128) == [0x80, 0x01] && Sleb(-128) == [0x80, 0x7F]
    ensures Sleb(129) == [0x81, 0x01] && Sleb(-129) == [0xFF, 0x7E]
  {
    assert Sleb(0) == [0] && Sleb(1) == [1] && Sleb(-1) == [0x7F] && Sleb(-2) == [0x7E];
  }

  lemma {:induction false} SlebReads(mem: seq<Byte>, at: nat, v: int)
    requires At(mem, at, Sleb(v))
    ensures HasEnd(mem, at) && Len(mem, at) == |Sleb(v)| && SValue(mem, at) == v
    ensures Negative(mem, at) <==> v < 0
    decreases if v < 0 then -v else v
  {
    hide Pow2;
    Pow2Values();
    if -64 <= v < 64 {
      AtSplit(mem, at, [v % 128], []);
    } else {
      AtSplit(mem, at, [v % 128 + 128], Sleb(v / 128));
      SlebReads(mem, at + 1, v / 128);
      Pow2At7(7 * |Sleb(v / 128)|);
    }
  }

  /** Four bytes reach to 2^27. */
  lemma SlebShort(v: int)
    requires -0x800_0000 <= v < 0x800_0000
    ensures |Sleb(v)| <= 4
  {
    var a := v / 128;
    var b := a / 128;
    var c := b / 128;
    assert |Sleb(c)| == 1;
    assert |Sleb(b)| <= 2;
    assert |Sleb(a)| <= 3;
  }
}
