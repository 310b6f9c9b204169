/** The CRC-32 of test/lib/mt_pcie_f.c: a table of remainders, built bit by bit
    (section 8 of RFC 1952, without the inversions before and after). */
module Crc32 {

  /** The reflected generator polynomial. */
  const POLYNOMIAL: bv32 := 0xEDB88320

  // ---------- registers ----------

  function Xor(a: bv32, b: bv32): bv32 { a ^ b }

  predicate Low(a: bv32) { (a & 1) == 1 }

  function Half(a: bv32): bv32 { a >> 1 }

  lemma LowXor(a: bv32, b: bv32)
    ensures Low(Xor(a, b)) == (Low(a) != Low(b))
  {
  }

  lemma HalfXor(a: bv32, b: bv32)
    ensures Half(Xor(a, b)) == Xor(Half(a), Half(b))
  {
  }

  lemma XorLaws(a: bv32, b: bv32, c: bv32)
    ensures Xor(Xor(a, b), c) == Xor(a, Xor(b, c)) && Xor(a, b) == Xor(b, a)
    ensures Xor(Xor(a, b), b) == a && Xor(a, 0) == a && Xor(a, a) == 0
  {
  }

  // ---------- bit-at-a-time division ----------

  /** One step of the division with a message bit coming in at the low end. */
  function Shift(crc: bv32, bit: bool): bv32 {
    if Low(crc) != bit then Xor(Half(crc), POLYNOMIAL) else Half(crc)
  }

  /** The remainder after the message bits, first bit first. */
  function Divide(crc: bv32, bits: seq<bool>): bv32
    decreases |bits|
  {
    if bits == [] then crc else Divide(Shift(crc, bits[0]), bits[1..])
  }

  /** The low n bits, least significant first. */
  function LowBits(m: bv32, n: nat): seq<bool>
    decreases n
  {
    if n == 0 then [] else [Low(m)] + LowBits(Half(m), n - 1)
  }

  function ByteBits(b: bv8): seq<bool> { LowBits(b as bv32, 8) }

  function MessageBits(s: seq<bv8>): seq<bool> {
    if s == [] then [] else ByteBits(s[0]) + MessageBits(s[1..])
  }

  // ---------- the table ----------

  /** The inner loop of make_crc32_table, n times. */
  function Remainder(c: bv32, n: nat): bv32 {
    if n == 0 then c else Shift(Remainder(c, n - 1), false)
  }

  /** A byte as an index. */
  function Number(b: bv8): (i: nat)
    ensures i < 256
  {
    b as nat
  }

  ghost predicate IsTable(table: seq<bv32>) {
    |table| == 256 && forall b: bv8 :: table[Number(b)] == Remainder(b as bv32, 8)
  }

  /** The byte with number i. */
  lemma ByteAt(i: nat, b: bv8)
    requires i < 256 && Number(b) == i
    ensures b as bv32 == i as bv32
  {
    ByteNumber(i);
    Injective(i as bv8, b);
  }

  lemma ByteNumber(i: nat)
    requires i < 256
    ensures (i as bv8) as nat == i && (i as bv8) as bv32 == i as bv32
  {
  }

  lemma Injective(a: bv8, b: bv8)
    requires a as nat == b as nat
    ensures a == b
  {
  }

  /** The inner loop of make_crc32_table */
  method TableEntry(i: bv32) returns (c: bv32)
    ensures c == Remainder(i, 8)
  {
    c := i;
    for bit := 0 to 8
      invariant c == Remainder(i, bit)
    {
      if (c & 1) == 1 {
        c := (c >> 1) ^ 0xEDB88320;
      } else {
        c := c >> 1;
      }
    }
  }

  /** make_crc32_table */
  method MakeCrc32Table(table: array<bv32>)
    requires table.Length == 256
    modifies table
    ensures IsTable(table[..])
  {
    hide Remainder, Number;
    for i := 0 to 256
      invariant forall b: bv8 :: Number(b) < i ==> table[Number(b)] == Remainder(b as bv32, 8)
    {
      var c := TableEntry(i as bv32);
      table[i] := c;
      forall b: bv8 | Number(b) == i ensures table[Number(b)] == Remainder(b as bv32, 8) {
        ByteAt(i, b);
      }
    }
  }

  // ---------- the checksum ----------

  /** The table index for the register and a message byte. */
  function Index(crc: bv32, b: bv8): bv8 { (Xor(crc, b as bv32) & 0xFF) as bv8 }

  /** make_crc over the table */
  method MakeCrc(table: array<bv32>, start: bv32, s: seq<bv8>) returns (crc: bv32)
    requires IsTable(table[..])
    ensures crc == Divide(start, MessageBits(s))
  {
    hide Remainder, Divide, Xor, Index, ByteBits, Number;
    crc := start;
    var k := 0;
    assert s[0..] == s;
    while k < |s|
      invariant 0 <= k <= |s|
      invariant Divide(crc, MessageBits(s[k..])) == Divide(start, MessageBits(s))
    {
      ByteStep(table[..], crc, s[k], MessageBits(s[k + 1..]));
      assert s[k..][0] == s[k] && s[k..][1..] == s[k + 1..];
      crc := Xor(crc >> 8, table[Number(Index(crc, s[k]))]);
      k := k + 1;
    }
    NoBits(crc);
  }

  lemma NoBits(crc: bv32)
    ensures Divide(crc, []) == crc
  {
  }

  /** One table look-up does what eight division steps do. */
  lemma ByteStep(table: seq<bv32>, crc: bv32, b: bv8, rest: seq<bool>)
    requires IsTable(table)
    ensures Divide(crc, ByteBits(b) + rest) == Divide(Xor(crc >> 8, table[Number(Index(crc, b))]), rest)
  {
    hide Remainder, Divide, Xor, ByteBits, Index, Number;
    EightBits(crc, b, rest);
    LowByte(Xor(crc, b as bv32));
    IndexIsLowByte(crc, b);
  }

  lemma IndexIsLowByte(crc: bv32, b: bv8)
    ensures Index(crc, b) as bv32 == Xor(crc, b as bv32) & 0xFF
    ensures Xor(crc, b as bv32) >> 8 == crc >> 8
  {
  }

  /** A message bit can be combined with the register before the step. */
  lemma BitFirst(r: bv32, m: bv32)
    ensures Shift(Xor(r, m), Low(m)) == Xor(Shift(r, false), Half(m))
  {
    LowXor(r, m);
    HalfXor(r, m);
    XorLaws(Half(r), Half(m), POLYNOMIAL);
    XorLaws(Half(r), POLYNOMIAL, Half(m));
    XorLaws(Half(m), POLYNOMIAL, 0);
    hide Xor, Low, Half;
  }

  /** `m` without its low n bits */
  function Drop(m: bv32, n: nat): bv32
    decreases n
  {
    if n == 0 then m else Drop(Half(m), n - 1)
  }

  lemma {:induction false} RemainderFront(c: bv32, n: nat)
    requires n > 0
    ensures Remainder(c, n) == Remainder(Shift(c, false), n - 1)
    decreases n
  {
    hide Shift;
    if n > 1 { RemainderFront(c, n - 1); }
  }

  /** And so can n bits: `r` is the register with the message already in it, of
      which `m` has not come in yet. */
  lemma {:induction false} BitsFirst(r: bv32, m: bv32, n: nat, rest: seq<bool>)
    ensures Divide(Xor(r, m), LowBits(m, n) + rest) == Divide(Xor(Remainder(r, n), Drop(m, n)), rest)
    decreases n
  {
    hide Xor, Low, Half, Shift, Remainder;
    if n == 0 {
      assert [] + rest == rest;
      assert Remainder(r, 0) == r by { RemainderZero(r); }
    } else {
      BitFirst(r, m);
      BitsFirst(Shift(r, false), Half(m), n - 1, rest);
      RemainderFront(r, n);
      assert LowBits(m, n) + rest == [Low(m)] + (LowBits(Half(m), n - 1) + rest);
    }
  }

  lemma RemainderZero(c: bv32)
    ensures Remainder(c, 0) == c
  {
  }

  lemma EightBits(crc: bv32, b: bv8, rest: seq<bool>)
    ensures Divide(crc, ByteBits(b) + rest) == Divide(Remainder(Xor(crc, b as bv32), 8), rest)
  {
    hide Xor, Divide, Remainder, LowBits, Drop;
    var m := b as bv32;
    BitsFirst(Xor(crc, m), m, 8, rest);
    XorLaws(crc, m, 0);
    DropByte(b);
    XorLaws(Remainder(Xor(crc, m), 8), 0, 0);
  }

  lemma Halves(m: bv32)
    ensures Half(m) == m >> 1 && Half(m >> 1) == m >> 2 && Half(m >> 2) == m >> 3 && Half(m >> 3) == m >> 4
    ensures Half(m >> 4) == m >> 5 && Half(m >> 5) == m >> 6 && Half(m >> 6) == m >> 7 && Half(m >> 7) == m >> 8
  {
  }

  lemma DropEight(m: bv32)
    ensures Drop(m, 8) == m >> 8
  {
    Halves(m);
    hide Half;
    assert Drop(m, 8) == Drop(m >> 1, 7) == Drop(m >> 2, 6) == Drop(m >> 3, 5) == Drop(m >> 4, 4);
    assert Drop(m >> 4, 4) == Drop(m >> 5, 3) == Drop(m >> 6, 2) == Drop(m >> 7, 1) == Drop(m >> 8, 0);
  }

  lemma DropByte(b: bv8)
    ensures Drop(b as bv32, 8) == 0
  {
    DropEight(b as bv32);
    hide Drop;
    NoUpper(b);
  }

  lemma NoUpper(b: bv8)
    ensures (b as bv32) >> 8 == 0
  {
  }

  lemma ShiftXor(x: bv32, y: bv32)
    ensures Shift(Xor(x, y), false) == Xor(Shift(x, false), Shift(y, false))
  {
    hide Xor, Low, Half;
    LowXor(x, y);
    HalfXor(x, y);
    var a, b, p := Half(x), Half(y), POLYNOMIAL;
    XorLaws(a, b, p);
    XorLaws(a, p, b);
    XorLaws(b, p, 0);
    XorLaws(Xor(a, p), b, p);
    XorLaws(Xor(a, b), p, 0);
  }

  /** The division is linear. */
  lemma {:induction false} RemainderXor(x: bv32, y: bv32, n: nat)
    ensures Remainder(Xor(x, y), n) == Xor(Remainder(x, n), Remainder(y, n))
  {
    hide Xor, Shift;
    if n > 0 {
      RemainderXor(x, y, n - 1);
      ShiftXor(Remainder(x, n - 1), Remainder(y, n - 1));
    }
  }

  predicate NoLowBits(m: bv32, n: nat)
    decreases n
  {
    n == 0 || (!Low(m) && NoLowBits(Half(m), n - 1))
  }

  /** While the low bits are zero, dividing only shifts. */
  lemma {:induction false} OnlyShifts(m: bv32, n: nat)
    requires NoLowBits(m, n)
    ensures Remainder(m, n) == Drop(m, n)
    decreases n
  {
    hide Low, Half, Xor;
    if n > 0 {
      RemainderFront(m, n);
      OnlyShifts(Half(m), n - 1);
    }
  }

  lemma Clear(m: bv32, mask: bv32)
    requires m & mask == 0 && mask & 1 == 1
    ensures !Low(m) && Half(m) & (mask >> 1) == 0
  {
  }

  lemma ByteClear(m: bv32)
    requires m & 0xFF == 0
    ensures NoLowBits(m, 8)
  {
    Halves(m);
    Clear(m, 0xFF);
    Clear(m >> 1, 0x7F);
    Clear(m >> 2, 0x3F);
    Clear(m >> 3, 0x1F);
    Clear(m >> 4, 0xF);
    Clear(m >> 5, 7);
    Clear(m >> 6, 3);
    Clear(m >> 7, 1);
    hide Half, Low;
    assert NoLowBits(m >> 8, 0);
    assert NoLowBits(m >> 7, 1) && NoLowBits(m >> 6, 2) && NoLowBits(m >> 5, 3);
    assert NoLowBits(m >> 4, 4) && NoLowBits(m >> 3, 5) && NoLowBits(m >> 2, 6);
    assert NoLowBits(m >> 1, 7);
  }

  lemma Split(x: bv32)
    ensures x == Xor(x & 0xFFFF_FF00, x & 0xFF)
    ensures (x & 0xFFFF_FF00) & 0xFF == 0 && (x & 0xFFFF_FF00) >> 8 == x >> 8
  {
  }

  /** Dividing what is above the low byte only shifts it. */
  lemma LowByte(x: bv32)
    ensures Remainder(x, 8) == Xor(x >> 8, Remainder(x & 0xFF, 8))
  {
    hide Xor, Remainder, Drop, NoLowBits;
    var high, low := x & 0xFFFF_FF00, x & 0xFF;
    Split(x);
    RemainderXor(high, low, 8);
    ByteClear(high);
    OnlyShifts(high, 8);
    DropEight(high);
  }

  // ---------- concatenation ----------

  lemma {:induction false} DivideConcat(crc: bv32, a: seq<bool>, b: seq<bool>)
    ensures Divide(crc, a + b) == Divide(Divide(crc, a), b)
    decreases |a|
  {
    hide Shift;
    if a == [] {
      assert a + b == b;
    } else {
      assert (a + b)[1..] == a[1..] + b;
      DivideConcat(Shift(crc, a[0]), a[1..], b);
    }
  }

  lemma {:induction false} MessageConcat(s: seq<bv8>, t: seq<bv8>)
    ensures MessageBits(s + t) == MessageBits(s) + MessageBits(t)
  {
    hide ByteBits;
    if s == [] {
      assert s + t == t;
    } else {
      assert (s + t)[1..] == s[1..] + t;
      MessageConcat(s[1..], t);
    }
  }

  /** The checksum of two messages in a row is that of the second, started with
      that of the first. */
  lemma CrcConcat(crc: bv32, s: seq<bv8>, t: seq<bv8>)
    ensures Divide(crc, MessageBits(s + t)) == Divide(Divide(crc, MessageBits(s)), MessageBits(t))
  {
    MessageConcat(s, t);
    DivideConcat(crc, MessageBits(s), MessageBits(t));
  }
}
