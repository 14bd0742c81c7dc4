/** The ready bitmaps of src/scheduler.c: one 32-bit word for up to 32 priorities, a word over 32 bytes
    for 256, and `__rt_ffs` of src/kservice.c, which finds the most urgent one. */
module ReadyBits {

  // ----- single bits -----

  predicate Bit32(g: bv32, p: bv8)
    requires p < 32
  {
    (g >> p) & 1 == 1
  }

  function Set32(g: bv32, p: bv8): bv32
    requires p < 32
  {
    g | (1 << p)
  }

  function Clear32(g: bv32, p: bv8): bv32
    requires p < 32
  {
    g & !(1 << p)
  }

  predicate Bit8(b: bv8, k: bv8)
    requires k < 8
  {
    (b >> k) & 1 == 1
  }

  function Set8(b: bv8, k: bv8): bv8
    requires k < 8
  {
    b | (1 << k)
  }

  function Clear8(b: bv8, k: bv8): bv8
    requires k < 8
  {
    b & !(1 << k)
  }

  lemma Set32Is(g: bv32, p: bv8, q: bv8)
    requires p < 32 && q < 32
    ensures Bit32(Set32(g, p), q) <==> p == q || Bit32(g, q)
  {
  }

  lemma Clear32Is(g: bv32, p: bv8, q: bv8)
    requires p < 32 && q < 32
    ensures Bit32(Clear32(g, p), q) <==> p != q && Bit32(g, q)
  {
  }

  lemma Bits8(b: bv8, k: bv8, l: bv8)
    requires k < 8 && l < 8
    ensures Bit8(Set8(b, k), l) <==> k == l || Bit8(b, l)
    ensures Bit8(Clear8(b, k), l) <==> k != l && Bit8(b, l)
    ensures Set8(b, k) != 0
  {
  }

  // ----- __rt_ffs -----

  /** The rows of `__lowest_bit_bitmap` differ in their first column only. */
  const FIRST_COLUMN: seq<bv8> := [0, 4, 5, 4, 6, 4, 5, 4, 7, 4, 5, 4, 6, 4, 5, 4]
  const ROW: seq<bv8> := [0, 0, 1, 0, 2, 0, 1, 0, 3, 0, 1, 0, 2, 0, 1, 0]

  function LowestBit(b: bv8): bv8 {
    if b & 0xf == 0 then FIRST_COLUMN[(b >> 4) as nat] else ROW[(b & 0xf) as nat]
  }

  /** `k` is the lowest bit of `b` that is set. */
  predicate IsLowest8(b: bv8, k: bv8) { k < 8 && (b >> k) & 1 == 1 && b & ((1 << k) - 1) == 0 }

  predicate IsLowest32(v: bv32, k: bv8) { k < 32 && (v >> k) & 1 == 1 && v & ((1 << k) - 1) == 0 }

  lemma Nibble(x: bv8)
    requires x < 16
    ensures x as nat < 16
    ensures ROW[x as nat] == if x & 1 == 1 then 0 else if x & 3 == 2 then 1 else if x & 7 == 4 then 2 else if x == 8 then 3 else 0
    ensures FIRST_COLUMN[x as nat] == if x == 0 then 0 else ROW[x as nat] + 4
  {
    if x == 0 {} else if x == 1 {} else if x == 2 {} else if x == 3 {} else if x == 4 {} else if x == 5 {}
    else if x == 6 {} else if x == 7 {} else if x == 8 {} else if x == 9 {} else if x == 10 {} else if x == 11 {}
    else if x == 12 {} else if x == 13 {} else if x == 14 {} else {}
  }

  /** The byte table holds the lowest bit of every byte but zero. */
  lemma LowestBitIs(b: bv8)
    requires b != 0
    ensures IsLowest8(b, LowestBit(b))
  {
    Nibble(b >> 4);
    Nibble(b & 0xf);
  }

  function Ffs(value: bv32): bv8 {
    if value == 0 then 0
    else if value & 0xff != 0 then LowestBit((value & 0xff) as bv8) + 1
    else if value & 0xff00 != 0 then LowestBit(((value & 0xff00) >> 8) as bv8) + 9
    else if value & 0xff0000 != 0 then LowestBit(((value & 0xff0000) >> 16) as bv8) + 17
    else LowestBit(((value & 0xff000000) >> 24) as bv8) + 25
  }

  /** The byte-table search returns one more than the lowest bit set, and 0 exactly for 0. */
  lemma FfsIs(value: bv32)
    ensures Ffs(value) == 0 <==> value == 0
    ensures value != 0 ==> IsLowest32(value, Ffs(value) - 1)
  {
    hide LowestBit;
    if value & 0xff != 0 {
      LowestBitIs((value & 0xff) as bv8);
      FirstByte(value, LowestBit((value & 0xff) as bv8));
    } else if value & 0xff00 != 0 {
      LowestBitIs(((value & 0xff00) >> 8) as bv8);
      SecondByte(value, LowestBit(((value & 0xff00) >> 8) as bv8));
    } else if value & 0xff0000 != 0 {
      LowestBitIs(((value & 0xff0000) >> 16) as bv8);
      ThirdByte(value, LowestBit(((value & 0xff0000) >> 16) as bv8));
    } else if value != 0 {
      LowestBitIs(((value & 0xff000000) >> 24) as bv8);
      FourthByte(value, LowestBit(((value & 0xff000000) >> 24) as bv8));
    }
  }

  /** The lowest bit of the first byte that is not zero is the lowest of the word. */
  lemma FirstByte(v: bv32, k: bv8)
    requires IsLowest8((v & 0xff) as bv8, k)
    ensures k < 8 && IsLowest32(v, k)
  {
  }

  lemma SecondByte(v: bv32, k: bv8)
    requires v & 0xff == 0 && IsLowest8(((v & 0xff00) >> 8) as bv8, k)
    ensures k < 8 && IsLowest32(v, k + 8)
  {
  }

  lemma ThirdByte(v: bv32, k: bv8)
    requires v & 0xffff == 0 && IsLowest8(((v & 0xff0000) >> 16) as bv8, k)
    ensures k < 8 && IsLowest32(v, k + 16)
  {
  }

  lemma FourthByte(v: bv32, k: bv8)
    requires v & 0xffffff == 0 && IsLowest8(((v & 0xff000000) >> 24) as bv8, k)
    ensures k < 8 && IsLowest32(v, k + 24)
  {
  }

  lemma Lowest32Bits(v: bv32, k: bv8, q: bv8)
    requires IsLowest32(v, k)
    ensures k < 32 && Bit32(v, k) && (q < k ==> !Bit32(v, q))
  {
  }

  lemma Lowest8Bits(b: bv8, k: bv8, l: bv8)
    requires b != 0 && IsLowest32(b as bv32, k)
    ensures k < 8 && Bit8(b, k) && (l < k ==> !Bit8(b, l))
  {
  }

  // ----- priorities as numbers -----

  /** The byte that counts `p`. */
  function Byte(p: nat): bv8
    requires p < 256
  {
    if p == 0 then 0 else Byte(p - 1) + 1
  }

  function Number(b: bv8): nat { b as nat }

  lemma ByteNumber(p: nat)
    requires p < 256
    ensures Number(Byte(p)) == p
    ensures p < 32 ==> Byte(p) < 32
    ensures p < 8 ==> Byte(p) < 8
  {
    hide Byte; hide Number;
    RoundTrip(p);
    Thirty2();
    NumberOrder(Byte(p), 32);
    NumberOrder(Byte(p), 8);
  }

  lemma {:induction false} RoundTrip(p: nat)
    requires p < 256
    ensures Number(Byte(p)) == p
  {
    hide Number;
    Thirty2();
    if p > 0 {
      RoundTrip(p - 1);
      Successor(Byte(p - 1));
    }
  }

  lemma Successor(b: bv8)
    ensures Number(b) < 255 ==> Number(b + 1) == Number(b) + 1
  {
  }

  lemma NumberByte(b: bv8)
    ensures Number(b) < 256 && Byte(Number(b)) == b
  {
    NumberBound(b);
    hide Number; hide Byte;
    var n := Number(b);
    RoundTrip(n);
    NumberOrder(b, Byte(n));
    NumberOrder(Byte(n), b);
  }

  lemma NumberBound(b: bv8)
    ensures Number(b) < 256
  {
  }

  lemma NumberOrder(a: bv8, b: bv8)
    ensures a < b <==> Number(a) < Number(b)
  {
  }

  /** The row and the column of a priority, by shift and mask, are its quotient and remainder by 8. */
  lemma RowColumn(p: nat)
    requires p < 256
    ensures Number(Byte(p) >> 3) == p / 8 && Number(Byte(p) & 0x07) == p % 8
  {
    var b := Byte(p);
    ByteNumber(p);
    assert (b >> 3) as nat == (b as nat) / 8;
    assert (b & 0x07) as nat == (b as nat) % 8;
  }

  /** The row of a priority in the ready table, and its column there. */
  function Row(p: nat): (row: nat)
    requires p < 256
    ensures row == p / 8
  {
    RowColumn(p);
    Number(Byte(p) >> 3)
  }

  function Column(p: nat): (column: nat)
    requires p < 256
    ensures column == p % 8
  {
    RowColumn(p);
    Number(Byte(p) & 0x07)
  }

  predicate GroupBit(g: bv32, p: nat)
    requires p < 32
  {
    ByteNumber(p);
    Bit32(g, Byte(p))
  }

  function GroupSet(g: bv32, p: nat): bv32
    requires p < 32
  {
    ByteNumber(p);
    Set32(g, Byte(p))
  }

  function GroupClear(g: bv32, p: nat): bv32
    requires p < 32
  {
    ByteNumber(p);
    Clear32(g, Byte(p))
  }

  predicate RowBit(b: bv8, k: nat)
    requires k < 8
  {
    ByteNumber(k);
    Bit8(b, Byte(k))
  }

  function RowSet(b: bv8, k: nat): bv8
    requires k < 8
  {
    ByteNumber(k);
    Set8(b, Byte(k))
  }

  function RowClear(b: bv8, k: nat): bv8
    requires k < 8
  {
    ByteNumber(k);
    Clear8(b, Byte(k))
  }

  lemma GroupBits(g: bv32, p: nat, q: nat)
    requires p < 32 && q < 32
    ensures GroupBit(GroupSet(g, p), q) <==> p == q || GroupBit(g, q)
    ensures GroupBit(GroupClear(g, p), q) <==> p != q && GroupBit(g, q)
    ensures !GroupBit(0, q)
  {
    hide Byte; hide Number; hide Bit32; hide Set32; hide Clear32;
    ByteNumber(p);
    ByteNumber(q);
    Set32Is(g, Byte(p), Byte(q));
    Clear32Is(g, Byte(p), Byte(q));
    ZeroBits(Byte(q));
  }

  lemma RowBits(b: bv8, k: nat, l: nat)
    requires k < 8 && l < 8
    ensures RowBit(RowSet(b, k), l) <==> k == l || RowBit(b, l)
    ensures RowBit(RowClear(b, k), l) <==> k != l && RowBit(b, l)
    ensures RowSet(b, k) != 0 && !RowBit(0, l)
    ensures b == 0 ==> RowClear(b, k) == 0
  {
    hide Byte; hide Number; hide Bit8; hide Set8; hide Clear8;
    ByteNumber(k);
    ByteNumber(l);
    Bits8(b, Byte(k), Byte(l));
    ZeroBits(Byte(l));
    ZeroClear(Byte(k));
  }

  lemma ZeroClear(k: bv8)
    requires k < 8
    ensures Clear8(0, k) == 0
  {
  }

  lemma ZeroBits(q: bv8)
    requires q < 32
    ensures !Bit32(0, q) && (q < 8 ==> !Bit8(0, q))
  {
  }

  /** `__rt_ffs` as a number. */
  function FirstBit(v: bv32): nat { Number(Ffs(v)) }

  /** The search finds the least bit that is set in the word ... */
  lemma FirstInGroup(g: bv32)
    requires g != 0
    ensures var k := FirstBit(g) - 1; 0 <= k < 32 && GroupBit(g, k) && forall q: nat :: q < k ==> !GroupBit(g, q)
  {
    hide Byte; hide Number; hide Bit32; hide Ffs; hide IsLowest32;
    FfsIs(g);
    var f := Ffs(g);
    Predecessor(f);
    NumberByte(f - 1);
    Lowest32Bits(g, f - 1, 0);
    NumberOrder(f - 1, 32);
    Thirty2();
    forall q: nat | q < Number(f) - 1 ensures !GroupBit(g, q) {
      ByteNumber(q);
      NumberOrder(Byte(q), f - 1);
      Lowest32Bits(g, f - 1, Byte(q));
    }
  }

  lemma Predecessor(b: bv8)
    requires b != 0
    ensures Number(b) >= 1 && Number(b - 1) == Number(b) - 1
  {
  }

  lemma Thirty2()
    ensures Number(32) == 32 && Number(8) == 8 && Number(0) == 0
  {
  }

  /** ... and in a byte of the table. */
  lemma FirstInRow(b: bv8)
    requires b != 0
    ensures var k := FirstBit(b as bv32) - 1; 0 <= k < 8 && RowBit(b, k) && forall l: nat :: l < k ==> !RowBit(b, l)
  {
    hide Byte; hide Number; hide Bit8; hide Ffs; hide IsLowest32;
    FfsIs(b as bv32);
    var f := Ffs(b as bv32);
    NotZero(b);
    Predecessor(f);
    NumberByte(f - 1);
    Lowest8Bits(b, f - 1, 0);
    NumberOrder(f - 1, 8);
    Thirty2();
    forall l: nat | l < Number(f) - 1 ensures !RowBit(b, l) {
      ByteNumber(l);
      NumberOrder(Byte(l), f - 1);
      Lowest8Bits(b, f - 1, Byte(l));
    }
  }

  lemma NotZero(b: bv8)
    requires b != 0
    ensures b as bv32 != 0
  {
  }
}
