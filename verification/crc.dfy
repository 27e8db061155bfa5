/** CRC-32/BZIP2 (polynomial 0x04C11DB7, initial register 0xFFFFFFFF, no
    reflection, final XOR 0xFFFFFFFF) in the two forms the repository uses:
    the command-line tool folds a 256-entry lookup table over the data
    (cig_config.py), the browser tool shifts each byte in bit by bit
    (assets/script.py). The register is a `bv32`, so the source's
    `& 0xFFFFFFFF` after every left shift is the truncation of `<<` on `bv32`. */
module Crc {
  import opened Bytes

  const Poly: bv32 := 0x04C1_1DB7
  const Init: bv32 := 0xFFFF_FFFF
  const XorOut: bv32 := 0xFFFF_FFFF

  /** One step of the non-reflected register: shift left, and subtract the
      polynomial when the bit shifted out was set. */
  function Shift(c: bv32): bv32 {
    if c & 0x8000_0000 != 0 then (c << 1) ^ Poly else c << 1
  }

  /** `n` steps of `Shift` (the `for _ in range(8)` loops). */
  function Shifts(c: bv32, n: nat): bv32 {
    if n == 0 then c else Shift(Shifts(c, n - 1))
  }

  /** Four bytes read as a big-endian unsigned 32-bit number. */
  function FromBe32(s: seq<bv8>): bv32
    requires |s| == 4
  {
    (s[0] as bv32 << 24) | (s[1] as bv32 << 16) | (s[2] as bv32 << 8) | s[3] as bv32
  }

  /** A 32-bit number as four bytes, most significant first. */
  function Be32(x: bv32): (r: seq<bv8>)
    ensures |r| == 4
    ensures FromBe32(r) == x
  {
    [((x >> 24) & 0xFF) as bv8, ((x >> 16) & 0xFF) as bv8,
     ((x >> 8) & 0xFF) as bv8, (x & 0xFF) as bv8]
  }

  /** Any four bytes are the packing of the value they spell. */
  lemma Be32OfFromBe32(s: seq<bv8>)
    requires |s| == 4
    ensures Be32(FromBe32(s)) == s
  {
    ByteOfWord(s[0], s[1], s[2], s[3]);
  }

  lemma ByteOfWord(a: bv8, b: bv8, c: bv8, d: bv8)
    ensures var x := (a as bv32 << 24) | (b as bv32 << 16) | (c as bv32 << 8) | d as bv32;
      && ((x >> 24) & 0xFF) as bv8 == a && ((x >> 16) & 0xFF) as bv8 == b
      && ((x >> 8) & 0xFF) as bv8 == c && (x & 0xFF) as bv8 == d
  {
  }

  // ----- the browser tool: bit-by-bit -----

  /** `crc ^= (byte << 24)` followed by eight shifts (assets/script.py). */
  function BitwiseUpdate(crc: bv32, b: bv8): bv32 {
    Shifts(crc ^ ((b as bv32) << 24), 8)
  }

  /** The register after the bit-by-bit loop has consumed `data`. */
  function BitwiseRegister(data: seq<bv8>): bv32 {
    if |data| == 0 then Init
    else BitwiseUpdate(BitwiseRegister(data[..|data| - 1]), data[|data| - 1])
  }

  /** The reference CRC-32/BZIP2 value of `data`. */
  function BitwiseCrc(data: seq<bv8>): bv32 {
    BitwiseRegister(data) ^ XorOut
  }

  // ----- the command-line tool: table-driven -----

  /** Entry `i` of the lookup table (`i` in 0..255): `i << 24` shifted eight times. */
  function TableEntry(i: bv32): bv32 {
    Shifts(i << 24, 8)
  }

  /** `((crc >> 24) ^ b) & 0xFF`: the table index for the next byte. */
  function TableIndex(crc: bv32, b: bv8): (idx: bv32)
    ensures idx < 256
  {
    ((crc >> 24) ^ (b as bv32)) & 0xFF
  }

  /** `table[idx] ^ ((crc << 8) & mask)`. */
  function TableUpdate(crc: bv32, b: bv8): bv32 {
    TableEntry(TableIndex(crc, b)) ^ (crc << 8)
  }

  /** The register after the table-driven loop has consumed `data`. */
  function TableRegister(data: seq<bv8>): bv32 {
    if |data| == 0 then Init
    else TableUpdate(TableRegister(data[..|data| - 1]), data[|data| - 1])
  }

  /** The CRC the command-line tool computes. */
  function TableCrc(data: seq<bv8>): bv32 {
    TableRegister(data) ^ XorOut
  }

  // ----- the two algorithms agree -----

  /** A shift is linear over XOR. */
  lemma ShiftLinear(x: bv32, y: bv32)
    ensures Shift(x ^ y) == Shift(x) ^ Shift(y)
  {
    var tx := x & 0x8000_0000 != 0;
    var ty := y & 0x8000_0000 != 0;
    assert ((x ^ y) & 0x8000_0000 != 0) == (tx != ty);
    assert (x ^ y) << 1 == (x << 1) ^ (y << 1);
  }

  /** So is any number of shifts. */
  lemma {:induction false} ShiftsLinear(x: bv32, y: bv32, n: nat)
    ensures Shifts(x ^ y, n) == Shifts(x, n) ^ Shifts(y, n)
  {
    if n > 0 {
      ShiftsLinear(x, y, n - 1);
      ShiftLinear(Shifts(x, n - 1), Shifts(y, n - 1));
    }
  }

  /** Eight shifts of a value with a clear top byte never meet the polynomial. */
  lemma LowShifts(lo: bv32)
    requires lo & 0xFF00_0000 == 0
    ensures Shifts(lo, 8) == lo << 8
  {
    assert Shifts(lo, 1) == lo << 1;
    assert Shifts(lo, 2) == lo << 2;
    assert Shifts(lo, 3) == lo << 3;
    assert Shifts(lo, 4) == lo << 4;
    assert Shifts(lo, 5) == lo << 5;
    assert Shifts(lo, 6) == lo << 6;
    assert Shifts(lo, 7) == lo << 7;
  }

  /** One table lookup does the work of eight bit steps. */
  lemma UpdatesAgree(crc: bv32, b: bv8)
    ensures TableUpdate(crc, b) == BitwiseUpdate(crc, b)
  {
    BitwiseUpdateSplit(crc, b, TableIndex(crc, b), crc & 0x00FF_FFFF);
    LowByteShift(crc);
    UpdatesAgreeStep(crc, b);
  }

  lemma UpdatesAgreeStep(crc: bv32, b: bv8)
    requires BitwiseUpdate(crc, b) == TableEntry(TableIndex(crc, b)) ^ ((crc & 0x00FF_FFFF) << 8)
    requires (crc & 0x00FF_FFFF) << 8 == crc << 8
    ensures TableUpdate(crc, b) == BitwiseUpdate(crc, b)
  {
  }

  /** The bit-by-bit update, written as a table entry plus the low 24 bits
      of the register moved up one byte. */
  lemma BitwiseUpdateSplit(crc: bv32, b: bv8, idx: bv32, lo: bv32)
    requires idx == TableIndex(crc, b) && lo == crc & 0x00FF_FFFF
    ensures BitwiseUpdate(crc, b) == TableEntry(idx) ^ (lo << 8)
  {
    SplitRegister(crc, b);
    EntryOfSplit(idx, idx << 24, lo);
  }

  /** Feeding byte `b` into `crc` splits into the table index in the top byte
      and the untouched low 24 bits. */
  lemma SplitRegister(crc: bv32, b: bv8)
    ensures crc ^ ((b as bv32) << 24) == (TableIndex(crc, b) << 24) ^ (crc & 0x00FF_FFFF)
  {
  }

  lemma LowByteShift(crc: bv32)
    ensures (crc & 0x00FF_FFFF) << 8 == crc << 8
  {
  }

  /** Eight shifts of an index in the top byte plus low bits `lo`: the table
      entry, plus `lo` moved up one byte. */
  lemma EntryOfSplit(idx: bv32, hi: bv32, lo: bv32)
    requires hi == idx << 24 && lo & 0xFF00_0000 == 0
    ensures Shifts(hi ^ lo, 8) == TableEntry(idx) ^ (lo << 8)
  {
    ShiftsOfSplit(hi, lo);
  }

  /** Eight shifts of `hi ^ lo`, when `lo` has a clear top byte. */
  lemma ShiftsOfSplit(hi: bv32, lo: bv32)
    requires lo & 0xFF00_0000 == 0
    ensures Shifts(hi ^ lo, 8) == Shifts(hi, 8) ^ (lo << 8)
  {
    EightShiftsLinear(hi, lo);
    LowShifts(lo);
  }

  /** `ShiftsLinear` for the eight shifts of one byte. */
  lemma EightShiftsLinear(x: bv32, y: bv32)
    ensures Shifts(x ^ y, 8) == Shifts(x, 8) ^ Shifts(y, 8)
  {
    ShiftsLinear(x, y, 8);
  }

  /** The two loops keep the same register on every input. */
  lemma {:induction false} RegistersAgree(data: seq<bv8>)
    ensures TableRegister(data) == BitwiseRegister(data)
  {
    if |data| > 0 {
      RegistersAgree(data[..|data| - 1]);
      UpdatesAgree(TableRegister(data[..|data| - 1]), data[|data| - 1]);
    }
  }

  /** The command-line and browser CRCs agree on every input. */
  lemma CrcAgree(data: seq<bv8>)
    ensures TableCrc(data) == BitwiseCrc(data)
  {
    RegistersAgree(data);
  }

  /** ASCII "123456789", the input the CRC catalogues give check values for. */
  const CheckInput: seq<bv8> := [0x31, 0x32, 0x33, 0x34, 0x35, 0x36, 0x37, 0x38, 0x39]

  /** The CRC-32/BZIP2 check value: ASCII "123456789" gives 0xFC891918. */
  lemma CheckValue()
    ensures BitwiseCrc(CheckInput) == 0xFC89_1918
    ensures TableCrc(CheckInput) == 0xFC89_1918
  {
    CheckPrefix9();
    assert CheckInput[..9] == CheckInput;
    CrcAgree(CheckInput);
  }

  lemma CheckPrefix3()
    ensures BitwiseRegister(CheckInput[..3]) == 0xD952_F164
  {
    var d := CheckInput;
    RegisterStep(d[..0], d[0], Init, 0x9EFB_CF93);
    assert d[..0] + [d[0]] == d[..1];
    RegisterStep(d[..1], d[1], 0x9EFB_CF93, 0x3FEC_5E6A);
    assert d[..1] + [d[1]] == d[..2];
    RegisterStep(d[..2], d[2], 0x3FEC_5E6A, 0xD952_F164);
    assert d[..2] + [d[2]] == d[..3];
  }

  lemma CheckPrefix6()
    ensures BitwiseRegister(CheckInput[..6]) == 0xD8F0_6C8F
  {
    var d := CheckInput;
    CheckPrefix3();
    RegisterStep(d[..3], d[3], 0xD952_F164, 0xA695_C4AA);
    assert d[..3] + [d[3]] == d[..4];
    RegisterStep(d[..4], d[4], 0xA695_C4AA, 0xBD9A_B747);
    assert d[..4] + [d[4]] == d[..5];
    RegisterStep(d[..5], d[5], 0xBD9A_B747, 0xD8F0_6C8F);
    assert d[..5] + [d[5]] == d[..6];
  }

  lemma CheckPrefix9()
    ensures BitwiseRegister(CheckInput[..9]) == 0x0376_E6E7
  {
    var d := CheckInput;
    CheckPrefix6();
    RegisterStep(d[..6], d[6], 0xD8F0_6C8F, 0x0D8A_14C4);
    assert d[..6] + [d[6]] == d[..7];
    RegisterStep(d[..7], d[7], 0x0D8A_14C4, 0x49E3_C2FB);
    assert d[..7] + [d[7]] == d[..8];
    RegisterStep(d[..8], d[8], 0x49E3_C2FB, 0x0376_E6E7);
    assert d[..8] + [d[8]] == d[..9];
  }

  /** One step of the bit-by-bit register, with the eight shifts written out
      so that a constant register evaluates. */
  lemma RegisterStep(data: seq<bv8>, b: bv8, before: bv32, after: bv32)
    requires BitwiseRegister(data) == before
    requires Shift(Shift(Shift(Shift(Shift(Shift(Shift(Shift(before ^ ((b as bv32) << 24))))))))) == after
    ensures BitwiseRegister(data + [b]) == after
  {
    assert (data + [b])[..|data|] == data;
    Unrolled(before ^ ((b as bv32) << 24));
  }

  /** Eight shifts written out. */
  lemma Unrolled(c: bv32)
    ensures Shifts(c, 8) == Shift(Shift(Shift(Shift(Shift(Shift(Shift(Shift(c))))))))
  {
    assert Shifts(c, 1) == Shift(c);
    assert Shifts(c, 2) == Shift(Shifts(c, 1));
    assert Shifts(c, 3) == Shift(Shifts(c, 2));
    assert Shifts(c, 4) == Shift(Shifts(c, 3));
    assert Shifts(c, 5) == Shift(Shifts(c, 4));
    assert Shifts(c, 6) == Shift(Shifts(c, 5));
    assert Shifts(c, 7) == Shift(Shifts(c, 6));
  }

  // ----- the two loops as written -----

  /** The inner `for _ in range(8)` loop both tools run. */
  method ShiftEight(c0: bv32) returns (c: bv32)
    ensures c == Shifts(c0, 8)
  {
    c := c0;
    var n := 0;
    while n < 8
      invariant 0 <= n <= 8
      invariant c == Shifts(c0, n)
    {
      c := Shift(c);
      n := n + 1;
    }
  }

  /** The table-building loop of `crc32_bzip2_be`. */
  method BuildTable() returns (table: seq<bv32>)
    ensures |table| == 256
    ensures forall i: bv32 :: i < 256 ==> table[i as int] == TableEntry(i)
  {
    table := [];
    var i: bv32 := 0;
    while i < 256
      invariant i <= 256
      invariant |table| == i as int
      invariant forall j: bv32 :: j < i ==> table[j as int] == TableEntry(j)
    {
      var c := ShiftEight(i << 24);
      AppendEntry(table, i, c);
      table := table + [c];
      i := i + 1;
    }
  }

  /** Appending entry `i` extends a table of the first `i` entries. */
  lemma AppendEntry(table: seq<bv32>, i: bv32, c: bv32)
    requires i < 256 && |table| == i as int
    requires forall j: bv32 :: j < i ==> table[j as int] == TableEntry(j)
    requires c == TableEntry(i)
    ensures (i + 1) as int == |table| + 1
    ensures forall j: bv32 :: j < i + 1 ==> (table + [c])[j as int] == TableEntry(j)
  {
    forall j: bv32 | j < i + 1
      ensures (table + [c])[j as int] == TableEntry(j)
    {
      if j < i {
        assert (table + [c])[j as int] == table[j as int];
      } else {
        assert j == i;
      }
    }
  }

  /** `crc32_bzip2_be` (cig_config.py): the table-driven CRC, packed
      big-endian; it equals the bit-by-bit reference. */
  method Crc32Bzip2Be(data: seq<bv8>) returns (r: seq<bv8>)
    ensures r == Be32(TableCrc(data))
    ensures r == Be32(BitwiseCrc(data))
  {
    var table := BuildTable();
    var crc: bv32 := Init;
    var i := 0;
    while i < |data|
      invariant 0 <= i <= |data|
      invariant crc == TableRegister(data[..i])
    {
      var idx := TableIndex(crc, data[i]);
      TableLookup(table, crc, data[i], idx);
      TableRegisterStep(data, i);
      crc := table[idx as int] ^ (crc << 8);
      i := i + 1;
    }
    assert data[..|data|] == data;
    r := Be32(crc ^ XorOut);
    CrcAgree(data);
  }

  /** `crc32_bzip2` (assets/script.py): the bit-by-bit CRC, packed
      big-endian; it equals the command-line tool's table-driven value. */
  method Crc32Bzip2(data: seq<bv8>) returns (r: seq<bv8>)
    ensures r == Be32(BitwiseCrc(data))
    ensures r == Be32(TableCrc(data))
  {
    var crc: bv32 := Init;
    var i := 0;
    while i < |data|
      invariant 0 <= i <= |data|
      invariant crc == BitwiseRegister(data[..i])
    {
      crc := crc ^ ((data[i] as bv32) << 24);
      crc := ShiftEight(crc);
      BitwiseRegisterStep(data, i);
      i := i + 1;
    }
    assert data[..|data|] == data;
    r := Be32(crc ^ XorOut);
    CrcAgree(data);
  }

  lemma TableRegisterStep(data: seq<bv8>, i: nat)
    requires i < |data|
    ensures TableRegister(data[..i + 1]) == TableUpdate(TableRegister(data[..i]), data[i])
  {
    assert data[..i + 1][..i] == data[..i];
  }

  lemma BitwiseRegisterStep(data: seq<bv8>, i: nat)
    requires i < |data|
    ensures BitwiseRegister(data[..i + 1]) == BitwiseUpdate(BitwiseRegister(data[..i]), data[i])
  {
    assert data[..i + 1][..i] == data[..i];
  }

  /** The loop body of `crc32_bzip2_be` is `TableUpdate`. */
  lemma TableLookup(table: seq<bv32>, crc: bv32, b: bv8, idx: bv32)
    requires |table| == 256
    requires forall i: bv32 :: i < 256 ==> table[i as int] == TableEntry(i)
    requires idx == TableIndex(crc, b)
    ensures table[idx as int] ^ (crc << 8) == TableUpdate(crc, b)
  {
    assert table[idx as int] == TableEntry(idx);
  }
}
