/** The 32-byte CIGG footer both front ends append to the ciphertext:
    magic, two zero bytes, the 16-bit big-endian payload length, the
    big-endian CRC, four 0x11 bytes and sixteen zero bytes. */
module Footer {
  import opened Bytes

  /** ASCII "CIGG". */
  const Magic: seq<bv8> := [0x43, 0x49, 0x47, 0x47]
  const FooterLen: nat := 32

  /** Two bytes read as a big-endian unsigned 16-bit number. */
  function FromBe16(s: seq<bv8>): nat
    requires |s| == 2
  {
    s[0] as int * 256 + s[1] as int
  }

  /** The length truncated to 16 bits, written as two big-endian bytes. */
  function Be16(n: nat): (r: seq<bv8>)
    ensures |r| == 2
    ensures FromBe16(r) == n % 65536
  {
    var m := n % 65536;
    [ByteOf(m / 256), ByteOf(m % 256)]
  }

  /** The 32-byte footer: the magic, two zero bytes, the big-endian 16-bit
      payload length, the four CRC bytes, four `0x11` bytes and sixteen zero
      bytes. */
  function BuildFooter(payloadLen: nat, crc: seq<bv8>): (f: seq<bv8>)
    requires |crc| == 4
    ensures |f| == FooterLen
    ensures f[..4] == Magic
    ensures f[4] == 0 && f[5] == 0
    ensures FromBe16(f[6..8]) == payloadLen % 65536
    ensures f[8..12] == crc
    ensures forall i :: 12 <= i < 16 ==> f[i] == 0x11
    ensures forall i :: 16 <= i < 32 ==> f[i] == 0
  {
    Magic + [0, 0] + Be16(payloadLen) + crc + [0x11, 0x11, 0x11, 0x11] + seq(16, _ => 0)
  }

  /** The two fields the command-line decoder reads back for its diagnostics. */
  datatype FooterFields = FooterFields(declaredLength: nat, declaredCrc: seq<bv8>)

  /** The declared length (bytes 6 and 7, big-endian) and the declared CRC
      (bytes 8 to 11) of a footer. */
  function ReadFooter(f: seq<bv8>): FooterFields
    requires |f| == FooterLen
  {
    FooterFields(FromBe16(f[6..8]), f[8..12])
  }

  /** Reading a built footer recovers the length modulo 65536 and the CRC. */
  lemma ReadBuildFooter(payloadLen: nat, crc: seq<bv8>)
    requires |crc| == 4
    ensures ReadFooter(BuildFooter(payloadLen, crc)) == FooterFields(payloadLen % 65536, crc)
  {
  }

  /** The length field disagrees with the true length exactly when the
      payload is 65536 bytes or longer. */
  lemma LengthFieldTruncates(payloadLen: nat, crc: seq<bv8>)
    requires |crc| == 4
    ensures ReadFooter(BuildFooter(payloadLen, crc)).declaredLength == payloadLen
            <==> payloadLen < 65536
  {
    ReadBuildFooter(payloadLen, crc);
    ModIdentity(payloadLen);
  }

  /** Reduction modulo 65536 leaves exactly the numbers below 65536 alone. */
  lemma ModIdentity(n: nat)
    ensures n % 65536 == n <==> n < 65536
  {
    if n >= 65536 {
      assert n % 65536 < 65536;
    }
  }

  /** Inside a built footer the magic can reappear only at offsets 6, 7 or 8,
      spelled by the length and CRC bytes: the zero and 0x11 fillers never
      contain a 'C', 'I' or 'G'. */
  lemma FooterMagicOffsets(payloadLen: nat, crc: seq<bv8>, k: nat)
    requires |crc| == 4
    requires 0 < k && OccursAt(BuildFooter(payloadLen, crc), Magic, k)
    ensures 6 <= k <= 8
    ensures OccursAt(BuildFooter(payloadLen, crc)[6..12], Magic, k - 6)
  {
    var f := BuildFooter(payloadLen, crc);
    MagicLetters(f, k);
    FillerBytes(f);
    SliceOccurs(f, k);
  }

  /** The first and last letters of an occurrence of the magic. */
  lemma MagicLetters(f: seq<bv8>, k: nat)
    requires OccursAt(f, Magic, k)
    ensures f[k] == 0x43 && f[k + 3] == 0x47
  {
    assert f[k..k + 4][0] == f[k];
    assert f[k..k + 4][3] == f[k + 3];
  }

  /** Where a 'C' or a 'G' cannot sit in a built footer. */
  lemma FillerBytes(f: seq<bv8>)
    requires |f| == FooterLen && f[..4] == Magic && f[4] == 0 && f[5] == 0
    requires forall i :: 12 <= i < 16 ==> f[i] == 0x11
    requires forall i :: 16 <= i < 32 ==> f[i] == 0
    ensures forall i :: 1 <= i < 6 ==> f[i] != 0x43
    ensures forall i :: 12 <= i < 32 ==> f[i] != 0x47
  {
    assert f[1] == f[..4][1] && f[2] == f[..4][2] && f[3] == f[..4][3];
  }

  /** An occurrence at offset 6..8 of the footer lies in its bytes 6..12. */
  lemma SliceOccurs(f: seq<bv8>, k: nat)
    requires 6 <= k <= 8 && 12 <= |f| && OccursAt(f, Magic, k)
    ensures OccursAt(f[6..12], Magic, k - 6)
  {
    SliceOfSlice(f, 6, 12, k - 6, k - 2);
  }
}
