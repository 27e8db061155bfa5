/** The `encrypt` and `decrypt` commands of the command-line tool
    (cig_config.py) and the encode and decode branches of the browser tool
    (assets/script.py), with file reading and writing taken away: each takes
    the bytes of the input file and yields the bytes that would be written. */
module Codec {
  import opened Wrappers
  import opened Bytes
  import opened Cipher
  import opened Crc
  import opened Footer
  import opened Scanner
  import opened KeyDetect

  const Lf: bv8 := 0x0A

  /** The data ends with a line feed. */
  predicate EndsWithLf(s: seq<bv8>) {
    |s| > 0 && s[|s| - 1] == Lf
  }

  /** The optional final-newline step of both encoders (`ensure_final_lf` on
      the command line, the `addLF` checkbox in the browser). */
  function EnsureFinalLf(xml: seq<bv8>, addLf: bool): (r: seq<bv8>)
    ensures |xml| <= |r| <= |xml| + 1
    ensures r[..|xml|] == xml
    ensures addLf ==> EndsWithLf(r)
    ensures (!addLf || EndsWithLf(xml)) <==> r == xml
  {
    if addLf && !EndsWithLf(xml) then xml + [Lf] else xml
  }

  /** Adding the newline twice is adding it once. */
  lemma EnsureFinalLfIdempotent(xml: seq<bv8>, addLf: bool)
    ensures EnsureFinalLf(EnsureFinalLf(xml, addLf), addLf) == EnsureFinalLf(xml, addLf)
  {
  }

  // ----- encoding -----

  /** The file both encoders write: the document (after the newline step)
      XORed with 0xAA, followed by the footer carrying its length and its
      CRC-32/BZIP2. */
  function Encode(xml: seq<bv8>, addLf: bool): (blob: seq<bv8>)
    ensures var x := EnsureFinalLf(xml, addLf);
      && |blob| == |x| + FooterLen
      && Bxor(blob[..|x|], DefaultKey) == x
      && blob[|x|..] == BuildFooter(|x|, Be32(BitwiseCrc(blob[..|x|])))
      && ReadFooter(blob[|x|..]) == FooterFields(|x| % 65536, Be32(BitwiseCrc(blob[..|x|])))
  {
    var x := EnsureFinalLf(xml, addLf);
    var payload := Bxor(x, DefaultKey);
    var footer := BuildFooter(|payload|, Be32(BitwiseCrc(payload)));
    var blob := payload + footer;
    assert blob[..|x|] == payload;
    assert blob[|x|..] == footer;
    BxorInvolution(x, DefaultKey);
    ReadBuildFooter(|payload|, Be32(BitwiseCrc(payload)));
    blob
  }

  /** `encrypt` (cig_config.py), with the table-driven CRC. */
  method EncodeCli(xml: seq<bv8>, ensureFinalLf: bool) returns (blob: seq<bv8>)
    ensures blob == Encode(xml, ensureFinalLf)
  {
    var x := EnsureFinalLf(xml, ensureFinalLf);
    var payload := Bxor(x, DefaultKey);
    var crc := Crc32Bzip2Be(payload);
    blob := payload + BuildFooter(|payload|, crc);
  }

  /** The encode branch of the browser tool, with the bit-by-bit CRC: it
      writes the same file as the command-line tool. */
  method EncodeBrowser(xml: seq<bv8>, addLf: bool) returns (blob: seq<bv8>)
    ensures blob == Encode(xml, addLf)
  {
    var x := EnsureFinalLf(xml, addLf);
    var payload := Bxor(x, DefaultKey);
    var crc := Crc32Bzip2(payload);
    blob := payload + BuildFooter(|payload|, crc);
  }

  // ----- locating the footer -----

  /** How a decoder cuts its input: no footer at all, or the ciphertext in
      front of the last magic and the footer bytes from it on. */
  datatype Framing = Unframed | Framed(payload: seq<bv8>, footer: seq<bv8>)

  /** The command-line decoder's cut: the last "CIGG" opens the footer only
      when at least 32 bytes start there; bytes after those 32 are ignored. */
  function FrameCli(blob: seq<bv8>): (f: Framing)
    ensures f.Unframed? <==>
      (!Contains(blob, Magic) || exists i: nat :: OccursAt(blob, Magic, i) && |blob| < i + FooterLen)
    ensures f.Framed? ==>
      && |f.footer| == FooterLen
      && |f.payload| + FooterLen <= |blob|
      && f.payload == blob[..|f.payload|]
      && f.footer == blob[|f.payload|..|f.payload| + FooterLen]
      && OccursAt(blob, Magic, |f.payload|)
      && forall j: nat :: |f.payload| < j ==> !OccursAt(blob, Magic, j)
  {
    match LastIndexOf(blob, Magic)
    case None => Unframed
    case Some(idx) =>
      if |blob| - idx < FooterLen then Unframed
      else Framed(blob[..idx], blob[idx..idx + FooterLen])
  }

  /** The browser decoder's cut: any "CIGG" opens the footer, however few
      bytes follow it. */
  function FrameBrowser(blob: seq<bv8>): (f: Framing)
    ensures f.Unframed? <==> !Contains(blob, Magic)
    ensures f.Framed? ==>
      && blob == f.payload + f.footer
      && OccursAt(blob, Magic, |f.payload|)
      && forall j: nat :: |f.payload| < j ==> !OccursAt(blob, Magic, j)
  {
    match LastIndexOf(blob, Magic)
    case None => Unframed
    case Some(idx) =>
      assert blob == blob[..idx] + blob[idx..];
      Framed(blob[..idx], blob[idx..])
  }

  // ----- decoding -----

  /** What the command-line decoder prints about a footer it found. */
  datatype FooterReport = FooterReport(
    key: Key,
    payloadLength: nat,
    declaredLength: nat,
    declaredCrc: seq<bv8>,
    computedCrc: seq<bv8>)

  /** The command-line decoder's result: the XML written out, and the footer
      diagnostics when a footer was found. */
  datatype Decoded = Decoded(xml: seq<bv8>, report: Option<FooterReport>)

  /** `decrypt` (cig_config.py). `order` is the iteration order of the key
      candidate set, which Python leaves unspecified. */
  function DecodeCli(blob: seq<bv8>, order: seq<Key>): (r: Decoded)
    requires FrameCli(blob).Framed? ==> IsSetOrder(order, CliCandidates(FrameCli(blob).payload))
    ensures r.report.None? <==> FrameCli(blob).Unframed?
    ensures r.report.None? ==>
      var dec := Bxor(blob, DefaultKey);
      |r.xml| == FindXmlEndCli(dec) && r.xml == dec[..|r.xml|]
    ensures r.report.Some? ==>
      var rep := r.report.value;
      var n := rep.payloadLength;
      && n + FooterLen <= |blob|
      && OccursAt(blob, Magic, n)
      && FrameCli(blob).Framed? && n == |FrameCli(blob).payload|
      && rep.key == AutodetectKeyCli(FrameCli(blob).payload, order)
      && |r.xml| == FindXmlEndCli(Bxor(blob[..n], rep.key))
      && r.xml == Bxor(blob[..n], rep.key)[..|r.xml|]
      && ReadFooter(blob[n..n + FooterLen]) == FooterFields(rep.declaredLength, rep.declaredCrc)
      && rep.computedCrc == Be32(BitwiseCrc(blob[..n]))
  {
    match FrameCli(blob)
    case Unframed =>
      var dec := Bxor(blob, DefaultKey);
      Decoded(dec[..FindXmlEndCli(dec)], None)
    case Framed(payload, footer) =>
      var r := DecodeFramed(payload, footer, order);
      var n := |payload|;
      assert footer == blob[n..n + FooterLen];
      var rep := r.report.value;
      assert rep.payloadLength == n;
      assert ReadFooter(blob[rep.payloadLength..rep.payloadLength + FooterLen]) == FooterFields(rep.declaredLength, rep.declaredCrc);
      r
  }

  /** The part of `decrypt` after a footer was found: the key search, the
      decryption, the cut and the diagnostics. */
  function DecodeFramed(payload: seq<bv8>, footer: seq<bv8>, order: seq<Key>): (r: Decoded)
    requires |footer| == FooterLen
    requires IsSetOrder(order, CliCandidates(payload))
    ensures r.report.Some?
    ensures r.report.value.key == AutodetectKeyCli(payload, order)
    ensures r.report.value.payloadLength == |payload|
    ensures var dec := Bxor(payload, r.report.value.key);
      |r.xml| == FindXmlEndCli(dec) && r.xml == dec[..|r.xml|]
    ensures ReadFooter(footer) == FooterFields(r.report.value.declaredLength, r.report.value.declaredCrc)
    ensures r.report.value.computedCrc == Be32(BitwiseCrc(payload))
  {
    var key := AutodetectKeyCli(payload, order);
    var dec := Bxor(payload, key);
    var fields := ReadFooter(footer);
    CrcAgree(payload);
    Decoded(dec[..FindXmlEndCli(dec)],
            Some(FooterReport(key, |payload|, fields.declaredLength, fields.declaredCrc, Be32(TableCrc(payload)))))
  }

  /** `xml` is `dec` cut right after its last `>`, or all of `dec` when it
      has none. */
  predicate CutAfterLastGt(dec: seq<bv8>, xml: seq<bv8>) {
    && |xml| <= |dec|
    && xml == dec[..|xml|]
    && (forall k :: |xml| <= k < |dec| ==> dec[k] != Gt)
    && ((|xml| == |dec| && !Contains(dec, [Gt])) || (0 < |xml| && xml[|xml| - 1] == Gt))
  }

  /** The cut is determined: only the prefix ending at the last `>` (or the
      whole text, when it has no `>`) is `CutAfterLastGt`. */
  lemma CutAfterLastGtUnique(dec: seq<bv8>, xml: seq<bv8>)
    requires CutAfterLastGt(dec, xml)
    ensures xml == dec[..LastGtEnd(dec)]
  {
    if 0 < |xml| && xml[|xml| - 1] == Gt {
      assert dec[|xml| - 1] == Gt;
      LastGtEndOfGt(dec, |xml| - 1);
    }
  }

  /** The decode branch of the browser tool: the XML it offers for download. */
  function DecodeBrowser(blob: seq<bv8>): (xml: seq<bv8>)
    ensures !Contains(blob, Magic) ==> CutAfterLastGt(Bxor(blob, DefaultKey), xml)
    ensures Contains(blob, Magic) ==>
      var p := FrameBrowser(blob).payload;
      CutAfterLastGt(Bxor(p, AutodetectKeyBrowser(p)), xml)
  {
    var dec := match FrameBrowser(blob)
      case Unframed => Bxor(blob, DefaultKey)
      case Framed(payload, _) => Bxor(payload, AutodetectKeyBrowser(payload));
    dec[..FindXmlEndBrowser(dec)]
  }
}
