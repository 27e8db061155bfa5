/** What decoding gives back for a file the encoder wrote. Neither tool
    promises an exact round trip: both cut the decrypted text at the end of
    the XML (dropping, for instance, a final newline after the last tag), the
    key is guessed rather than read, and the footer's length and CRC bytes
    may themselves spell "CIGG". The lemmas below name conditions under which
    each step comes out as intended and state the result. */
module RoundTrip {
  import opened Wrappers
  import opened Bytes
  import opened Cipher
  import opened Crc
  import opened Footer
  import opened Scanner
  import opened KeyDetect
  import opened Codec

  /** The document after the optional newline step. */
  function Plain(xml: seq<bv8>, addLf: bool): seq<bv8> {
    EnsureFinalLf(xml, addLf)
  }

  /** The length and CRC bytes of the encoded footer (bytes 6..12) do not
      spell "CIGG", so the footer's own magic is the last one in the file. */
  predicate FieldsFreeOfMagic(xml: seq<bv8>, addLf: bool) {
    var n := |Plain(xml, addLf)|;
    !Contains(Encode(xml, addLf)[n + 6..n + 12], Magic)
  }

  // ----- locating the footer -----

  /** An occurrence inside the tail of a file is an occurrence in that tail. */
  lemma OccursInTail(blob: seq<bv8>, n: nat, j: nat)
    requires n <= j && OccursAt(blob, Magic, j)
    ensures OccursAt(blob[n..], Magic, j - n)
  {
    assert blob[n..][j - n..j - n + 4] == blob[j..j + 4];
  }

  /** When the footer fields do not spell the magic, the footer's magic is
      the last one in an encoded file. */
  lemma LastMagicOfEncoded(xml: seq<bv8>, addLf: bool)
    requires FieldsFreeOfMagic(xml, addLf)
    ensures LastIndexOf(Encode(xml, addLf), Magic) == Some(|Plain(xml, addLf)|)
  {
    var blob := Encode(xml, addLf);
    var n := |Plain(xml, addLf)|;
    var crc := Be32(BitwiseCrc(blob[..n]));
    assert Contains(blob, Magic) by {
      assert OccursAt(blob, Magic, n) by {
        assert blob[n..n + 4] == blob[n..][..4];
      }
    }
    var last := LastIndexOf(blob, Magic).value;
    if last != n {
      assert n < last by {
        assert OccursAt(blob, Magic, n) by {
          assert blob[n..n + 4] == blob[n..][..4];
        }
      }
      OccursInTail(blob, n, last);
      assert blob[n + 6..n + 12] == blob[n..][6..12];
      FooterMagicOffsets(n, crc, last - n);
      assert false;
    }
  }

  /** Both decoders cut an encoded file into the ciphertext and the footer. */
  lemma FramingOfEncoded(xml: seq<bv8>, addLf: bool)
    requires FieldsFreeOfMagic(xml, addLf)
    ensures var blob := Encode(xml, addLf);
      var n := |Plain(xml, addLf)|;
      && FrameCli(blob) == Framed(Bxor(Plain(xml, addLf), DefaultKey), blob[n..])
      && FrameBrowser(blob) == Framed(Bxor(Plain(xml, addLf), DefaultKey), blob[n..])
  {
    LastMagicOfEncoded(xml, addLf);
    var blob := Encode(xml, addLf);
    var n := |Plain(xml, addLf)|;
    assert blob[n..n + FooterLen] == blob[n..];
  }

  // ----- the key -----

  /** The mask of the fixed key is the byte 0xAA. */
  lemma DefaultMask()
    ensures MaskKey(DefaultKey) == 0xAA
  {
    var k := MaskKey(DefaultKey);
    assert k as int == 170;
  }

  /** Decrypting the first `n` bytes of a ciphertext with the right key gives
      the first `n` bytes of the document. */
  lemma TakeOfPlain(x: seq<bv8>, n: nat)
    ensures Bxor(Take(Bxor(x, DefaultKey), n), DefaultKey) == Take(x, n)
  {
    BxorTake(x, DefaultKey, n);
    BxorInvolution(Take(x, n), DefaultKey);
  }

  /** The browser tries `enc[-2] ^ 0x3E` first: for a document whose
      next-to-last byte is `>` that is the fixed key, and it is taken when
      `<?xml` appears in the first 100 bytes. */
  lemma BrowserKeyOfEncoded(x: seq<bv8>)
    requires 2 <= |x| && x[|x| - 2] == Gt
    requires Contains(Take(x, 100), XmlDecl)
    ensures AutodetectKeyBrowser(Bxor(x, DefaultKey)) == DefaultKey
  {
    var p := Bxor(x, DefaultKey);
    DefaultMask();
    var cs := BrowserCandidates(p);
    assert p[|p| - 2] == x[|x| - 2] ^ 0xAA;
    var c0 := p[|p| - 2] ^ 0x3E;
    assert c0 == 0xAA;
    assert cs[0] == DefaultKey;
    TakeOfPlain(x, 4096);
    assert Take(Take(x, 4096), 100) == Take(x, 100);
    assert CandidateTest(p)(cs[0]);
  }

  /** The command-line candidates for a document ending in `>` and a newline:
      the fixed key and 0x99 (the one `enc[-2] ^ 0x0D` gives). */
  lemma CliCandidatesOfEncoded(x: seq<bv8>)
    requires 2 <= |x| && x[|x| - 2] == Gt && x[|x| - 1] == Lf
    ensures CliCandidates(Bxor(x, DefaultKey)) == {DefaultKey, 0x99}
  {
    var p := Bxor(x, DefaultKey);
    DefaultMask();
    assert p[|p| - 2] == 0x94 && p[|p| - 1] == 0xA0;
  }

  /** Decrypting with 0x99 where 0xAA was meant XORs every byte with 0x33; a
      `<` can then only come from a 0x0F byte. */
  lemma WrongCliKeyFails(x: seq<bv8>)
    requires forall i :: 0 <= i < |x| ==> x[i] != 0x0F
    ensures !CliAccepts(Bxor(x, DefaultKey), 0x99)
  {
    var d := Bxor(Take(Bxor(x, DefaultKey), 4096), 0x99);
    DefaultMask();
    assert MaskKey(0x99) == 0x99 by {
      var k := MaskKey(0x99);
      assert k as int == 0x99;
    }
    assert forall i :: 0 <= i < |d| ==> d[i] == x[i] ^ 0x33;
    NoLtNoXml(d);
  }

  /** The command-line tool finds the fixed key, whatever order the candidate
      set is visited in, for a document that ends in `>` and a newline, looks
      like XML in its first 4096 bytes and holds no 0x0F byte. */
  lemma CliKeyOfEncoded(x: seq<bv8>, order: seq<Key>)
    requires 2 <= |x| && x[|x| - 2] == Gt && x[|x| - 1] == Lf
    requires LooksLikeXml(Take(x, 4096))
    requires forall i :: 0 <= i < |x| ==> x[i] != 0x0F
    requires IsSetOrder(order, CliCandidates(Bxor(x, DefaultKey)))
    ensures AutodetectKeyCli(Bxor(x, DefaultKey), order) == DefaultKey
  {
    var p := Bxor(x, DefaultKey);
    CliCandidatesOfEncoded(x);
    TakeOfPlain(x, 4096);
    WrongCliKeyFails(x);
    assert CliTest(p)(DefaultKey) && !CliTest(p)(0x99);
    OnlyDefaultPasses(p, order);
  }

  /** With candidates {0xAA, 0x99} of which only 0xAA passes, the set order
      does not matter. */
  lemma OnlyDefaultPasses(p: seq<bv8>, order: seq<Key>)
    requires IsSetOrder(order, CliCandidates(p))
    requires CliCandidates(p) == {DefaultKey, 0x99}
    requires CliTest(p)(DefaultKey) && !CliTest(p)(0x99)
    ensures AutodetectKeyCli(p, order) == DefaultKey
  {
    var k := AutodetectKeyCli(p, order);
    assert k in CliCandidates(p) by {
      assert DefaultKey in CliCandidates(p);
    }
    assert k == DefaultKey || k == 0x99;
  }

  /** Text without a `<` does not look like XML. */
  lemma NoLtNoXml(d: seq<bv8>)
    requires forall i :: 0 <= i < |d| ==> d[i] != Lt
    ensures !LooksLikeXml(d)
  {
    forall i: nat
      ensures !OccursAt(d, [Lt], i)
    {
      if i < |d| {
        assert d[i..i + 1][0] == d[i];
      }
    }
    if 5 <= |d| {
      assert d[..5][0] == d[0];
    }
  }

  // ----- round trips -----

  /** Decoding an encoded file in the browser, when the key search lands on
      the fixed key: the document comes back cut after its last `>`. */
  lemma BrowserDecodeOfEncoded(xml: seq<bv8>, addLf: bool)
    requires FieldsFreeOfMagic(xml, addLf)
    requires AutodetectKeyBrowser(Bxor(Plain(xml, addLf), DefaultKey)) == DefaultKey
    ensures var x := Plain(xml, addLf);
      DecodeBrowser(Encode(xml, addLf)) == x[..LastGtEnd(x)]
  {
    FramingOfEncoded(xml, addLf);
    BxorInvolution(Plain(xml, addLf), DefaultKey);
  }

  /** Encoding with the newline step and decoding in the browser gives the
      document back exactly, when it ends in `>`, has `<?xml` in its first
      100 bytes and its footer fields do not spell the magic: the encoder's
      newline is the only byte after the last `>`, and the browser drops it. */
  lemma BrowserRoundTrip(xml: seq<bv8>)
    requires 0 < |xml| && xml[|xml| - 1] == Gt
    requires Contains(Take(xml, 100), XmlDecl)
    requires FieldsFreeOfMagic(xml, true)
    ensures DecodeBrowser(Encode(xml, true)) == xml
  {
    BrowserKeyAfterLf(xml);
    BrowserDecodeOfEncoded(xml, true);
    CutAfterLf(xml);
  }

  /** The browser's key search on a document ending in `>` plus the
      encoder's newline. */
  lemma BrowserKeyAfterLf(xml: seq<bv8>)
    requires 0 < |xml| && xml[|xml| - 1] == Gt
    requires Contains(Take(xml, 100), XmlDecl)
    ensures AutodetectKeyBrowser(Bxor(Plain(xml, true), DefaultKey)) == DefaultKey
  {
    var x := xml + [Lf];
    TakeOfPrefix(xml, x, 100);
    ContainsInLonger(Take(xml, 100), Take(x, 100), XmlDecl);
    BrowserKeyOfEncoded(x);
  }

  /** Cutting after the last `>` removes the newline added after a final `>`. */
  lemma CutAfterLf(xml: seq<bv8>)
    requires 0 < |xml| && xml[|xml| - 1] == Gt
    ensures var x := Plain(xml, true);
      x[..LastGtEnd(x)] == xml
  {
    var x := xml + [Lf];
    LastGtEndOfGt(x, |xml| - 1);
    assert x[..|xml|] == xml;
  }

  /** Decoding an encoded file on the command line, when the footer is found
      and the key search lands on the fixed key: the document comes back cut
      where the scanner ends it, and the footer's length (modulo 65536) and
      CRC agree with the payload. */
  lemma CliDecodeOfEncoded(xml: seq<bv8>, addLf: bool, order: seq<Key>)
    requires FieldsFreeOfMagic(xml, addLf)
    requires IsSetOrder(order, CliCandidates(Bxor(Plain(xml, addLf), DefaultKey)))
    requires AutodetectKeyCli(Bxor(Plain(xml, addLf), DefaultKey), order) == DefaultKey
    ensures FrameCli(Encode(xml, addLf)).Framed?
    ensures FrameCli(Encode(xml, addLf)).payload == Bxor(Plain(xml, addLf), DefaultKey)
    ensures var x := Plain(xml, addLf);
      var r := DecodeCli(Encode(xml, addLf), order);
      && r.xml == x[..FindXmlEndCli(x)]
      && r.report.Some?
      && r.report.value.key == DefaultKey
      && r.report.value.payloadLength == |x|
      && r.report.value.declaredLength == |x| % 65536
      && r.report.value.declaredCrc == r.report.value.computedCrc
  {
    var x := Plain(xml, addLf);
    var blob := Encode(xml, addLf);
    FramingOfEncoded(xml, addLf);
    BxorInvolution(x, DefaultKey);
    var r := DecodeCli(blob, order);
    assert r.report.value.payloadLength == |x|;
    assert blob[..|x|] == Bxor(x, DefaultKey);
  }

  /** Encoding with the newline step and decoding on the command line gives
      the document back exactly, when it ends with its root element's closing
      tag, looks like XML in its first 4096 bytes, holds no 0x0F byte, and
      its footer fields do not spell the magic. */
  lemma CliRoundTrip(xml: seq<bv8>, y: seq<bv8>, root: seq<bv8>, order: seq<Key>)
    requires xml == y + [Lt, Slash] + root + [Gt]
    requires RootOf(xml + [Lf]) == Some(root)
    requires LooksLikeXml(Take(xml, 4096))
    requires forall i :: 0 <= i < |xml| ==> xml[i] != 0x0F
    requires FieldsFreeOfMagic(xml, true)
    requires IsSetOrder(order, CliCandidates(Bxor(Plain(xml, true), DefaultKey)))
    ensures FrameCli(Encode(xml, true)).Framed?
    ensures FrameCli(Encode(xml, true)).payload == Bxor(Plain(xml, true), DefaultKey)
    ensures DecodeCli(Encode(xml, true), order).xml == xml
  {
    CliKeyAfterLf(xml, order);
    CliDecodeOfEncoded(xml, true, order);
    ClosedAfterLf(xml, y, root);
  }

  /** The command-line key search on a document ending in `>` plus the
      encoder's newline. */
  lemma CliKeyAfterLf(xml: seq<bv8>, order: seq<Key>)
    requires 0 < |xml| && xml[|xml| - 1] == Gt
    requires LooksLikeXml(Take(xml, 4096))
    requires forall i :: 0 <= i < |xml| ==> xml[i] != 0x0F
    requires IsSetOrder(order, CliCandidates(Bxor(Plain(xml, true), DefaultKey)))
    ensures AutodetectKeyCli(Bxor(Plain(xml, true), DefaultKey), order) == DefaultKey
  {
    var x := xml + [Lf];
    LooksLikeXmlInLonger(xml, x);
    assert forall i :: 0 <= i < |x| ==> x[i] != 0x0F;
    CliKeyOfEncoded(x, order);
  }

  /** The command-line scanner ends a document closed by its root element's
      tag just before the newline the encoder added. */
  lemma ClosedAfterLf(xml: seq<bv8>, y: seq<bv8>, root: seq<bv8>)
    requires xml == y + [Lt, Slash] + root + [Gt]
    requires RootOf(xml + [Lf]) == Some(root)
    ensures var x := Plain(xml, true);
      x[..FindXmlEndCli(x)] == xml
  {
    var x := xml + [Lf];
    NewlineLayout(xml, y, root, x);
    ClosedDocument(x, y, root, [Lf]);
  }

  /** Where the pieces of a closed document sit once the newline is added. */
  lemma NewlineLayout(xml: seq<bv8>, y: seq<bv8>, root: seq<bv8>, x: seq<bv8>)
    requires xml == y + [Lt, Slash] + root + [Gt]
    requires x == xml + [Lf]
    ensures Plain(xml, true) == x
    ensures x == y + [Lt, Slash] + root + [Gt] + [Lf]
    ensures NoLtFrom([Lf], 0)
    ensures x[..|xml|] == xml
  {
  }

  /** A file without any "CIGG" is decrypted whole with the fixed key by both
      tools; the two differ only in where they cut the text. */
  lemma UnframedRoundTrip(x: seq<bv8>, order: seq<Key>)
    requires !Contains(Bxor(x, DefaultKey), Magic)
    ensures DecodeCli(Bxor(x, DefaultKey), order).xml == x[..FindXmlEndCli(x)]
    ensures DecodeBrowser(Bxor(x, DefaultKey)) == x[..LastGtEnd(x)]
  {
    BxorInvolution(x, DefaultKey);
  }

  // ----- prefixes -----

  /** A pattern found in a prefix is found in the longer string. */
  lemma ContainsInLonger(a: seq<bv8>, b: seq<bv8>, pat: seq<bv8>)
    requires |a| <= |b| && a == b[..|a|]
    requires Contains(a, pat)
    ensures Contains(b, pat)
  {
    var i: nat :| i <= |a| && OccursAt(a, pat, i);
    assert b[i..i + |pat|] == a[i..i + |pat|];
    assert OccursAt(b, pat, i);
  }

  /** The first `n` bytes of a prefix are a prefix of the first `n` bytes. */
  lemma TakeOfPrefix(a: seq<bv8>, b: seq<bv8>, n: nat)
    requires |a| <= |b| && a == b[..|a|]
    ensures |Take(a, n)| <= |Take(b, n)| && Take(a, n) == Take(b, n)[..|Take(a, n)|]
  {
  }

  /** Appending a newline keeps the first 4096 bytes looking like XML. */
  lemma LooksLikeXmlInLonger(xml: seq<bv8>, x: seq<bv8>)
    requires x == xml + [Lf]
    requires LooksLikeXml(Take(xml, 4096))
    ensures LooksLikeXml(Take(x, 4096))
  {
    var a := Take(xml, 4096);
    var b := Take(x, 4096);
    TakeOfPrefix(xml, x, 4096);
    if StartsWith(a, XmlDecl) {
      assert b[..5] == a[..5];
    } else {
      ContainsInLonger(a, b, [Lt]);
      ContainsInLonger(a, b, [Gt]);
      ContainsInLonger(a, b, CloseOpen);
    }
  }
}
