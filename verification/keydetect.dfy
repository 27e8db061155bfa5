/** Recovery of the one-byte XOR key from a payload, in the two variants of
    the repository. Both are bounded searches that end in the fixed key 0xAA
    when nothing matches. */
module KeyDetect {
  import opened Wrappers
  import opened Bytes
  import opened Cipher
  import opened Scanner
  /** ASCII "</". */
  const CloseOpen: seq<bv8> := [Lt, Slash]

  /** The index of the first element of `xs` that satisfies `p`: the
      `for k in ...: if ...: return k` loops. */
  function FirstSatisfying(xs: seq<Key>, p: Key -> bool): (r: Option<nat>)
    ensures r.Some? ==> r.value < |xs| && p(xs[r.value])
    ensures r.Some? ==> forall j :: 0 <= j < r.value ==> !p(xs[j])
    ensures r.None? <==> forall j :: 0 <= j < |xs| ==> !p(xs[j])
  {
    if |xs| == 0 then None
    else if p(xs[0]) then Some(0)
    else match FirstSatisfying(xs[1..], p)
      case None => None
      case Some(i) => Some(i + 1)
  }

  /** `range(256)`. */
  function AllKeys(): (ks: seq<Key>)
    ensures |ks| == 256
    ensures forall i :: 0 <= i < 256 ==> ks[i] == i
  {
    seq(256, i requires 0 <= i < 256 => i)
  }

  /** The search shape both variants share: the first of `cs` that passes
      `p`, else the smallest key that passes `q`, else 0xAA. */
  function SearchKey(cs: seq<Key>, p: Key -> bool, q: Key -> bool): (k: Key)
    ensures (exists i :: 0 <= i < |cs| && p(cs[i])) ==>
      exists i :: 0 <= i < |cs| && cs[i] == k && p(k) && forall j :: 0 <= j < i ==> !p(cs[j])
    ensures (forall i :: 0 <= i < |cs| ==> !p(cs[i])) && (exists c: Key :: q(c)) ==>
      q(k) && forall c: Key :: c < k ==> !q(c)
    ensures (forall i :: 0 <= i < |cs| ==> !p(cs[i])) && (forall c: Key :: !q(c)) ==>
      k == DefaultKey
  {
    match FirstSatisfying(cs, p)
    case Some(i) => cs[i]
    case None =>
      var keys := AllKeys();
      match FirstSatisfying(keys, q)
      case Some(j) =>
        assert forall c: Key :: c < keys[j] ==> !q(c) by {
          forall c: Key | c < keys[j]
            ensures !q(c)
          {
            assert keys[c] == c;
          }
        }
        keys[j]
      case None =>
        assert forall c: Key :: !q(c) by {
          forall c: Key
            ensures !q(c)
          {
            assert keys[c] == c;
          }
        }
        DefaultKey
  }

  /** A byte XORed with a constant, as the Python `int` it is. */
  function XorKey(b: bv8, c: bv8): Key {
    ByteAsInt(b ^ c);
    (b ^ c) as int
  }

  /** `b` decrypts to `c` under exactly one key, `XorKey(b, c)`. */
  lemma XorKeyUnique(b: bv8, c: bv8, k: Key)
    ensures b ^ MaskKey(k) == c <==> k == XorKey(b, c)
  {
    var m := MaskKey(k);
    XorSolve(b, c, m);
    if k == XorKey(b, c) {
      IntOfByteInjective(m, b ^ c);
    }
  }

  /** The mask of `XorKey(b, c)` is the byte `b ^ c`, which turns `b` into `c`. */
  lemma MaskOfXorKey(b: bv8, c: bv8)
    ensures MaskKey(XorKey(b, c)) == b ^ c
    ensures b ^ MaskKey(XorKey(b, c)) == c
  {
    IntOfByteInjective(MaskKey(XorKey(b, c)), b ^ c);
    XorSolve(b, c, b ^ c);
  }

  /** XOR with `b` is solved by XOR with `b`. */
  lemma XorSolve(b: bv8, c: bv8, m: bv8)
    ensures b ^ m == c <==> m == b ^ c
  {
  }

  /** Distinct bytes are distinct integers. */
  lemma IntOfByteInjective(x: bv8, y: bv8)
    requires x as int == y as int
    ensures x == y
  {
    ByteAsInt(x);
    ByteAsInt(y);
  }

  // ----- the command-line tool (cig_config.py) -----

  /** The decrypted text starts with `<?xml`, or it contains `<`, `>` and
      `</` somewhere. */
  predicate LooksLikeXml(dec: seq<bv8>) {
    StartsWith(dec, XmlDecl) || (Contains(dec, [Lt]) && Contains(dec, [Gt]) && Contains(dec, CloseOpen))
  }

  /** The command-line test of key `k`: the first 4096 bytes, decrypted, look like XML. */
  predicate CliAccepts(enc: seq<bv8>, k: Key) {
    LooksLikeXml(Bxor(Take(enc, 4096), k))
  }

  /** `CliAccepts` as the test value the search is handed. */
  function CliTest(enc: seq<bv8>): Key -> bool {
    (c: Key) => CliAccepts(enc, c)
  }

  /** Mask `m` decrypts byte `a` to `>` or CR, or byte `z` to LF. */
  predicate DecryptsTail(a: bv8, z: bv8, m: bv8) {
    a ^ m == Gt || z ^ m == 0x0A || a ^ m == 0x0D
  }

  /** Under key `k` the payload's last byte decrypts to LF, or its
      second-to-last byte to `>` or CR: the tail of a document ending in
      `>` and a line break. */
  predicate TargetsTail(enc: seq<bv8>, k: Key)
    requires |enc| >= 2
  {
    DecryptsTail(enc[|enc| - 2], enc[|enc| - 1], MaskKey(k))
  }

  /** The command-line candidates: for a payload of two or more bytes, the
      keys under which its tail decrypts as `TargetsTail` says
      (`CliCandidatesSpec`); no candidates otherwise. */
  function CliCandidates(enc: seq<bv8>): (cs: set<Key>)
    ensures |enc| < 2 ==> cs == {}
  {
    if |enc| >= 2 then
      {XorKey(enc[|enc| - 2], 0x3E), XorKey(enc[|enc| - 1], 0x0A), XorKey(enc[|enc| - 2], 0x0D)}
    else {}
  }

  /** The command-line candidates are exactly the keys of `TargetsTail`. */
  lemma CliCandidatesSpec(enc: seq<bv8>)
    requires |enc| >= 2
    ensures forall k: Key :: k in CliCandidates(enc) <==> TargetsTail(enc, k)
  {
    forall k: Key
      ensures k in CliCandidates(enc) <==> TargetsTail(enc, k)
    {
      CandidateMember(enc, k);
    }
  }

  /** One key is a command-line candidate exactly when it is a key of
      `TargetsTail`. */
  lemma CandidateMember(enc: seq<bv8>, k: Key)
    requires |enc| >= 2
    ensures k in CliCandidates(enc) <==> TargetsTail(enc, k)
  {
    var a, z := enc[|enc| - 2], enc[|enc| - 1];
    KeyOfTail(a, z, k, CliCandidates(enc));
  }

  /** `k` is one of the three keys read off bytes `a` and `z` exactly when
      its mask decrypts them as `DecryptsTail` says. */
  lemma KeyOfTail(a: bv8, z: bv8, k: Key, cs: set<Key>)
    requires cs == {XorKey(a, Gt), XorKey(z, 0x0A), XorKey(a, 0x0D)}
    ensures k in cs <==> DecryptsTail(a, z, MaskKey(k))
  {
    XorKeyUnique(a, Gt, k);
    XorKeyUnique(z, 0x0A, k);
    XorKeyUnique(a, 0x0D, k);
  }

  /** `order` is one iteration order of the set `s`: every element once. */
  ghost predicate IsSetOrder(order: seq<Key>, s: set<Key>) {
    && (forall i, j :: 0 <= i < j < |order| ==> order[i] != order[j])
    && (forall x :: x in order <==> x in s)
  }

  /** `autodetect_key` (cig_config.py): the candidates in the set's iteration
      order `order` (which Python leaves unspecified), then every key in
      increasing order; the first key whose test passes, else 0xAA. */
  function AutodetectKeyCli(enc: seq<bv8>, order: seq<Key>): (k: Key)
    requires IsSetOrder(order, CliCandidates(enc))
    ensures (exists c :: c in CliCandidates(enc) && CliTest(enc)(c)) ==>
              k in CliCandidates(enc) && CliTest(enc)(k)
    ensures (forall c :: c in CliCandidates(enc) ==> !CliTest(enc)(c)) && (exists c: Key :: CliTest(enc)(c)) ==>
              CliTest(enc)(k) && forall c: Key :: c < k ==> !CliTest(enc)(c)
    ensures (forall c: Key :: !CliTest(enc)(c)) ==> k == DefaultKey
  {
    SetOrderSearch(order, CliCandidates(enc), CliTest(enc));
    SearchKey(order, CliTest(enc), CliTest(enc))
  }

  /** A search over a set's iteration order finds a member of the set that
      passes, when there is one. */
  lemma SetOrderSearch(order: seq<Key>, s: set<Key>, p: Key -> bool)
    requires IsSetOrder(order, s)
    ensures (exists c :: c in s && p(c)) ==> SearchKey(order, p, p) in s
    ensures (forall c :: c in s ==> !p(c)) ==> forall i :: 0 <= i < |order| ==> !p(order[i])
  {
    if c :| c in s && p(c) {
      var i :| 0 <= i < |order| && order[i] == c;
      assert p(order[i]);
    }
  }

  // ----- the browser tool (assets/script.py) -----

  /** The browser candidates, in order, for a payload of two or more bytes:
      the keys under which the second-to-last byte decrypts to `>`, the last
      byte to LF, and the second-to-last byte to CR; none otherwise. */
  function BrowserCandidates(enc: seq<bv8>): (cs: seq<Key>)
    ensures |cs| == if |enc| >= 2 then 3 else 0
    ensures |enc| >= 2 ==>
      && enc[|enc| - 2] ^ MaskKey(cs[0]) == Gt
      && enc[|enc| - 1] ^ MaskKey(cs[1]) == 0x0A
      && enc[|enc| - 2] ^ MaskKey(cs[2]) == 0x0D
  {
    if |enc| >= 2 then
      MaskOfXorKey(enc[|enc| - 2], Gt);
      MaskOfXorKey(enc[|enc| - 1], 0x0A);
      MaskOfXorKey(enc[|enc| - 2], 0x0D);
      [XorKey(enc[|enc| - 2], 0x3E), XorKey(enc[|enc| - 1], 0x0A), XorKey(enc[|enc| - 2], 0x0D)]
    else []
  }

  /** The browser's candidate test: "<?xml" within the first 100 decrypted bytes. */
  predicate CandidateAccepts(enc: seq<bv8>, k: Key) {
    Contains(Take(Bxor(Take(enc, 4096), k), 100), XmlDecl)
  }

  /** `CandidateAccepts` as the test value the search is handed. */
  function CandidateTest(enc: seq<bv8>): Key -> bool {
    (c: Key) => CandidateAccepts(enc, c)
  }

  /** The browser's exhaustive test: "<?xml" within the first 50 decrypted bytes. */
  predicate SearchAccepts(enc: seq<bv8>, k: Key) {
    Contains(Take(Bxor(Take(enc, 1024), k), 50), XmlDecl)
  }

  /** `SearchAccepts` as the test value the search is handed. */
  function SearchTest(enc: seq<bv8>): Key -> bool {
    (c: Key) => SearchAccepts(enc, c)
  }

  /** `autodetect_key` (assets/script.py): the three candidates in their fixed
      order, then the smallest key passing the weaker test, else 0xAA. */
  function AutodetectKeyBrowser(enc: seq<bv8>): (k: Key)
    ensures var cs := BrowserCandidates(enc);
      (exists i :: 0 <= i < |cs| && CandidateTest(enc)(cs[i])) ==>
        exists i :: 0 <= i < |cs| && cs[i] == k && CandidateTest(enc)(k)
                    && forall j :: 0 <= j < i ==> !CandidateTest(enc)(cs[j])
    ensures var cs := BrowserCandidates(enc);
      (forall i :: 0 <= i < |cs| ==> !CandidateTest(enc)(cs[i])) && (exists c: Key :: SearchTest(enc)(c)) ==>
        SearchTest(enc)(k) && forall c: Key :: c < k ==> !SearchTest(enc)(c)
    ensures var cs := BrowserCandidates(enc);
      (forall i :: 0 <= i < |cs| ==> !CandidateTest(enc)(cs[i])) && (forall c: Key :: !SearchTest(enc)(c)) ==>
        k == DefaultKey
  {
    SearchKey(BrowserCandidates(enc), CandidateTest(enc), SearchTest(enc))
  }

  /** On an empty payload no key passes either test, so both searches end in
      0xAA. */
  lemma EmptyPayloadKey()
    ensures AutodetectKeyCli([], []) == DefaultKey
    ensures AutodetectKeyBrowser([]) == DefaultKey
  {
    forall c: Key
      ensures !CliTest([])(c) && !SearchTest([])(c)
    {
      assert Bxor(Take([], 4096), c) == [];
      assert Take(Bxor(Take([], 1024), c), 50) == [];
    }
  }
}
