/** Where the XML document ends inside a decrypted payload.

    The command-line tool skips leading whitespace and a byte-order mark,
    steps over an `<?xml ... ?>` declaration, reads the root element's name
    with the expression `<\s*([A-Za-z_][\w\-\.:]*)\b` and returns the end of
    the last match of `</\s*ROOT\s*>`; whenever one of those steps fails it
    falls back to the position after the last `>`. The browser tool only has
    the fallback. Both regular expressions are written out as the matchers
    Python's engine runs for them on byte strings. */
module Scanner {
  import opened Wrappers
  import opened Bytes

  /** ASCII "<?xml". */
  const XmlDecl: seq<bv8> := [0x3C, 0x3F, 0x78, 0x6D, 0x6C]
  /** ASCII "?>". */
  const DeclClose: seq<bv8> := [0x3F, 0x3E]
  const Lt: bv8 := 0x3C
  const Gt: bv8 := 0x3E
  const Slash: bv8 := 0x2F

  // ----- byte classes -----

  /** The bytes skipped before the document: space, tab, CR, LF and the
      three bytes of a UTF-8 byte-order mark. */
  predicate IsLeadingSkip(c: bv8) {
    c == 0x20 || c == 0x09 || c == 0x0D || c == 0x0A || c == 0xEF || c == 0xBB || c == 0xBF
  }

  /** The bytes skipped after the declaration: space, tab, CR and LF. */
  predicate IsDeclSpace(c: bv8) {
    c == 0x20 || c == 0x09 || c == 0x0D || c == 0x0A
  }

  /** `\s` of a bytes pattern: space and 0x09..0x0D. */
  predicate IsRegexSpace(c: bv8) {
    c == 0x20 || (0x09 <= c <= 0x0D)
  }

  /** `\w` of a bytes pattern: ASCII letters, digits and `_`. */
  predicate IsWordByte(c: bv8) {
    (0x41 <= c <= 0x5A) || (0x61 <= c <= 0x7A) || (0x30 <= c <= 0x39) || c == 0x5F
  }

  /** `[A-Za-z_]`. */
  predicate IsNameStart(c: bv8) {
    (0x41 <= c <= 0x5A) || (0x61 <= c <= 0x7A) || c == 0x5F
  }

  /** `[\w\-\.:]`. */
  predicate IsNameByte(c: bv8) {
    IsWordByte(c) || c == 0x2D || c == 0x2E || c == 0x3A
  }

  /** `\b` at position `q` of `s`: exactly one of the bytes on either side is
      a word byte, the ends of the string counting as non-word. */
  predicate WordBoundary(s: seq<bv8>, q: nat)
    requires q <= |s|
  {
    (q > 0 && IsWordByte(s[q - 1])) != (q < |s| && IsWordByte(s[q]))
  }

  // ----- the fallback -----

  /** The position just past the last `>` of `b`, or the whole length when
      `b` has no `>`. */
  function LastGtEnd(b: seq<bv8>): (r: nat)
    ensures r <= |b|
    ensures forall k :: r <= k < |b| ==> b[k] != Gt
    ensures r < |b| ==> r > 0
    ensures r > 0 && Contains(b, [Gt]) ==> b[r - 1] == Gt
    ensures !Contains(b, [Gt]) ==> r == |b|
  {
    match LastIndexOf(b, [Gt])
    case None => |b|
    case Some(i) =>
      assert forall k :: i + 1 <= k < |b| ==> b[k] != Gt by {
        forall k | i + 1 <= k < |b|
          ensures b[k] != Gt
        {
          assert !OccursAt(b, [Gt], k);
          assert b[k..k + 1] == [b[k]];
        }
      }
      assert b[i..i + 1] == [Gt];
      i + 1
  }

  /** `LastGtEnd` is the position after the last `>` when there is one. */
  lemma LastGtEndOfGt(b: seq<bv8>, i: nat)
    requires i < |b| && b[i] == Gt
    requires forall k :: i < k < |b| ==> b[k] != Gt
    ensures LastGtEnd(b) == i + 1
  {
    assert OccursAt(b, [Gt], i) by {
      assert b[i..i + 1] == [Gt];
    }
  }

  // ----- the declaration and the root element -----

  /** `<?xml`, in any letter case, starts at position `i0`. */
  predicate DeclOpensAt(b: seq<bv8>, i0: nat) {
    i0 < |b| && Lower(Take(b[i0..], 5)) == XmlDecl
  }

  /** `j` is the first `?>` at or after `i0`. */
  predicate IsFirstDeclClose(b: seq<bv8>, i0: nat, j: nat) {
    && i0 <= j
    && OccursAt(b, DeclClose, j)
    && forall j': nat :: i0 <= j' < j ==> !OccursAt(b, DeclClose, j')
  }

  /** `i` ends the run of declaration whitespace that starts at `a`. */
  predicate EndsSpaceRun(b: seq<bv8>, a: nat, i: nat) {
    && a <= i <= |b|
    && (forall k :: a <= k < i ==> IsDeclSpace(b[k]))
    && (i < |b| ==> !IsDeclSpace(b[i]))
  }

  /** The position the root element is read from. Let `i0` be the first
      byte that is not leading whitespace or a byte-order-mark byte. When
      `<?xml` (in any letter case) starts there and a `?>` follows, reading
      starts after the first such `?>` and the whitespace behind it;
      otherwise it starts at `i0`. */
  function ContentStart(b: seq<bv8>): (i: nat)
    ensures i <= |b|
    ensures i < |b| ==> !IsDeclSpace(b[i])
    ensures var i0 := SkipWhile(b, 0, IsLeadingSkip);
      !DeclOpensAt(b, i0) ==> i == i0
    ensures var i0 := SkipWhile(b, 0, IsLeadingSkip);
      (forall j: nat :: i0 <= j ==> !OccursAt(b, DeclClose, j)) ==> i == i0
    ensures var i0 := SkipWhile(b, 0, IsLeadingSkip);
      DeclOpensAt(b, i0) ==> forall j: nat :: IsFirstDeclClose(b, i0, j) ==> EndsSpaceRun(b, j + 2, i)
  {
    var i0 := SkipWhile(b, 0, IsLeadingSkip);
    if DeclOpensAt(b, i0) then
      match IndexFrom(b, DeclClose, i0)
      case None => i0
      case Some(j) => SkipWhile(b, j + 2, IsDeclSpace)
    else i0
  }

  /** A document that starts with an element tag, not a declaration, is read
      from position 0. */
  lemma ContentStartOfElement(b: seq<bv8>)
    requires 2 <= |b| && b[0] == Lt && b[1] != 0x3F
    ensures ContentStart(b) == 0
  {
    assert SkipWhile(b, 0, IsLeadingSkip) == 0;
    assert Lower(Take(b, 5))[1] == LowerByte(b[1]) != XmlDecl[1];
  }

  /** The backtracking of `[\w\-\.:]*\b`: from the end `q` of the greedy run
      back towards `lo`, the first position where `\b` holds. */
  function BacktrackToBoundary(s: seq<bv8>, q: nat, lo: nat): (r: Option<nat>)
    requires lo <= q <= |s|
    ensures r.Some? ==> lo <= r.value <= q && WordBoundary(s, r.value)
    ensures r.Some? ==> forall m :: r.value < m <= q ==> !WordBoundary(s, m)
    ensures r.None? <==> forall m :: lo <= m <= q ==> !WordBoundary(s, m)
    decreases q
  {
    if WordBoundary(s, q) then Some(q)
    else if q == lo then None
    else BacktrackToBoundary(s, q - 1, lo)
  }

  /** Where the name starts in `<\s*NAME`: after the `<` and the spaces. */
  function NameStart(s: seq<bv8>): (a: nat)
    requires 0 < |s|
    ensures 1 <= a <= |s|
  {
    SkipWhile(s, 1, IsRegexSpace)
  }

  /** The group `[A-Za-z_][\w\-\.:]*` followed by `\b`, read from position
      `a`: the greedy run of name bytes, given back until `\b` holds. */
  function NameAt(s: seq<bv8>, a: nat): (name: seq<bv8>)
    requires a < |s| && IsNameStart(s[a])
    ensures 0 < |name| && a + |name| <= |s| && s[a..a + |name|] == name
    ensures forall k :: 0 <= k < |name| ==> IsNameByte(name[k])
    ensures IsWordByte(name[|name| - 1])
    ensures a + |name| < |s| ==> !IsWordByte(s[a + |name|])
  {
    var p := SkipWhile(s, a + 1, IsNameByte);
    BacktrackLands(s, a, p, p);
    var e := BacktrackToBoundary(s, p, a + 1).value;
    s[a..e]
  }

  /** The root-name pattern anchored at the start of `s`: a `<`, optional
      regex white space, then a name that starts with a letter or `_`, goes on
      with word bytes, `-`, `.` or `:`, and ends at a word boundary. The
      result is the name. */
  function MatchRoot(s: seq<bv8>): (r: Option<seq<bv8>>)
    ensures r.Some? <==> 0 < |s| && s[0] == Lt && NameStart(s) < |s| && IsNameStart(s[NameStart(s)])
    ensures r.Some? ==> r.value == NameAt(s, NameStart(s)) && IsNameStart(r.value[0])
  {
    if |s| == 0 || s[0] != Lt then None
    else
      var a := NameStart(s);
      if a == |s| || !IsNameStart(s[a]) then None
      else Some(NameAt(s, a))
  }

  /** The name `NameAt` reads is the longest one the expression allows:
      every longer run of name bytes ends in a byte that is not a word
      byte, so `\b` could not hold at its end. */
  lemma NameAtIsLongest(s: seq<bv8>, a: nat)
    requires a < |s| && IsNameStart(s[a])
    ensures var e := a + |NameAt(s, a)|;
      forall k :: e <= k < |s| && (forall m :: a <= m <= k ==> IsNameByte(s[m])) ==> !IsWordByte(s[k])
  {
    var p := SkipWhile(s, a + 1, IsNameByte);
    BacktrackLands(s, a, p, p);
    var e := BacktrackToBoundary(s, p, a + 1).value;
    forall k | e <= k < |s| && (forall m :: a <= m <= k ==> IsNameByte(s[m]))
      ensures !IsWordByte(s[k])
    {
      assert IsNameByte(s[k]);
    }
  }

  /** On a run of name bytes `s[a..p]` that starts with a word byte, the
      backtracking from `q` stops right after the last word byte before `q`. */
  lemma {:induction false} BacktrackLands(s: seq<bv8>, a: nat, p: nat, q: nat)
    requires a < q <= p <= |s|
    requires IsWordByte(s[a])
    requires forall k :: a < k < p ==> IsNameByte(s[k])
    requires p < |s| ==> !IsNameByte(s[p])
    requires forall k :: q <= k < p ==> !IsWordByte(s[k])
    ensures var r := BacktrackToBoundary(s, q, a + 1);
      r.Some? && IsWordByte(s[r.value - 1]) && forall k :: r.value <= k < p ==> !IsWordByte(s[k])
    decreases q
  {
    if IsWordByte(s[q - 1]) {
      assert WordBoundary(s, q);
    } else {
      assert q - 1 != a;
      assert !WordBoundary(s, q);
      BacktrackLands(s, a, p, q - 1);
    }
  }

  /** The name `re.match` reads at `b[i:]` when the byte there is `<`. */
  function RootOf(b: seq<bv8>): (r: Option<seq<bv8>>)
    ensures r.Some? ==> 0 < |r.value| && forall k :: 0 <= k < |r.value| ==> r.value[k] != Lt
    ensures r == if ContentStart(b) < |b| then MatchRoot(b[ContentStart(b)..]) else None
  {
    var i := ContentStart(b);
    if i >= |b| || b[i] != Lt then None
    else
      var r := MatchRoot(b[i..]);
      assert r.Some? ==> forall k :: 0 <= k < |r.value| ==> r.value[k] != Lt by {
        if r.Some? {
          var name := NameAt(b[i..], NameStart(b[i..]));
          forall k | 0 <= k < |name|
            ensures name[k] != Lt
          {
            assert IsNameByte(name[k]);
          }
        }
      }
      r
  }

  // ----- the closing tag -----

  /** The bytes `b[p..e]` read as `</`, whitespace, `root` at `q`,
      whitespace and `>`: one way the pattern `</\s*ROOT\s*>` can match. */
  predicate SpacedCloseTag(b: seq<bv8>, root: seq<bv8>, p: nat, q: nat, e: nat) {
    && p + 2 <= q && q + |root| < e <= |b|
    && b[p] == Lt && b[p + 1] == Slash
    && (forall k :: p + 2 <= k < q ==> IsRegexSpace(b[k]))
    && OccursAt(b, root, q)
    && (forall k :: q + |root| <= k < e - 1 ==> IsRegexSpace(b[k]))
    && b[e - 1] == Gt
  }

  /** The closing-tag pattern (ROOT escaped, so literal) matched at position
      `p` of `b`, giving the end of the match. Each `\s*` is greedy, and
      giving spaces back cannot help, since neither the root's first byte nor
      `>` is a space (`MatchCloseAtComplete`). */
  function MatchCloseAt(b: seq<bv8>, root: seq<bv8>, p: nat): (r: Option<nat>)
    ensures r.Some? ==> p + |root| + 3 <= r.value <= |b| && b[r.value - 1] == Gt
    ensures r.Some? ==> b[p] == Lt && b[p + 1] == Slash
    ensures r.Some? ==> exists q :: SpacedCloseTag(b, root, p, q, r.value)
  {
    if p + 2 <= |b| && b[p] == Lt && b[p + 1] == Slash then
      var q := SkipWhile(b, p + 2, IsRegexSpace);
      if OccursAt(b, root, q) then
        var t := SkipWhile(b, q + |root|, IsRegexSpace);
        if t < |b| && b[t] == Gt then
          assert SpacedCloseTag(b, root, p, q, t + 1);
          Some(t + 1)
        else None
      else None
    else None
  }

  /** Every way the pattern can match at `p` is found: when the root does
      not start with a space, the greedy reading ends where the match ends. */
  lemma MatchCloseAtComplete(b: seq<bv8>, root: seq<bv8>, p: nat, q: nat, e: nat)
    requires |root| == 0 || !IsRegexSpace(root[0])
    requires SpacedCloseTag(b, root, p, q, e)
    ensures MatchCloseAt(b, root, p) == Some(e)
  {
    var g := e - 1;
    assert !IsRegexSpace(b[g]);
    if |root| == 0 {
      SpacesEndAt(b, p + 2, g);
    } else {
      assert b[q] == b[q..q + |root|][0] == root[0];
      SpacesEndAt(b, p + 2, q);
      SpacesEndAt(b, q + |root|, g);
    }
  }

  /** Skipping spaces from `a` stops at the first byte that is not one. */
  lemma SpacesEndAt(b: seq<bv8>, a: nat, g: nat)
    requires a <= g < |b| && !IsRegexSpace(b[g])
    requires forall k :: a <= k < g ==> IsRegexSpace(b[k])
    ensures SkipWhile(b, a, IsRegexSpace) == g
  {
  }

  /** Inside a match of the closing tag only its first byte is `<`, so two
      matches never overlap. */
  lemma CloseMatchesDisjoint(b: seq<bv8>, root: seq<bv8>, p: nat, p': nat)
    requires forall k :: 0 <= k < |root| ==> root[k] != Lt
    requires MatchCloseAt(b, root, p).Some?
    requires p < p' < MatchCloseAt(b, root, p).value
    ensures b[p'] != Lt
    ensures MatchCloseAt(b, root, p').None?
  {
    var q := SkipWhile(b, p + 2, IsRegexSpace);
    var t := SkipWhile(b, q + |root|, IsRegexSpace);
    if q <= p' < q + |root| {
      assert b[p'] == b[q..q + |root|][p' - q] == root[p' - q];
    }
  }

  /** The match at `p` is the last one in `b`. */
  predicate IsRightmostClose(b: seq<bv8>, root: seq<bv8>, p: nat) {
    && p <= |b|
    && MatchCloseAt(b, root, p).Some?
    && forall p' :: p < p' <= |b| ==> MatchCloseAt(b, root, p').None?
  }

  /** `for endm in pat.finditer(b): pass`, from position `pos` with the last
      match so far ending at `last`: a match resumes the scan at its end,
      a failure at the next position. */
  function FindIterLast(b: seq<bv8>, root: seq<bv8>, pos: nat, last: Option<nat>): (r: Option<nat>)
    requires pos <= |b|
    ensures r == last || (r.Some? && r.value <= |b|)
    decreases |b| - pos
  {
    if pos == |b| then last
    else match MatchCloseAt(b, root, pos)
      case Some(e) => FindIterLast(b, root, e, Some(e))
      case None => FindIterLast(b, root, pos + 1, last)
  }

  /** No match of the closing tag starts at or after `pos`. */
  predicate NoCloseFrom(b: seq<bv8>, root: seq<bv8>, pos: nat) {
    forall p :: pos <= p <= |b| ==> MatchCloseAt(b, root, p).None?
  }

  /** With no match from `pos` on, `finditer` yields nothing more and
      `last` stands. */
  lemma {:induction false} FindIterLastNoMatch(b: seq<bv8>, root: seq<bv8>, pos: nat, last: Option<nat>)
    requires pos <= |b|
    requires NoCloseFrom(b, root, pos)
    ensures FindIterLast(b, root, pos, last) == last
    decreases |b| - pos
  {
    if pos < |b| {
      FindIterLastNoMatch(b, root, pos + 1, last);
    }
  }

  /** `finditer` finds every match, so the last one it yields is the
      rightmost match in `b`. */
  lemma {:induction false} FindIterLastIsRightmost(b: seq<bv8>, root: seq<bv8>, pos: nat, last: Option<nat>, p: nat)
    requires forall k :: 0 <= k < |root| ==> root[k] != Lt
    requires pos <= p && IsRightmostClose(b, root, p)
    ensures FindIterLast(b, root, pos, last) == MatchCloseAt(b, root, p)
    decreases |b| - pos
  {
    match MatchCloseAt(b, root, pos)
    case Some(e) =>
      if p == pos {
        assert NoCloseFrom(b, root, e);
        FindIterLastNoMatch(b, root, e, Some(e));
      } else if p < e {
        CloseMatchesDisjoint(b, root, pos, p);
        assert false;
      } else {
        FindIterLastIsRightmost(b, root, e, Some(e), p);
      }
    case None =>
      if p == pos {
        assert false;
      } else {
        FindIterLastIsRightmost(b, root, pos + 1, last, p);
      }
  }

  // ----- the two scanners -----

  /** `find_xml_end` (cig_config.py): the end of the last closing tag of the
      root element, or the position after the last `>` when the root or its
      closing tag cannot be found. */
  function FindXmlEndCli(b: seq<bv8>): (r: nat)
    ensures r <= |b|
    ensures RootOf(b).None? ==> r == LastGtEnd(b)
  {
    match RootOf(b)
    case None => LastGtEnd(b)
    case Some(root) =>
      match FindIterLast(b, root, 0, None)
      case None => LastGtEnd(b)
      case Some(e) => e
  }

  /** What `FindXmlEndCli` returns: the fallback without a root name or
      without a closing tag for it, otherwise the end of the rightmost
      closing tag. */
  lemma FindXmlEndCliSpec(b: seq<bv8>, root: seq<bv8>)
    requires RootOf(b) == Some(root)
    ensures NoCloseFrom(b, root, 0) ==> FindXmlEndCli(b) == LastGtEnd(b)
    ensures forall p :: IsRightmostClose(b, root, p) ==> Some(FindXmlEndCli(b)) == MatchCloseAt(b, root, p)
  {
    if NoCloseFrom(b, root, 0) {
      FindIterLastNoMatch(b, root, 0, None);
    }
    forall p | IsRightmostClose(b, root, p)
      ensures Some(FindXmlEndCli(b)) == MatchCloseAt(b, root, p)
    {
      FindIterLastIsRightmost(b, root, 0, None, p);
    }
  }

  /** `find_xml_end` (assets/script.py): `0` for empty data, otherwise the
      position after the last `>`, or the whole length without one. */
  function FindXmlEndBrowser(b: seq<bv8>): (r: nat)
    ensures r <= |b|
    ensures r == LastGtEnd(b)
  {
    if |b| == 0 then 0 else LastGtEnd(b)
  }

  // ----- documents with a closing tag -----

  /** No `<` in `b` from position `i` on. */
  predicate NoLtFrom(b: seq<bv8>, i: nat) {
    forall k :: i <= k < |b| ==> b[k] != Lt
  }

  /** The bytes `</root>` sit at position `p` of `b`. */
  predicate IsCloseTag(b: seq<bv8>, root: seq<bv8>, p: nat) {
    && p + |root| + 3 <= |b|
    && b[p] == Lt && b[p + 1] == Slash && b[p + 2 + |root|] == Gt
    && b[p + 2..p + 2 + |root|] == root
  }

  /** A closing tag `</root>` at `p` with no `<` after it is the rightmost
      match. */
  lemma ClosingTagAt(b: seq<bv8>, root: seq<bv8>, p: nat)
    requires 0 < |root| && IsNameStart(root[0])
    requires forall k :: 0 <= k < |root| ==> root[k] != Lt
    requires IsCloseTag(b, root, p) && NoLtFrom(b, p + |root| + 3)
    ensures MatchCloseAt(b, root, p) == Some(p + |root| + 3)
    ensures IsRightmostClose(b, root, p)
  {
    assert b[p + 2] == root[0];
    assert SkipWhile(b, p + 2, IsRegexSpace) == p + 2;
    assert OccursAt(b, root, p + 2);
    assert SkipWhile(b, p + 2 + |root|, IsRegexSpace) == p + 2 + |root|;
    forall p' | p < p' <= |b|
      ensures MatchCloseAt(b, root, p').None?
    {
      if p' < p + |root| + 3 {
        CloseMatchesDisjoint(b, root, p, p');
      }
    }
  }

  /** A document `y + "</" + root + ">" + t` whose root element is `root` and
      whose tail `t` holds no `<` ends right after that closing tag: the
      command-line scanner drops the tail, trailing LF included. */
  lemma ClosedDocument(b: seq<bv8>, y: seq<bv8>, root: seq<bv8>, t: seq<bv8>)
    requires b == y + [Lt, Slash] + root + [Gt] + t
    requires RootOf(b) == Some(root)
    requires NoLtFrom(t, 0)
    ensures FindXmlEndCli(b) == |y| + |root| + 3
  {
    TagLayout(y, root, t, b);
    ClosedAt(b, root, |y|);
  }

  /** Where the pieces of `y + "</" + root + ">" + t` sit. */
  lemma TagLayout(y: seq<bv8>, root: seq<bv8>, t: seq<bv8>, b: seq<bv8>)
    requires b == y + [Lt, Slash] + root + [Gt] + t
    requires NoLtFrom(t, 0)
    ensures IsCloseTag(b, root, |y|) && NoLtFrom(b, |y| + |root| + 3)
  {
    var p := |y|;
    assert b[p + 2..p + 2 + |root|] == root;
    forall k | p + |root| + 3 <= k < |b|
      ensures b[k] != Lt
    {
      assert b[k] == t[k - (p + |root| + 3)];
    }
  }

  /** `ClosedDocument` with the document given by its layout. */
  lemma ClosedAt(b: seq<bv8>, root: seq<bv8>, p: nat)
    requires RootOf(b) == Some(root)
    requires IsCloseTag(b, root, p) && NoLtFrom(b, p + |root| + 3)
    ensures FindXmlEndCli(b) == p + |root| + 3
  {
    RootNameStart(b, root);
    ClosingTagAt(b, root, p);
    FindXmlEndCliSpec(b, root);
  }

  /** A root name starts with a letter or `_`. */
  lemma RootNameStart(b: seq<bv8>, root: seq<bv8>)
    requires RootOf(b) == Some(root)
    ensures IsNameStart(root[0])
  {
    var i := ContentStart(b);
    assert MatchRoot(b[i..]) == Some(root);
  }

  // ----- examples -----

  /** In `<a->` the greedy run `a-` is given back to `a`, where `\b` holds. */
  lemma DashExample()
    ensures MatchRoot([Lt, 0x61, 0x2D, Gt]) == Some([0x61])
  {
    var s: seq<bv8> := [Lt, 0x61, 0x2D, Gt];
    assert NameStart(s) == 1;
    assert SkipWhile(s, 2, IsNameByte) == 3;
    assert !WordBoundary(s, 3) && WordBoundary(s, 2);
    assert BacktrackToBoundary(s, 3, 2) == Some(2);
    assert NameAt(s, 1) == s[1..2] == [0x61];
  }

  /** In `<?XML?> <` the declaration, in upper case, and the space after it
      are skipped: the root is read from the final `<`. */
  lemma DeclExample(b: seq<bv8>)
    requires b == [Lt, 0x3F, 0x58, 0x4D, 0x4C, 0x3F, Gt, 0x20, Lt]
    ensures ContentStart(b) == 8
  {
    assert SkipWhile(b, 0, IsLeadingSkip) == 0;
    assert Lower(Take(b[0..], 5)) == XmlDecl;
    assert OccursAt(b, DeclClose, 5) by {
      assert b[5..7] == DeclClose;
    }
    forall j': nat | j' < 5
      ensures !OccursAt(b, DeclClose, j')
    {
      assert b[j'..j' + 2][1] == b[j' + 1];
    }
    assert IsFirstDeclClose(b, 0, 5);
    assert DeclOpensAt(b, 0);
    var i := ContentStart(b);
    assert EndsSpaceRun(b, 7, i);
    assert b[7] == 0x20 && b[8] == Lt;
  }

  /** A document opening with `<!` (a comment or a DOCTYPE) has no root
      name the expression accepts, so the scanner falls back to the last `>`. */
  lemma MarkupDeclFirst(b: seq<bv8>)
    requires 2 <= |b| && b[0] == Lt && b[1] == 0x21
    ensures RootOf(b).None?
    ensures FindXmlEndCli(b) == LastGtEnd(b)
  {
    ContentStartOfElement(b);
    assert b[0..] == b;
    assert NameStart(b) == 1;
  }

  /** `<a>hi</a>` followed by three zero bytes ends after the closing tag. */
  lemma TrailingZerosExample(b: seq<bv8>)
    requires b == [Lt, 0x61, Gt, 0x68, 0x69, Lt, Slash, 0x61, Gt, 0, 0, 0]
    ensures FindXmlEndCli(b) == 9
  {
    var y: seq<bv8> := [Lt, 0x61, Gt, 0x68, 0x69];
    var t: seq<bv8> := [0, 0, 0];
    ZerosHaveNoLt(t);
    assert b == y + [Lt, Slash] + [0x61] + [Gt] + t;
    ExampleRoot(b);
    ClosedDocument(b, y, [0x61], t);
  }

  /** Zero bytes are not `<`. */
  lemma ZerosHaveNoLt(t: seq<bv8>)
    requires t == [0, 0, 0]
    ensures NoLtFrom(t, 0)
  {
  }

  /** The root element of `<a>...` is `a`. */
  lemma ExampleRoot(b: seq<bv8>)
    requires 3 <= |b| && b[0] == Lt && b[1] == 0x61 && b[2] == Gt
    ensures RootOf(b) == Some([0x61])
  {
    ContentStartOfElement(b);
    assert NameStart(b) == 1;
    assert SkipWhile(b, 2, IsNameByte) == 2;
    assert WordBoundary(b, 2);
    assert b[1..2] == [0x61];
  }
}
