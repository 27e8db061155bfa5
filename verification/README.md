# CIGG configuration codec, modelled in Dafny

The repository converts between an XML configuration document and the
obfuscated `.dat` file a device reads. The `.dat` file holds the document
XORed byte by byte with a one-byte key (always 0xAA when written). A
32-byte footer follows it: the magic "CIGG", two zero bytes, the
ciphertext length as a 16-bit big-endian number, the big-endian
CRC-32/BZIP2 of the ciphertext, four 0x11 bytes and sixteen zero bytes.

The repository has two front ends:

- the command-line tool `cig_config.py` (`encrypt`, `decrypt`);
- the browser tool `assets/script.py` (the encode and decode branches of
  its file handler).

Both write the same `.dat` file. They decode differently, though:

- The command-line decoder only accepts a footer that is 32 bytes long.
  It searches for the key over a Python `set` of candidates and accepts
  any text that looks like XML. It cuts the document after the last
  closing tag of its root element.
- The browser decoder accepts any "CIGG". It looks for `<?xml` in the
  decrypted text and cuts after the last `>`.

The model keeps the two variants apart and relates them.

Modules, one per file:

- `Bytes` (bytes.dfy): the Python `bytes` operations that are used. These
  are `s[:n]`, `in`, `startswith`, `find`, `rfind`, `lower()` and the
  skipping loops.
- `Cipher` (cipher.dfy): `bxor` and its key mask.
- `Crc` (crc.dfy): CRC-32/BZIP2 in two forms. The bit-by-bit reference is
  the browser's `crc32_bzip2`. The table-driven form is the command line's
  `crc32_bzip2_be`. Both are also given as loop-carrying methods.
- `Footer` (footer.dfy): the footer layout, how it is built and how it is
  read.
- `Scanner` (scanner.dfy): both `find_xml_end` functions. This includes a
  hand model of the two regular expressions of the command-line version:
  `<\s*([A-Za-z_][\w\-\.:]*)\b`, with its backtracking to `\b`, and
  `</\s*ROOT\s*>` under `finditer`.
- `KeyDetect` (keydetect.dfy): both `autodetect_key` functions.
- `Codec` (codec.dfy): encoding and decoding as whole operations on the
  input file's bytes.
- `RoundTrip` (roundtrip.dfy): when decoding gives back the document that
  was encoded.

Before the document, the command-line scanner skips any run of
whitespace and of the bytes EF, BB and BF, in any order and number
(`cig_config.py:43`). `Scanner.IsLeadingSkip` is that byte class.

## Model

| member | source | states |
|---|---|---|
| Bytes.Take | cig_config.py:17 | `enc[:n]` is the first min(n, len) bytes of `enc`, in order |
| Bytes.IndexFrom | cig_config.py:45 | `find` returns the first occurrence at or after the start. It returns none exactly when no occurrence exists from the start on |
| Bytes.LastIndexOf | cig_config.py:65 | `rfind` returns an occurrence with none after it. It returns none exactly when the pattern does not occur |
| Bytes.SkipWhile | cig_config.py:43 | the skipping loop stops at the first byte outside the class. Every byte it passed is in the class |
| Bytes.Lower | cig_config.py:44 | `lower()` keeps the length and lower-cases each byte in place |
| Cipher.MaskKey | cig_config.py:9 | `key & 0xFF` is the key modulo 256 |
| Cipher.Bxor | cig_config.py:8-10 | the output has the input's length. Byte i is input byte i XOR the masked key |
| Cipher.BxorInvolution | cig_config.py:8-10 | applying the cipher twice with the same key restores the input, for every key |
| Cipher.BxorMasksKey | cig_config.py:9 | keys equal modulo 256 encrypt identically |
| Cipher.BxorTake | cig_config.py:17 | decrypting the first n bytes gives the first n bytes of the full decryption |
| Crc.Be32 | cig_config.py:38 | `struct.pack(">I", x)` gives four bytes that read back to x |
| Crc.Be32OfFromBe32 | cig_config.py:38 | every four-byte string is the packing of the number it spells, so packing is a bijection |
| Crc.UpdatesAgree | cig_config.py:35-36 | one table step equals the browser's eight bit steps on the same byte, for every register and byte |
| Crc.RegistersAgree | cig_config.py:33-36 | the table-driven register equals the bit-by-bit register on every input |
| Crc.CrcAgree | cig_config.py:22-38 | both front ends compute the same CRC on every input |
| Crc.CheckValue | cig_config.py:23 | the catalogue check value of CRC-32/BZIP2 holds: "123456789" gives 0xFC891918 in both forms |
| Crc.ShiftEight | cig_config.py:29-31 | the eight-step inner loop shifts the polynomial division by eight bits |
| Crc.BuildTable | cig_config.py:27-32 | the table has 256 entries. Entry i is i shifted through eight division steps |
| Crc.Crc32Bzip2Be | cig_config.py:22-38 | the command line's table loop yields the big-endian CRC, equal to the bit-by-bit reference |
| Crc.Crc32Bzip2 | assets/script.py:57-69 | the browser's bit loop yields the big-endian CRC, equal to the table-driven one |
| Footer.Be16 | cig_config.py:98 | the length field reads back as the length modulo 65536 |
| Footer.BuildFooter | cig_config.py:100 | the footer is 32 bytes. It holds, in order: the magic, two zeros, the length field, the CRC, four 0x11 bytes and sixteen zeros |
| Footer.ReadBuildFooter | cig_config.py:85-86 | reading a built footer recovers the length modulo 65536 and the CRC |
| Footer.LengthFieldTruncates | cig_config.py:98 | the declared length equals the real length if and only if the payload is shorter than 65536 bytes |
| Footer.FooterMagicOffsets | cig_config.py:100 | inside a footer, "CIGG" can recur only at offsets 6 to 8, spelled by the length and CRC bytes |
| Scanner.LastGtEnd | cig_config.py:50 | the fallback returns one past the last `>`, with no `>` after it, or the whole length when there is no `>` |
| Scanner.LastGtEndOfGt | cig_config.py:50 | the fallback is the position after a `>` with no `>` after it |
| Scanner.ContentStart | cig_config.py:43-48 | reading starts after the leading run of whitespace and BOM bytes. If `<?xml` (any case) does not follow, or no `?>` follows it, it starts right there. Otherwise it starts after the first `?>` and the whitespace after it. The byte there is not whitespace |
| Scanner.DeclExample | cig_config.py:43-48 | on `<?XML?> <` the declaration, matched in any case, and the space after it are skipped, so reading starts at offset 8 |
| Scanner.ContentStartOfElement | cig_config.py:43-44 | a buffer that starts with an element tag, not `<?`, is read from position 0 |
| Scanner.BacktrackToBoundary | cig_config.py:51 | backtracking stops at the rightmost `\b` position. It fails exactly when no position in the range is a boundary |
| Scanner.NameAt | cig_config.py:51 | the group is a non-empty run of name bytes ending in a word byte, with no word byte right after it |
| Scanner.MatchRoot | cig_config.py:51 | `re.match` succeeds exactly when a name-start byte follows `<` and spaces. The group is then the name read there |
| Scanner.NameAtIsLongest | cig_config.py:51 | no longer run of name bytes could end at a `\b`, so the group is the longest one the pattern allows |
| Scanner.RootOf | cig_config.py:49-54 | the root is the pattern's group at the start position, and none when that position is at the end. A root found is non-empty and holds no `<` |
| Scanner.MatchCloseAt | cig_config.py:55 | a match at p is `</`, white space, the root, white space, `>`, ending at the returned offset |
| Scanner.MatchCloseAtComplete | cig_config.py:55-57 | conversely, every closing tag of that shape at p is the match there, so `finditer` sees it |
| Scanner.CloseMatchesDisjoint | cig_config.py:55-57 | two closing-tag matches never overlap, so `finditer` misses none |
| Scanner.FindIterLast | cig_config.py:56-57 | the loop's result is the last match end seen, or the initial value |
| Scanner.FindIterLastIsRightmost | cig_config.py:56-57 | the last match `finditer` yields is the rightmost match in the buffer |
| Scanner.FindIterLastNoMatch | cig_config.py:56-58 | with no match from the start position on, the loop leaves its initial value, so `endm` stays unset |
| Scanner.FindXmlEndCli | cig_config.py:40-60 | the end offset lies within the buffer. When no root is read it is the last-`>` fallback |
| Scanner.FindXmlEndCliSpec | cig_config.py:58-60 | without a closing tag the result is the last-`>` fallback. Otherwise it is the end of the rightmost closing tag of the root |
| Scanner.MarkupDeclFirst | cig_config.py:49-53 | a buffer that starts with `<!` has no root, so the result is the last-`>` fallback |
| Scanner.ClosingTagAt | cig_config.py:55-57 | a literal `</root>` followed by no `<` is the rightmost match |
| Scanner.ClosedDocument | cig_config.py:40-60 | a document ending in its root's closing tag, followed by bytes without `<`, is cut right after that tag |
| Scanner.DashExample | cig_config.py:51 | on `<a->` the greedy name `a-` is given back to `a` to satisfy `\b` |
| Scanner.TrailingZerosExample | cig_config.py:40-60 | `<a>hi</a>` followed by three zero bytes ends at offset 9 |
| Scanner.FindXmlEndBrowser | assets/script.py:49-54 | the browser scanner is the last-`>` fallback, giving 0 for empty data |
| KeyDetect.FirstSatisfying | cig_config.py:16-19 | the search returns the first passing element, with none passing before it. It returns none exactly when nothing passes |
| KeyDetect.AllKeys | cig_config.py:16 | `range(256)` lists every key, in increasing order |
| KeyDetect.SearchKey | assets/script.py:33-46 | the result is the first passing candidate if one exists, else the smallest key passing the fallback test, else 0xAA |
| KeyDetect.AutodetectKeyCli | cig_config.py:12-20 | for every iteration order of the candidate set: a passing candidate is chosen if there is one, else the smallest passing key, else 0xAA |
| KeyDetect.SetOrderSearch | cig_config.py:16 | scanning any iteration order of a set finds a passing member whenever the set has one |
| KeyDetect.CliCandidates | cig_config.py:13-15 | a payload shorter than two bytes has no candidates |
| KeyDetect.CliCandidatesSpec | cig_config.py:14-15 | for a payload of two or more bytes, a key is a candidate exactly when it decrypts the second-to-last byte to `>` or CR, or the last byte to LF |
| KeyDetect.XorKeyUnique | cig_config.py:15 | the key read off a byte and its target is the only key that decrypts the byte to that target |
| KeyDetect.BrowserCandidates | assets/script.py:35-36 | for payloads of two or more bytes there are three candidates, in order the keys decrypting the second-to-last byte to `>`, the last byte to LF and the second-to-last byte to CR. There are none otherwise |
| KeyDetect.AutodetectKeyBrowser | assets/script.py:33-46 | the first candidate with `<?xml` in 100 decrypted bytes, else the smallest key with `<?xml` in 50, else 0xAA |
| KeyDetect.EmptyPayloadKey | cig_config.py:20 | an empty payload recovers the fixed key 0xAA in both tools |
| Codec.EnsureFinalLf | cig_config.py:93-94 | the step adds at most one byte and keeps the document as a prefix. With the flag the result ends in LF. The document is unchanged exactly when the flag is off or it already ends in LF |
| Codec.EnsureFinalLfIdempotent | cig_config.py:93-94 | applying the newline step twice is applying it once |
| Codec.Encode | cig_config.py:91-105 | the file is the ciphertext plus a footer. The ciphertext decrypts under 0xAA to the document. The footer reads back as the length modulo 65536 and the CRC of the ciphertext |
| Codec.EncodeCli | cig_config.py:91-105 | the command-line encoder writes `Encode` |
| Codec.EncodeBrowser | assets/script.py:126-138 | the browser encoder writes the same file as the command line |
| Codec.FrameCli | cig_config.py:65-76 | there is no footer exactly when there is no "CIGG" or the last one has under 32 bytes after it. Otherwise the payload precedes the last "CIGG" and the footer is the 32 bytes from it |
| Codec.FrameBrowser | assets/script.py:110-116 | there is no footer exactly when there is no "CIGG". Otherwise the file splits at the last "CIGG" |
| Codec.DecodeCli | cig_config.py:63-89 | without a footer the output is the 0xAA decryption, cut by the scanner. With one, the payload is decrypted with the recovered key and cut. The report carries the key, both lengths, the declared CRC and the recomputed CRC |
| Codec.DecodeFramed | cig_config.py:75-89 | with a footer, the key is the autodetected one, the output is the scanner's cut of the decryption, and the report reads the footer and recomputes the CRC |
| Codec.DecodeBrowser | assets/script.py:109-121 | the output is the decryption, without a footer or with the payload's detected key, cut right after its last `>`. It is the whole decryption when there is no `>` |
| Codec.CutAfterLastGtUnique | assets/script.py:49-54 | the cut described for the browser is unique: it is the data up to one past its last `>` |
| RoundTrip.LastMagicOfEncoded | cig_config.py:65 | in an encoded file whose length and CRC bytes do not spell "CIGG", the last "CIGG" is the footer's |
| RoundTrip.FramingOfEncoded | cig_config.py:75-76 | both decoders split such a file back into the ciphertext and the footer |
| RoundTrip.BrowserKeyOfEncoded | assets/script.py:35-40 | for a document ending in `>` plus one byte, with `<?xml` in its first 100 bytes, the browser recovers 0xAA |
| RoundTrip.CliCandidatesOfEncoded | cig_config.py:14-15 | for a ciphertext of a document ending in ">\n", the candidate set is {0xAA, 0x99} |
| RoundTrip.WrongCliKeyFails | cig_config.py:17-18 | a document with no 0x0F byte does not look like XML under the wrong candidate 0x99 |
| RoundTrip.CliKeyOfEncoded | cig_config.py:12-20 | for such a document the command line recovers 0xAA, whatever the set's iteration order |
| RoundTrip.BrowserDecodeOfEncoded | assets/script.py:109-121 | once the key is found, the browser returns the written document cut after its last `>` |
| RoundTrip.BrowserRoundTrip | assets/script.py:109-138 | encoding with the newline step, then decoding in the browser, returns the document itself. This holds for a document that ends in `>`, has `<?xml` in its first 100 bytes, and whose length and CRC bytes do not spell "CIGG" |
| RoundTrip.CliDecodeOfEncoded | cig_config.py:63-105 | once the key is found, the command line returns the scanner's cut of the written document. It reports key 0xAA, the true length, that length modulo 65536 as declared, and matching CRCs |
| RoundTrip.CliRoundTrip | cig_config.py:63-105 | encoding with the newline step, then decoding on the command line, returns a document that ends in its root's closing tag, in any set order |
| RoundTrip.UnframedRoundTrip | cig_config.py:66-69 | a file with no "CIGG" decrypts whole under 0xAA in both tools and is cut by each tool's scanner |

## Left out

- File reading and writing, the default output names (`_decrypted.xml`,
  `_assembled.dat`, `_encrypted.dat`), argument parsing and `help`. Each
  operation takes the input file's bytes and returns the bytes that would
  be written.
- The printed messages. `Codec.DecodeCli` returns the values that
  `decrypt` prints, as a `FooterReport`. The footer hex dump of `encrypt`
  is the footer itself.
- The browser's page handling: `log`, `handle_file`, the `.dat`/`.xml`
  dispatch on the file name, and the download. The `addLF` checkbox is
  the boolean parameter of `Codec.Encode`.
- Python's general regular-expression engine. Only the two expressions the
  scanner uses are modelled, by hand, on bytes.
- The iteration order of Python's `set` in `autodetect_key`. It is not
  specified by the language, so it is the parameter `order`, and every
  property holds for every order.
- Scanner.FindXmlEndCli: the function's own contract bounds the offset
  and gives the fallback when no root is read. What it returns when a
  root is read is stated by `Scanner.FindXmlEndCliSpec`,
  `Scanner.MarkupDeclFirst` and `Scanner.ClosedDocument`.
- Scanner.FindIterLast: the function's own contract only bounds the
  result. That it is the rightmost match is
  `Scanner.FindIterLastIsRightmost`.
- Scanner.MatchCloseAtComplete: it is stated for roots that do not start
  with regex white space. Every root `Scanner.RootOf` reads starts with a
  letter or `_`.
- KeyDetect.CliCandidates: the function's own contract gives only the
  short-payload case. Which keys the set holds is
  `KeyDetect.CliCandidatesSpec`.
- RoundTrip.BrowserRoundTrip and RoundTrip.CliRoundTrip: the round trips
  are stated for documents the heuristics recognise. Other documents can
  decode differently, because the key search may pick another key.
  Likewise, when the footer's length or CRC bytes happen to spell "CIGG",
  the decoders split the file elsewhere.
