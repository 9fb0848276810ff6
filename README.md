# UTF-8 byte decomposition of opis/uri

`Helper::getStrBytes` of opis/uri (src/Helper.php:27-122) walks a PHP byte
string with a cursor. It yields one `offset => [bytes]` pair per character, and it throws a
`RuntimeException` that names a byte offset at the first malformed byte or
when the string ends in the middle of a character.

This project models that function and proves it against the UTF-8 syntax of
section 4 of RFC 3629:

- `utf8.dfy`, module `Utf8`, holds the reference.
  - `Utf8Char` states the `UTF8-char` alternatives of the ABNF, and
    `Utf8Octets` states `*( UTF8-char )` as "a concatenation of characters".
  - `CharPrefix` holds when some character begins with the given bytes.
  - The code point view of section 3 of the same RFC is given by `Encode`
    and `Decode` over scalar values. It shows that the grammar's ranges are
    exactly the shortest-form encodings of non-surrogate code points up to
    U+10FFFF.
- `helper.dfy`, module `Helper`, holds the source's behaviour.
  - `GetStrBytes` is the source's `while` loop with its cursor, its early
    exits and its `continue`s. It is proved equal to the pure function
    `Decomposition`.
  - `Decomposition` is built from `NextChar`, which makes one turn of the
    loop with the same tests in the same order.
  - The lemmas relate `Decomposition` to the grammar.

The result of a run is an `Outcome`. `Complete(groups)` means the generator
was exhausted. `Failed(groups, offset)` holds the groups yielded before the
throw and the offset the exception carries.

The blamed offset is pinned down by the predicate `ErrorAt`, which refers only
to the grammar:

- When a valid lead byte announces more bytes than the string still has, the
  last byte of the string is blamed. This holds even when an earlier
  continuation byte was already out of range, because the source tests for
  the end of the string before it checks ranges.
- Otherwise the first byte that stops the bytes read so far from being the
  beginning of any UTF-8 character is blamed.

`ErrorAtUnique` shows that `ErrorAt` leaves at most one choice, and
`NextCharBlames` shows that the source's offset meets it.

Where the blame falls, in the code's own terms:

- A byte outside its allowed range is blamed itself: the lead byte, or the
  continuation byte whose range test fails (src/Helper.php:45, 52, 69, 73,
  76, 80, 97, 101, 104, 108, 112).
- A string that ends inside a character blames its own last byte
  (src/Helper.php:45, 61, 89).

## Model

| member | source | states |
|---|---|---|
| `Helper.GetStrBytes` | src/Helper.php:27-122 | The cursor loop, with its early throws and `continue`s, produces exactly `Decomposition(str)`: the same groups in the same order, then the same completion or the same error offset. |
| `Helper.NextChar` | src/Helper.php:35-118 | One turn of the loop either yields 1 to 4 bytes, which are exactly the input bytes at the cursor, or blames an offset between the cursor and the end of the string. |
| `Helper.ScanFrom` | src/Helper.php:34-121 | A throw from the loop carries an offset no lower than where the iteration started and below the string length. |
| `Helper.Decomposition` | src/Helper.php:31-121 | Any reported error offset lies in [0, length). |
| `Helper.NextCharAccepts` | src/Helper.php:37-117 | What one turn yields is a UTF8-char taken from the input at the cursor, whose length is fixed by its lead byte: below 0x80 one byte, below 0xE0 two, below 0xF0 three, else four. |
| `Helper.NextCharBlames` | src/Helper.php:44-113 | What one turn rejects is blamed at the offset `ErrorAt` names. An early end after a valid lead byte is blamed at the last byte of the string, even when an earlier continuation byte is already out of range. Otherwise a bad lead byte, or a lead byte at the end of the string, is blamed at its own offset, and the first continuation byte outside its range is blamed at itself. |
| `Helper.NextCharComplete` | src/Helper.php:50-117 | Every UTF8-char starting at a character boundary is yielded whole, as one group. |
| `Helper.ScanFromTiles` | src/Helper.php:34-121 | An iteration that runs to its end has yielded groups covering everything from its starting cursor to the end of the string. |
| `Helper.ScanFromGroups` | src/Helper.php:35-117 | The groups yielded from a cursor lie one after another in the string. The first offset is the cursor, each later offset is the previous one plus the previous group's length, and every group is a UTF8-char of its lead-announced length equal to the input at its own offset. |
| `Helper.ScanFromStops` | src/Helper.php:34-121 | A throw happens in the turn that starts right after the last yielded group, inside the string, and carries the offset that turn rejects with. |
| `Helper.CharsAccepted` | src/Helper.php:34-121 | From a boundary followed by a run of well-formed characters, the loop runs to the end without throwing. |
| `Helper.RejectedHere` | src/Helper.php:44-113 | A turn throws only at a cursor where no UTF8-char of the input starts, and it blames the offset `ErrorAt` fixes. |
| `Helper.DecompositionTiles` | src/Helper.php:31-121 | The offsets start at 0 and chain by group length, and every group is a UTF8-char found in the input at its own offset. On success the groups join back into the input exactly. |
| `Helper.DecompositionPrefix` | src/Helper.php:31-121 | On failure the groups yielded before the throw join into exactly the bytes `s[..k]` of a proper prefix of the input, and that prefix is well-formed UTF-8. |
| `Helper.DecompositionStops` | src/Helper.php:31-121 | On failure no UTF8-char continues the yielded prefix, and the error offset lies after that prefix, inside the string, at the place `ErrorAt` fixes. |
| `Helper.DecompositionWellFormed` | src/Helper.php:31-121 | `getStrBytes` runs to its end without throwing exactly when the input is UTF8-octets. |
| `Helper.ErrorAtUnique` | src/Helper.php:44-113 | The grammar-level description of the blamed byte admits a single offset. |
| `Helper.TruncationReportedFirst` | src/Helper.php:88-105 | F0 41 80 is already malformed at offset 1, yet offset 2 is blamed, because the early end is tested before the second byte's range. |
| `Helper.MixedWidths` | src/Helper.php:37-117 | A string of 1-, 2-, 3- and 4-byte characters yields one group per character at offsets 0, 1, 3 and 6. |
| `Helper.SurrogateRejected` | src/Helper.php:71-74 | The encoded surrogate ED A0 80 after an ASCII byte is rejected at its second byte, after the ASCII group has been yielded. |
| `Utf8.CharLength` | src/Helper.php:39-94 | A well-formed character is as long as its lead byte announces. |
| `Utf8.CharPrefixIff` | src/Helper.php:44-112 | Whether bytes can still begin a character is decided byte by byte: a valid lead, no more bytes than announced, the lead-dependent range for the second byte, and a tail range for the rest. |
| `Utf8.EncodeIsChar` | src/Helper.php:66-115 | The shortest encoding of every scalar value is accepted by the grammar and decodes back to the same value. |
| `Utf8.CharIsEncoding` | src/Helper.php:66-115 | Every accepted character is the shortest encoding of a scalar value: overlong forms, surrogates and code points above U+10FFFF are excluded by the ranges. |

## Left out

- The exception's message text and the string interpolated into it
  (src/Helper.php:124-127): an error is modelled as its offset only.
- The generator's laziness: the model returns the finite list of groups a
  consumer would receive before exhaustion or before the throw.
  Restartability of the generator is not modelled.
- The final `throw` after the four-byte branch (src/Helper.php:120) is not
  modelled as a separate error path. It cannot be reached, because a lead
  above 0xF4 is rejected before its second byte is read. `NextChar` and
  `GetStrBytes` each carry an assertion, checked by the verifier, that the
  lead is below 0xF5 at that point.
- PHP strings are modelled as sequences of octets in [0, 255], the values of
  `ord`; string indexing and `strlen` become sequence indexing and length.
- Punycode encoding and decoding, RFC 6570 URI template expansion and RFC
  3986 reference resolution are not part of this model: their
  implementations are not among the source files, only tests that call them.
