# Hex decoder of the IPFS + Lit front-end

This project models `hexStringToArrayBuffer` from `src/lib/lit.js`. The
front-end's `Lit.decryptString` uses it to turn the hex text of a ciphertext
into the bytes it hands to the Lit SDK for decryption. The model is one Dafny
module, `Lit` (`lit.dfy`). It is made of pure functions and lemmas, as the
source is: a `replace`, two regular-expression `match` calls and a `map` into a
`Uint8Array`, with no loop and no mutation.

What the decoder does, and how the model states it:

- `StripPrefix` is `replace(/^0x/, '')`. It removes one lowercase `0x`, and
  only at position 0.
- `Pairs` is `match(/[\dA-F]{2}/gi)`. It scans from left to right. When two hex
  digits stand next to each other, they form one match and the scan skips both.
  Otherwise it skips one character. `Match` returns `None` where JavaScript
  returns `null`.
- `ParseHex` is `parseInt(s, 16)` on hex digits. `ToUint8` is the conversion a
  `Uint8Array` applies to what it stores. `ParsePair` and `ToBytes` give the
  buffer's bytes.
- `HexStringToArrayBuffer` returns `Ok(bytes)`. When there is no pair,
  `.map` is called on `null` and throws. The model returns
  `Err(NoHexPairs)` in that case.
- `ConsoleLog` lists the two warnings: odd length, and the first match of
  `/[G-Z\s]/i`. It is a separate function, and `HexStringToArrayBuffer` never
  reads it. So the warnings cannot change the result.

Something the proofs show about the source: stripping `0x` never changes the
decoded bytes. The `x` is not a hex digit, so the `0` in front of it could never
pair with anything (`StripPrefixKeepsPairs`, `PrefixIgnored`). The strip only
changes the non-hex warning. Without it, the `x` at index 1 would always be the
character reported. With it, a reported character's index counts from after the
`0x`, so it is two less than its place in the input.
The strip removes exactly two characters, so it never changes whether the
odd-length warning appears.

## Model

| member | source | states |
|---|---|---|
| `Lit.HexDigitValue` | src/lib/lit.js:33-35 | a digit matched by `[\dA-F]` (either case) has a base-16 value below 16 |
| `Lit.HexDigitClass` | src/lib/lit.js:33 | the class `[\dA-F]` under `i` holds exactly the renderings of the values 0–15, in upper or lower case |
| `Lit.FlaggedClass` | src/lib/lit.js:28 | the class `[G-Z\s]` under `i` never holds a hex digit and treats an ASCII letter and its capital alike |
| `Lit.ToUint8` | src/lib/lit.js:37 | a `Uint8Array` stores an integer modulo 256, so it keeps every value in 0..255 unchanged |
| `Lit.ParseHex` | src/lib/lit.js:35 | `parseInt(s, 16)` of n hex digits is below 16^n |
| `Lit.ParsePair` | src/lib/lit.js:34-37 | the byte stored for a pair equals 16·high + low; storing it in the `Uint8Array` never wraps |
| `Lit.ToBytes` | src/lib/lit.js:34-38 | the buffer has one byte per pair, in pair order, each equal to its pair's value |
| `Lit.StripPrefix` | src/lib/lit.js:23 | `replace(/^0x/, '')` changes the string exactly when it starts with a lowercase `0x`, and it keeps the parity of the length (`StripPrefixOnce` gives the exact result) |
| `Lit.Pairs` | src/lib/lit.js:33 | every match is two hex digits, and there are at most half as many matches as characters |
| `Lit.Match` | src/lib/lit.js:33-34 | the global `match` returns `null` exactly when no two hex digits are adjacent, and otherwise the non-empty list of pairs |
| `Lit.HexStringToArrayBuffer` | src/lib/lit.js:22-39 | fails exactly when the stripped string has no two adjacent hex digits; otherwise it returns between 1 and half-the-stripped-length bytes, the i-th being 16·high + low of the i-th match |
| `Lit.FirstFlagged` | src/lib/lit.js:28 | `match(/[G-Z\s]/i)` finds the first letter g–z (either case) or white-space character, or reports that there is none |
| `Lit.ConsoleLog` | src/lib/lit.js:24-32 | the odd-length line comes first and each line is written at most once; the odd-length warning appears exactly when the stripped string has odd length; a non-hex warning appears exactly when the stripped string holds a character of `[G-Z\s]` under `i`, and it names the first such character and its index, which is never a hex digit |
| `Lit.NoPairsIff` | src/lib/lit.js:33-34 | `match` finds no pair exactly when no two hex digits are adjacent |
| `Lit.PairsOfHexString` | src/lib/lit.js:33 | a string of hex digits yields exactly half its length in matches, the i-th being characters 2i and 2i+1 |
| `Lit.EvenHexPrefixSplits` | src/lib/lit.js:33 | after an even-length run of hex digits, the scan of what follows starts fresh |
| `Lit.NonHexSeparates` | src/lib/lit.js:33 | a non-hex character is never part of a match, and it keeps the digits on its two sides from pairing |
| `Lit.StripPrefixKeepsPairs` | src/lib/lit.js:23-33 | stripping the leading `0x` never changes the matches |
| `Lit.DecodeByPairs` | src/lib/lit.js:23-38 | the result depends only on the matches in the unstripped input |
| `Lit.SamePairsSameResult` | src/lib/lit.js:33-38 | two inputs with the same matches decode to the same result |
| `Lit.FailsIffNoAdjacentHexDigits` | src/lib/lit.js:33-34 | the decoder throws exactly when the input has no two adjacent hex digits |
| `Lit.FailureExamples` | src/lib/lit.js:23-34 | `""`, `"0x"` and `"a"` throw instead of giving an empty buffer |
| `Lit.DecodeHexString` | src/lib/lit.js:33-37 | 2n hex digits decode to n bytes, in order, each 16·high + low of its pair |
| `Lit.DecodeTwoDigits` | src/lib/lit.js:33-37 | two hex digits alone decode to the single byte they spell |
| `Lit.PrefixIgnored` | src/lib/lit.js:23-33 | a leading `0x` or `0X` never changes the result, whatever follows |
| `Lit.ZeroThenNonHexIgnored` | src/lib/lit.js:23-33 | a leading `0` followed by a non-hex character adds nothing to the result |
| `Lit.StripPrefixOnce` | src/lib/lit.js:23-31 | only one lowercase `0x` is removed; `0X` stays, and its `X` is reported as non-hex |
| `Lit.HexStringNotStripped` | src/lib/lit.js:23 | a string made only of hex digits is never stripped |
| `Lit.OddTrailingDigitDropped` | src/lib/lit.js:24-33 | an odd trailing hex digit after an even run of digits is dropped; only the odd-length warning notices it |
| `Lit.NonHexSplitsDecoding` | src/lib/lit.js:28-37 | a non-hex character never causes failure by itself; the bytes are those of the text before it followed by those of the text after it |
| `Lit.UnflaggedNonHexExample` | src/lib/lit.js:28-37 | `"a-bc"` decodes to the single byte 0xbc, and the `-` raises no warning |
| `Lit.WarningsDoNotStopDecoding` | src/lib/lit.js:24-37 | `"0X1 234"` raises both warnings and still decodes to 0x23 |
| `Lit.EncodeThenDecode` | src/lib/lit.js:33-37 | any non-empty byte sequence written as two hex digits per byte, in either case, decodes back to itself |
| `Lit.DecodeThenEncode` | src/lib/lit.js:33-37 | lowercase hex text of non-zero even length is exactly the rendering of the bytes it decodes to |

## Left out

- The `Lit` class (`connect`, `encryptString`, `decryptString`, src/lib/lit.js:41-96) is left out. It only calls the Lit SDK, and the SDK's cryptography and network behaviour cannot be seen from this code. Its lazily connected `litNodeClient` field is connection plumbing.
- The call of the decoder inside `decryptString` (src/lib/lit.js:85) wraps the bytes in a `Blob` for the SDK. The model stops at the bytes.
- `accessControlConditions` (src/lib/lit.js:5-20) is static configuration. The Lit network evaluates it remotely, so it is left out.
- src/components/App.js (React state, the IPFS upload, the broken `decrypt` helper) and src/components/Header.js (markup only) are not part of this model.
- The `console.log` side effect itself is left out. `ConsoleLog` only returns the warnings as a value.
- ConsoleLog: it counts the length and the warning index in Unicode scalar values. JavaScript counts UTF-16 code units, so an input with characters outside the Basic Multilingual Plane can get a different odd-length verdict and index. Such characters are never hex digits, so the decoded bytes are the same. A JavaScript string may also hold unpaired surrogates, which no Dafny `char` can; inputs holding them are outside the model, though such code units are neither hex digits nor flagged and so would not change the bytes.
- ParseHex: it models `parseInt(s, 16)` only on strings of hex digits. The decoder passes nothing else to it. Leading white space, signs and a `0x` prefix, which `parseInt` would also accept, are not modelled.
