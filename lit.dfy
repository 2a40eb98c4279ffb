/** The hex decoder of src/lib/lit.js: `hexStringToArrayBuffer` turns the hex
    text of a ciphertext into the bytes handed to decryption.

    The decoder strips one leading lowercase `0x`, logs two warnings that do not
    influence the result, collects the non-overlapping pairs of adjacent hex
    digits from left to right, and stores each pair's base-16 value in a
    `Uint8Array`. When no pair exists, the regular-expression match yields
    `null` and mapping over it throws. */
module Lit {

  /** An element of a `Uint8Array`. */
  newtype Byte = x: int | 0 <= x < 256

  datatype Option<T> = None | Some(value: T)

  /** The exception the decoder can end with. */
  datatype Error =
      /** `match` found no pair and returned `null`; `null.map(...)` throws a TypeError. */
    | NoHexPairs

  datatype Result<T> = Ok(value: T) | Err(error: Error)

  /** A line the decoder writes with `console.log`. */
  datatype Warning =
    | OddLength
      /** The first character matched by `/[G-Z\s]/i`, and its index in the stripped string. */
    | NonHexCharacters(found: char, index: nat)

  // ---------------------------------------------------------------------------
  // Characters

  /** `[\dA-F]` under the `i` flag: an ASCII digit, or a letter a-f in either case. */
  predicate IsHexDigit(c: char) {
    '0' <= c <= '9' || 'a' <= c <= 'f' || 'A' <= c <= 'F'
  }

  predicate IsHexString(s: string) {
    forall i | 0 <= i < |s| :: IsHexDigit(s[i])
  }

  /** Two hex digits, the text of one match of the pair pattern. */
  predicate IsHexPair(p: string) {
    |p| == 2 && IsHexDigit(p[0]) && IsHexDigit(p[1])
  }

  /** Somewhere in `s` two hex digits stand next to each other. */
  predicate HasAdjacentHexDigits(s: string) {
    exists i | 0 <= i < |s| - 1 :: IsHexDigit(s[i]) && IsHexDigit(s[i + 1])
  }

  /** `\s` of ECMAScript regular expressions: the WhiteSpace and LineTerminator code points. */
  predicate IsRegExpSpace(c: char) {
    c == '\t' || c == '\n' || c == '\U{B}' || c == '\U{C}' || c == '\r' || c == ' '
    || c == '\U{A0}' || c == '\U{1680}' || '\U{2000}' <= c <= '\U{200A}'
    || c == '\U{2028}' || c == '\U{2029}' || c == '\U{202F}' || c == '\U{205F}'
    || c == '\U{3000}' || c == '\U{FEFF}'
  }

  /** `[G-Z\s]` under the `i` flag: what the decoder reports as a non-hex character. */
  predicate IsFlagged(c: char) {
    'G' <= c <= 'Z' || 'g' <= c <= 'z' || IsRegExpSpace(c)
  }

  /** The value of one hex digit, either case. */
  function HexDigitValue(c: char): (v: nat)
    requires IsHexDigit(c)
    ensures v < 16
  {
    if '0' <= c <= '9' then c as int - '0' as int
    else if 'a' <= c <= 'f' then c as int - 'a' as int + 10
    else c as int - 'A' as int + 10
  }

  /** The hex digit for `v`, with letters in upper or lower case. */
  function HexDigit(v: nat, upper: bool): (c: char)
    requires v < 16
    ensures IsHexDigit(c) && HexDigitValue(c) == v
    ensures 'A' <= c <= 'F' <==> upper && v >= 10
  {
    if v < 10 then ('0' as int + v) as char
    else if upper then ('A' as int + v - 10) as char
    else ('a' as int + v - 10) as char
  }

  /** Every hex digit is the rendering of its own value in its own case. */
  lemma HexDigitOfValue(c: char)
    requires IsHexDigit(c)
    ensures HexDigit(HexDigitValue(c), 'A' <= c <= 'F') == c
  {
  }

  /** The pair pattern's character class is exactly the set of renderings of the
      sixteen digit values, in either case. */
  lemma HexDigitClass(c: char)
    ensures IsHexDigit(c) <==> exists v: nat, upper: bool | v < 16 :: HexDigit(v, upper) == c
  {
    if IsHexDigit(c) {
      HexDigitOfValue(c);
      var v, upper := HexDigitValue(c), 'A' <= c <= 'F';
      assert HexDigit(v, upper) == c;
    }
  }

  /** The warning's character class never holds a hex digit, and it ignores the
      case of ASCII letters. */
  lemma FlaggedClass(c: char)
    ensures IsFlagged(c) ==> !IsHexDigit(c)
    ensures 'a' <= c <= 'z' ==> (IsFlagged(c) <==> IsFlagged((c as int - 32) as char))
  {
  }

  // ---------------------------------------------------------------------------
  // Numbers

  function Pow16(k: nat): (p: nat)
    ensures p > 0
  {
    if k == 0 then 1 else 16 * Pow16(k - 1)
  }

  /** `parseInt(s, 16)` on a non-empty string of hex digits: most significant digit first. */
  function ParseHex(s: string): (n: nat)
    requires |s| > 0 && IsHexString(s)
    ensures n < Pow16(|s|)
    decreases |s|
  {
    if |s| == 1 then HexDigitValue(s[0])
    else 16 * ParseHex(s[..|s| - 1]) + HexDigitValue(s[|s| - 1])
  }

  /** ECMAScript ToUint8, the conversion a `Uint8Array` applies to each stored integer. */
  function ToUint8(n: int): (b: Byte)
    ensures 0 <= n < 256 ==> b as int == n
    ensures (n - b as int) % 256 == 0
  {
    (n % 256) as Byte
  }

  /** The byte a pair of hex digits stands for: high digit first. */
  function PairValue(p: string): nat
    requires IsHexPair(p)
  {
    16 * HexDigitValue(p[0]) + HexDigitValue(p[1])
  }

  /** One element of `new Uint8Array(pairs.map(s => parseInt(s, 16)))`. */
  function ParsePair(p: string): (b: Byte)
    requires IsHexPair(p)
    ensures b as int == PairValue(p)
  {
    assert p[..1][0] == p[0];
    assert ParseHex(p) == PairValue(p) < 256;
    ToUint8(ParseHex(p))
  }

  /** `new Uint8Array(pairs.map(s => parseInt(s, 16)))`, as the bytes of its buffer. */
  function ToBytes(pairs: seq<string>): (bytes: seq<Byte>)
    requires forall i | 0 <= i < |pairs| :: IsHexPair(pairs[i])
    ensures |bytes| == |pairs|
    ensures forall i | 0 <= i < |pairs| :: bytes[i] as int == PairValue(pairs[i])
  {
    seq(|pairs|, i requires 0 <= i < |pairs| => ParsePair(pairs[i]))
  }

  lemma ToBytesAppend(xs: seq<string>, ys: seq<string>)
    requires forall i | 0 <= i < |xs| :: IsHexPair(xs[i])
    requires forall i | 0 <= i < |ys| :: IsHexPair(ys[i])
    ensures forall i | 0 <= i < |xs + ys| :: IsHexPair((xs + ys)[i])
    ensures ToBytes(xs + ys) == ToBytes(xs) + ToBytes(ys)
  {
    assert forall i | 0 <= i < |xs + ys| :: IsHexPair((xs + ys)[i]) by {
      forall i | 0 <= i < |xs + ys| ensures IsHexPair((xs + ys)[i]) {
        if i >= |xs| { assert (xs + ys)[i] == ys[i - |xs|]; }
      }
    }
    var l, r := ToBytes(xs + ys), ToBytes(xs) + ToBytes(ys);
    forall i | 0 <= i < |l| ensures l[i] == r[i] {
      if i >= |xs| { assert (xs + ys)[i] == ys[i - |xs|]; }
    }
  }

  // ---------------------------------------------------------------------------
  // The decoder

  /** `hexString.replace(/^0x/, '')`: one lowercase `0x`, and only at the very start. */
  function StripPrefix(s: string): (r: string)
    ensures r != s <==> |s| >= 2 && s[0] == '0' && s[1] == 'x'
    ensures |r| % 2 == |s| % 2
  {
    if |s| >= 2 && s[0] == '0' && s[1] == 'x' then s[2..] else s
  }

  /** `s.match(/[\dA-F]{2}/gi)` as a list of matched texts: scanning left to right,
      two hex digits in a row are one match and the scan resumes after them;
      anything else is passed over one character at a time. */
  function Pairs(s: string): (ps: seq<string>)
    ensures |ps| <= |s| / 2
    ensures forall i | 0 <= i < |ps| :: IsHexPair(ps[i])
    decreases |s|
  {
    if |s| < 2 then []
    else if IsHexDigit(s[0]) && IsHexDigit(s[1]) then [s[..2]] + Pairs(s[2..])
    else Pairs(s[1..])
  }

  /** `s.match(...)` with the global flag: `null` when nothing matches. */
  function Match(s: string): (m: Option<seq<string>>)
    ensures m.None? <==> !HasAdjacentHexDigits(s)
    ensures m.Some? ==> m.value == Pairs(s) && |m.value| > 0
  {
    NoPairsIff(s);
    var ps := Pairs(s);
    if ps == [] then None else Some(ps)
  }

  /** `hexStringToArrayBuffer(hexString)`: the buffer's bytes, or the exception thrown
      when the stripped string holds no pair of adjacent hex digits. */
  function HexStringToArrayBuffer(hexString: string): (r: Result<seq<Byte>>)
    ensures r.Err? <==> !HasAdjacentHexDigits(StripPrefix(hexString))
    ensures r.Ok? ==> 0 < |r.value| <= |StripPrefix(hexString)| / 2
    ensures r.Ok? ==> |r.value| == |Pairs(StripPrefix(hexString))|
    ensures r.Ok? ==> forall i | 0 <= i < |r.value| ::
              r.value[i] as int == PairValue(Pairs(StripPrefix(hexString))[i])
  {
    var stripped := StripPrefix(hexString);
    NoPairsIff(stripped);
    match Match(stripped)
    case None => Err(NoHexPairs)
    case Some(pairs) => Ok(ToBytes(pairs))
  }

  /** `s.match(/[G-Z\s]/i)`: the index of the first flagged character, if any. */
  function FirstFlagged(s: string): (r: Option<nat>)
    ensures r.None? ==> forall i | 0 <= i < |s| :: !IsFlagged(s[i])
    ensures r.Some? ==> r.value < |s| && IsFlagged(s[r.value])
    ensures r.Some? ==> forall i | 0 <= i < r.value :: !IsFlagged(s[i])
    decreases |s|
  {
    if s == [] then None
    else if IsFlagged(s[0]) then Some(0)
    else match FirstFlagged(s[1..])
      case None => None
      case Some(k) => Some(k + 1)
  }

  /** The warnings `hexStringToArrayBuffer(hexString)` logs, in order. They are
      computed apart from the result: nothing in `HexStringToArrayBuffer` reads them. */
  function ConsoleLog(hexString: string): (log: seq<Warning>)
    ensures |log| == (if |StripPrefix(hexString)| % 2 == 1 then 1 else 0)
                     + (if FirstFlagged(StripPrefix(hexString)).Some? then 1 else 0)
    ensures OddLength in log ==> log[0] == OddLength
    ensures OddLength in log <==> |StripPrefix(hexString)| % 2 == 1
    ensures (exists w | w in log :: w.NonHexCharacters?) <==>
              exists i | 0 <= i < |StripPrefix(hexString)| :: IsFlagged(StripPrefix(hexString)[i])
    ensures forall w | w in log && w.NonHexCharacters? ::
              w.index < |StripPrefix(hexString)| && StripPrefix(hexString)[w.index] == w.found
              && IsFlagged(w.found) && !IsHexDigit(w.found)
              && forall j | 0 <= j < w.index :: !IsFlagged(StripPrefix(hexString)[j])
  {
    var s := StripPrefix(hexString);
    var odd := if |s| % 2 != 0 then [OddLength] else [];
    var bad := match FirstFlagged(s)
      case None => []
      case Some(k) => [NonHexCharacters(s[k], k)];
    assert forall w | w in odd + bad :: w in odd || w in bad;
    assert FirstFlagged(s).Some? ==> bad[0] in odd + bad;
    odd + bad
  }

  // ---------------------------------------------------------------------------
  // How the pair scan behaves

  /** The decoder fails exactly when no two hex digits are adjacent. */
  lemma {:induction false} NoPairsIff(s: string)
    ensures Pairs(s) == [] <==> !HasAdjacentHexDigits(s)
    decreases |s|
  {
    if |s| >= 2 {
      if IsHexDigit(s[0]) && IsHexDigit(s[1]) {
        assert Pairs(s) != [];
      } else {
        NoPairsIff(s[1..]);
        if HasAdjacentHexDigits(s) {
          var i :| 0 <= i < |s| - 1 && IsHexDigit(s[i]) && IsHexDigit(s[i + 1]);
          assert s[1..][i - 1] == s[i] && s[1..][i] == s[i + 1];
        }
        if HasAdjacentHexDigits(s[1..]) {
          var i :| 0 <= i < |s[1..]| - 1 && IsHexDigit(s[1..][i]) && IsHexDigit(s[1..][i + 1]);
          assert IsHexDigit(s[i + 1]) && IsHexDigit(s[i + 2]);
        }
      }
    }
  }

  /** A string of hex digits splits into consecutive pairs, in order; an odd last digit is left over. */
  lemma {:induction false} PairsOfHexString(s: string)
    requires IsHexString(s)
    ensures |Pairs(s)| == |s| / 2
    ensures forall i | 0 <= i < |s| / 2 :: Pairs(s)[i] == s[2 * i..2 * i + 2]
    decreases |s|
  {
    if |s| >= 2 {
      assert IsHexDigit(s[0]) && IsHexDigit(s[1]);
      PairsOfHexString(s[2..]);
      forall i | 0 <= i < |s| / 2 ensures Pairs(s)[i] == s[2 * i..2 * i + 2] {
        if i > 0 {
          assert Pairs(s)[i] == Pairs(s[2..])[i - 1];
          assert s[2..][2 * (i - 1)..2 * (i - 1) + 2] == s[2 * i..2 * i + 2];
        }
      }
    }
  }

  /** An even-length run of hex digits is consumed in whole pairs, so the scan of
      what follows starts fresh. */
  lemma {:induction false} EvenHexPrefixSplits(s: string, t: string)
    requires IsHexString(s) && |s| % 2 == 0
    ensures Pairs(s + t) == Pairs(s) + Pairs(t)
    decreases |s|
  {
    if s == [] {
      assert s + t == t;
    } else {
      assert IsHexDigit(s[0]) && IsHexDigit(s[1]);
      assert (s + t)[..2] == s[..2];
      assert (s + t)[2..] == s[2..] + t;
      EvenHexPrefixSplits(s[2..], t);
    }
  }

  /** A character that is not a hex digit can never be part of a pair: the text
      before it and the text after it are scanned independently. */
  lemma {:induction false} NonHexSeparates(a: string, c: char, b: string)
    requires !IsHexDigit(c)
    ensures Pairs(a + [c] + b) == Pairs(a) + Pairs(b)
    decreases |a|
  {
    var s := a + [c] + b;
    if |a| == 0 {
      assert s == [c] + b;
      if |s| >= 2 { assert s[1..] == b; }
    } else if |a| == 1 {
      assert s[1..] == [c] + b;
      assert ([c] + b)[1..] == b;
    } else {
      assert s[..2] == a[..2];
      assert s[1..] == a[1..] + [c] + b;
      assert s[2..] == a[2..] + [c] + b;
      if IsHexDigit(a[0]) && IsHexDigit(a[1]) {
        NonHexSeparates(a[2..], c, b);
      } else {
        NonHexSeparates(a[1..], c, b);
      }
    }
  }

  /** Stripping the prefix never changes which pairs are found: in `0x...` the `x`
      is not a hex digit, so the `0` could not have paired with anything. */
  lemma StripPrefixKeepsPairs(s: string)
    ensures Pairs(StripPrefix(s)) == Pairs(s)
  {
    if |s| >= 2 && s[0] == '0' && s[1] == 'x' {
      assert s == [s[0]] + ['x'] + s[2..];
      NonHexSeparates([s[0]], 'x', s[2..]);
    }
  }

  /** The result depends on the pairs of the unstripped input alone. */
  lemma DecodeByPairs(s: string)
    ensures HexStringToArrayBuffer(s) ==
              if Pairs(s) == [] then Err(NoHexPairs) else Ok(ToBytes(Pairs(s)))
  {
    StripPrefixKeepsPairs(s);
  }

  // ---------------------------------------------------------------------------
  // Properties of the decoder

  /** The decoder throws exactly when the input, prefix or not, has no two adjacent hex digits. */
  lemma FailsIffNoAdjacentHexDigits(s: string)
    ensures HexStringToArrayBuffer(s).Err? <==> !HasAdjacentHexDigits(s)
  {
    DecodeByPairs(s);
    NoPairsIff(s);
  }

  /** Failing inputs: the empty string, a bare prefix, a single digit. */
  lemma FailureExamples()
    ensures HexStringToArrayBuffer("") == Err(NoHexPairs)
    ensures HexStringToArrayBuffer("0x") == Err(NoHexPairs)
    ensures HexStringToArrayBuffer("a") == Err(NoHexPairs)
  {
    assert StripPrefix("0x") == [];
  }

  /** A string of 2n hex digits decodes to n bytes, the i-th from the i-th pair of digits. */
  lemma DecodeHexString(s: string)
    requires IsHexString(s) && |s| > 0 && |s| % 2 == 0
    ensures HexStringToArrayBuffer(s).Ok?
    ensures |HexStringToArrayBuffer(s).value| == |s| / 2
    ensures forall i | 0 <= i < |s| / 2 ::
              HexStringToArrayBuffer(s).value[i] as int
              == 16 * HexDigitValue(s[2 * i]) + HexDigitValue(s[2 * i + 1])
  {
    PairsOfHexString(s);
    DecodeByPairs(s);
    var ps := Pairs(s);
    forall i | 0 <= i < |s| / 2
      ensures PairValue(ps[i]) == 16 * HexDigitValue(s[2 * i]) + HexDigitValue(s[2 * i + 1])
    {
      assert ps[i][0] == s[2 * i] && ps[i][1] == s[2 * i + 1];
    }
  }

  /** Inputs with the same pairs decode alike, whatever else they contain. */
  lemma SamePairsSameResult(s: string, t: string)
    requires Pairs(s) == Pairs(t)
    ensures HexStringToArrayBuffer(s) == HexStringToArrayBuffer(t)
  {
    DecodeByPairs(s);
    DecodeByPairs(t);
  }

  /** A leading `0x` or `0X` never changes the result, whatever follows it. */
  lemma PrefixIgnored(s: string)
    ensures HexStringToArrayBuffer("0x" + s) == HexStringToArrayBuffer(s)
    ensures HexStringToArrayBuffer("0X" + s) == HexStringToArrayBuffer(s)
  {
    assert "0x" + s == "0" + ['x'] + s;
    ZeroThenNonHexIgnored('x', s);
    assert "0X" + s == "0" + ['X'] + s;
    ZeroThenNonHexIgnored('X', s);
  }

  /** A leading `0` followed by a non-hex character contributes nothing to the result. */
  lemma ZeroThenNonHexIgnored(c: char, s: string)
    requires !IsHexDigit(c)
    ensures HexStringToArrayBuffer("0" + [c] + s) == HexStringToArrayBuffer(s)
  {
    NonHexSeparates("0", c, s);
    assert Pairs("0") + Pairs(s) == Pairs(s);
    SamePairsSameResult("0" + [c] + s, s);
  }

  /** Only one lowercase `0x`, and only at position 0, is removed; `0X` stays, and
      so its `X` is reported as a non-hex character. */
  lemma StripPrefixOnce(s: string)
    ensures StripPrefix("0x" + s) == s
    ensures StripPrefix("0x0x" + s) == "0x" + s
    ensures StripPrefix("0X" + s) == "0X" + s
    ensures NonHexCharacters('X', 1) in ConsoleLog("0X" + s)
  {
    assert ("0x" + s)[2..] == s;
    assert ("0x0x" + s)[2..] == "0x" + s;
    var t := "0X" + s;
    assert t[0] == '0' && t[1] == 'X';
    assert !IsFlagged(t[0]) && IsFlagged(t[1]);
  }

  /** A hex string is never stripped: its second character is not `x`. */
  lemma HexStringNotStripped(s: string)
    requires IsHexString(s)
    ensures StripPrefix(s) == s
  {
    if |s| >= 2 { assert IsHexDigit(s[1]); }
  }

  /** An odd trailing hex digit is dropped silently: only the log notices it. */
  lemma OddTrailingDigitDropped(s: string, d: char)
    requires IsHexString(s) && |s| % 2 == 0 && IsHexDigit(d)
    ensures HexStringToArrayBuffer(s + [d]) == HexStringToArrayBuffer(s)
    ensures OddLength in ConsoleLog(s + [d])
  {
    assert IsHexString(s + [d]) by {
      forall i | 0 <= i < |s + [d]| ensures IsHexDigit((s + [d])[i]) {
        if i < |s| { assert (s + [d])[i] == s[i]; }
      }
    }
    HexStringNotStripped(s + [d]);
    EvenHexPrefixSplits(s, [d]);
    assert Pairs(s + [d]) == Pairs(s);
    DecodeByPairs(s);
    DecodeByPairs(s + [d]);
  }

  /** Decoding splits at a character that is not a hex digit: such a character
      never makes the decoder fail by itself, and the bytes on either side of it
      are those of each side alone. */
  lemma NonHexSplitsDecoding(a: string, c: char, b: string)
    requires !IsHexDigit(c)
    ensures HexStringToArrayBuffer(a + [c] + b) ==
              match (HexStringToArrayBuffer(a), HexStringToArrayBuffer(b))
              case (Ok(x), Ok(y)) => Ok(x + y)
              case (Ok(x), Err(_)) => Ok(x)
              case (Err(_), r) => r
  {
    NonHexSeparates(a, c, b);
    DecodeByPairs(a);
    DecodeByPairs(b);
    DecodeByPairs(a + [c] + b);
    ToBytesAppend(Pairs(a), Pairs(b));
    if Pairs(a) == [] { assert Pairs(a) + Pairs(b) == Pairs(b); }
    if Pairs(b) == [] { assert Pairs(a) + Pairs(b) == Pairs(a); }
  }

  /** `"a-bc"`: the `-` keeps `a` from pairing, only `bc` is decoded, and no warning
      mentions the `-`, since the warning pattern covers letters and white space only. */
  lemma UnflaggedNonHexExample()
    ensures HexStringToArrayBuffer("a-bc") == Ok([0xbc])
    ensures ConsoleLog("a-bc") == []
    ensures !IsHexString("a-bc")
  {
    assert "a-bc" == "a" + ['-'] + "bc";
    NonHexSeparates("a", '-', "bc");
    assert Pairs("a") + Pairs("bc") == Pairs("bc");
    SamePairsSameResult("a-bc", "bc");
    DecodeTwoDigits('b', 'c');
    LogOfUnflaggedExample();
    assert !IsHexDigit("a-bc"[1]);
  }

  lemma LogOfUnflaggedExample()
    ensures ConsoleLog("a-bc") == []
  {
    var s := "a-bc";
    assert StripPrefix(s) == s;
    assert forall i | 0 <= i < |s| :: !IsFlagged(s[i]);
  }

  /** Two hex digits alone decode to the one byte they spell. */
  lemma DecodeTwoDigits(hi: char, lo: char)
    requires IsHexDigit(hi) && IsHexDigit(lo)
    ensures HexStringToArrayBuffer([hi, lo]) == Ok([(16 * HexDigitValue(hi) + HexDigitValue(lo)) as Byte])
  {
    var s := [hi, lo];
    assert IsHexString(s);
    DecodeHexString(s);
    var r := HexStringToArrayBuffer(s).value;
    assert |r| == 1;
    assert r[0] as int == 16 * HexDigitValue(hi) + HexDigitValue(lo);
    assert r == [r[0]];
  }

  /** Warnings are logged and the decoding goes on regardless: `"0X1 234"` is
      reported as odd-length and as holding a non-hex `X`, and still decodes. */
  lemma WarningsDoNotStopDecoding()
    ensures ConsoleLog("0X1 234") == [OddLength, NonHexCharacters('X', 1)]
    ensures HexStringToArrayBuffer("0X1 234") == Ok([0x23])
  {
    LogOfExample();
    DecodeOfExample();
  }

  lemma LogOfExample()
    ensures ConsoleLog("0X1 234") == [OddLength, NonHexCharacters('X', 1)]
  {
    var s := "0X1 234";
    assert StripPrefix(s) == s;
    assert !IsFlagged(s[0]) && IsFlagged(s[1]);
    assert FirstFlagged(s[1..]) == Some(0);
    assert FirstFlagged(s) == Some(1);
  }

  lemma DecodeOfExample()
    ensures HexStringToArrayBuffer("0X1 234") == Ok([0x23])
  {
    PairsOfExample();
    SamePairsSameResult("0X1 234", "23");
    DecodeTwoDigits('2', '3');
  }

  lemma PairsOfExample()
    ensures Pairs("0X1 234") == Pairs("23")
  {
    assert "0X1 234" == "0X1" + [' '] + "234";
    NonHexSeparates("0X1", ' ', "234");
    assert "0X1" == "0" + ['X'] + "1";
    NonHexSeparates("0", 'X', "1");
    assert "234" == "23" + "4";
    assert IsHexString("23");
    EvenHexPrefixSplits("23", "4");
  }

  // ---------------------------------------------------------------------------
  // Round trip with the hex rendering of bytes

  /** The two hex digits of a byte, high digit first. */
  function EncodeByte(b: Byte, upper: bool): (p: string)
    ensures IsHexPair(p) && PairValue(p) == b as int
  {
    [HexDigit(b as int / 16, upper), HexDigit(b as int % 16, upper)]
  }

  /** Bytes rendered as hex text, two digits per byte, letters in one case. */
  function Encode(bytes: seq<Byte>, upper: bool): (s: string)
    ensures |s| == 2 * |bytes|
    ensures IsHexString(s)
  {
    if bytes == [] then [] else EncodeByte(bytes[0], upper) + Encode(bytes[1..], upper)
  }

  lemma {:induction false} PairsOfEncode(bytes: seq<Byte>, upper: bool)
    ensures |Pairs(Encode(bytes, upper))| == |bytes|
    ensures forall i | 0 <= i < |bytes| :: Pairs(Encode(bytes, upper))[i] == EncodeByte(bytes[i], upper)
    decreases |bytes|
  {
    if bytes != [] {
      var p, rest := EncodeByte(bytes[0], upper), Encode(bytes[1..], upper);
      PairsOfEncode(bytes[1..], upper);
      EvenHexPrefixSplits(p, rest);
      assert Pairs(p) == [p] by {
        assert p[2..] == [];
        assert p[..2] == p;
      }
      forall i | 0 <= i < |bytes|
        ensures Pairs(Encode(bytes, upper))[i] == EncodeByte(bytes[i], upper)
      {
        if i > 0 { assert bytes[1..][i - 1] == bytes[i]; }
      }
    }
  }

  /** Rendering a non-empty byte sequence as hex, in either case, and decoding it
      gives the bytes back. */
  lemma EncodeThenDecode(bytes: seq<Byte>, upper: bool)
    requires |bytes| > 0
    ensures HexStringToArrayBuffer(Encode(bytes, upper)) == Ok(bytes)
  {
    var s := Encode(bytes, upper);
    PairsOfEncode(bytes, upper);
    DecodeByPairs(s);
    assert Pairs(s) != [];
    var r := ToBytes(Pairs(s));
    assert HexStringToArrayBuffer(s) == Ok(r);
    assert |r| == |bytes|;
    forall i | 0 <= i < |bytes| ensures r[i] == bytes[i] {
      assert Pairs(s)[i] == EncodeByte(bytes[i], upper);
      assert r[i] as int == PairValue(Pairs(s)[i]);
    }
    assert r == bytes;
  }

  lemma {:induction false} EncodeAt(bytes: seq<Byte>, upper: bool, i: nat)
    requires i < |bytes|
    ensures Encode(bytes, upper)[2 * i..2 * i + 2] == EncodeByte(bytes[i], upper)
    decreases i
  {
    var e, p, rest := Encode(bytes, upper), EncodeByte(bytes[0], upper), Encode(bytes[1..], upper);
    assert e == p + rest;
    if i == 0 {
      assert e[..2] == p;
    } else {
      EncodeAt(bytes[1..], upper, i - 1);
      PieceAfter(p, rest, 2 * (i - 1));
      assert bytes[1..][i - 1] == bytes[i];
    }
  }

  lemma PieceAfter(x: string, y: string, j: nat)
    requires j + 2 <= |y|
    ensures (x + y)[|x| + j..|x| + j + 2] == y[j..j + 2]
  {
  }

  /** Lowercase hex text of even, non-zero length is exactly the rendering of the
      bytes it decodes to: decoding loses nothing but letter case. */
  lemma DecodeThenEncode(s: string)
    requires IsHexString(s) && |s| > 0 && |s| % 2 == 0
    requires forall i | 0 <= i < |s| :: !('A' <= s[i] <= 'F')
    ensures HexStringToArrayBuffer(s).Ok?
    ensures Encode(HexStringToArrayBuffer(s).value, false) == s
  {
    DecodeHexString(s);
    var bytes := HexStringToArrayBuffer(s).value;
    assert |bytes| == |s| / 2;
    forall i | 0 <= i < |bytes| ensures EncodeByte(bytes[i], false) == s[2 * i..2 * i + 2] {
      EncodeByteOfDigits(s[2 * i], s[2 * i + 1], bytes[i]);
    }
    EncodeOfPieces(bytes, s);
  }

  /** Text cut into two-character pieces that are the renderings of `bytes`, in
      order, is the rendering of `bytes`. */
  lemma EncodeOfPieces(bytes: seq<Byte>, s: string)
    requires |s| == 2 * |bytes|
    requires forall i | 0 <= i < |bytes| :: EncodeByte(bytes[i], false) == s[2 * i..2 * i + 2]
    ensures Encode(bytes, false) == s
  {
    var e := Encode(bytes, false);
    forall k | 0 <= k < |s| ensures e[k] == s[k] {
      var i := k / 2;
      EncodeAt(bytes, false, i);
      assert e[2 * i..2 * i + 2] == s[2 * i..2 * i + 2];
      SameWithinPiece(e, s, 2 * i, k);
    }
  }

  lemma SameWithinPiece(x: string, y: string, j: nat, k: nat)
    requires j <= k < j + 2 <= |x| && j + 2 <= |y|
    requires x[j..j + 2] == y[j..j + 2]
    ensures x[k] == y[k]
  {
    assert x[k] == x[j..j + 2][k - j];
    assert y[k] == y[j..j + 2][k - j];
  }

  /** The lowercase rendering of the byte two lowercase hex digits spell is those digits. */
  lemma EncodeByteOfDigits(hi: char, lo: char, b: Byte)
    requires IsHexDigit(hi) && IsHexDigit(lo) && !('A' <= hi <= 'F') && !('A' <= lo <= 'F')
    requires b as int == 16 * HexDigitValue(hi) + HexDigitValue(lo)
    ensures EncodeByte(b, false) == [hi, lo]
  {
    assert b as int / 16 == HexDigitValue(hi) && b as int % 16 == HexDigitValue(lo);
    HexDigitOfValue(hi);
    HexDigitOfValue(lo);
  }
}
