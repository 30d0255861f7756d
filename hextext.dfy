/** `hexToText` (hexToDecimal.cpp): split the input at white space, read
    each word with `std::stoi(word, nullptr, 16)` and append the low eight
    bits of its value as one character. `stoi` throws when a word has no
    hexadecimal digits or its value does not fit an `int`; nothing catches
    it, so the program stops there. */
module HexText {
  import opened Bytes
  import Wire

  /** The exceptions `std::stoi` throws. */
  datatype StoiError = InvalidArgument | OutOfRange

  type Conversion = Result<Bytes, StoiError>

  /** `isspace` in the "C" locale: space, \t, \n, \v, \f, \r. */
  predicate IsSpace(c: byte) {
    c == 0x20 || 0x09 <= c <= 0x0D
  }

  /** The value of a hexadecimal digit, either case. */
  function DigitValue(c: byte): Option<nat> {
    if 0x30 <= c <= 0x39 then Some(c - 0x30)
    else if 0x41 <= c <= 0x46 then Some(c - 0x41 + 10)
    else if 0x61 <= c <= 0x66 then Some(c - 0x61 + 10)
    else None
  }

  /** The length of the leading word: the octets before the first space. */
  function WordLength(s: Bytes): (n: nat)
    ensures n <= |s|
    ensures forall k | 0 <= k < n :: !IsSpace(s[k])
    ensures n < |s| ==> IsSpace(s[n])
  {
    if s == [] || IsSpace(s[0]) then 0 else 1 + WordLength(s[1..])
  }

  /** The words `ss >> byte` extracts, in order. */
  function Words(s: Bytes): (ws: seq<Bytes>)
    ensures forall w | w in ws :: w != [] && forall k | 0 <= k < |w| :: !IsSpace(w[k])
    decreases |s|
  {
    if s == [] then []
    else if IsSpace(s[0]) then Words(s[1..])
    else
      var n := WordLength(s);
      [s[..n]] + Words(s[n..])
  }

  /** The number of leading hexadecimal digits. */
  function DigitRun(s: Bytes): (n: nat)
    ensures n <= |s|
    ensures forall k | 0 <= k < n :: DigitValue(s[k]).Some?
    ensures n < |s| ==> DigitValue(s[n]).None?
  {
    if s == [] || DigitValue(s[0]).None? then 0 else 1 + DigitRun(s[1..])
  }

  /** The value of a run of hexadecimal digits, most significant first. */
  function HexValue(s: Bytes): nat
    requires forall k | 0 <= k < |s| :: DigitValue(s[k]).Some?
  {
    if s == [] then 0 else HexValue(s[..|s| - 1]) * 16 + DigitValue(s[|s| - 1]).value
  }

  const IntMin: int := -0x8000_0000
  const IntMax: int := 0x7FFF_FFFF

  /** `std::stoi(word, nullptr, 16)` as `strtol` reads a word: an optional
      sign, an optional "0x" or "0X", then the longest run of hexadecimal
      digits; the rest of the word is ignored. No digits at all is
      `invalid_argument`, except after a "0x" prefix, where the '0' is the
      number read; a value outside `int` is `out_of_range`. */
  function Stoi16(word: Bytes): Result<int, StoiError> {
    var negative := |word| > 0 && word[0] == 0x2D;                     // '-'
    var unsigned := if |word| > 0 && (word[0] == 0x2D || word[0] == 0x2B) then word[1..] else word;
    var prefixed := |unsigned| >= 2 && unsigned[0] == 0x30 && (unsigned[1] == 0x78 || unsigned[1] == 0x58);
    var digits := if prefixed then unsigned[2..] else unsigned;
    var n := DigitRun(digits);
    if n == 0 then
      if prefixed then Success(0) else Failure(InvalidArgument)
    else
      var magnitude: int := HexValue(digits[..n]);
      var value := if negative then -magnitude else magnitude;
      if value < IntMin || value > IntMax then Failure(OutOfRange) else Success(value)
  }

  /** The character `(char)value` appends: the low eight bits of the
      value in two's complement. */
  function LowOctet(value: int): byte {
    value % 256
  }

  /** `text` in front of a conversion that went through; a failure stays
      the failure. */
  function Prefixed(text: Bytes, r: Conversion): Conversion {
    if r.Success? then Success(text + r.value) else r
  }

  /** The words converted in order, stopping at the first one `stoi`
      rejects. */
  function DecodeWords(words: seq<Bytes>): Conversion {
    if words == [] then Success([])
    else
      var v := Stoi16(words[0]);
      if v.Failure? then Failure(v.error)
      else Prefixed([LowOctet(v.value)], DecodeWords(words[1..]))
  }

  /** The end of the word starting at `i`: the first space after it or the
      end of the input. */
  method WordEnd(s: Bytes, i: nat) returns (j: nat)
    requires i < |s| && !IsSpace(s[i])
    ensures i < j <= |s|
    ensures forall k | i <= k < j :: !IsSpace(s[k])
    ensures j == |s| || IsSpace(s[j])
  {
    j := i + 1;
    while j < |s| && !IsSpace(s[j])
      invariant i < j <= |s|
      invariant forall k | i <= k < j :: !IsSpace(s[k])
    {
      j := j + 1;
    }
  }

  /** `hexToText(hex)`: the `while (ss >> byte)` loop, with the word
      extraction written out as a cursor over the input. */
  method HexToText(hex: Bytes) returns (r: Conversion)
    ensures r == DecodeWords(Words(hex))
  {
    var text: Bytes := [];
    var i := 0;
    assert hex[0..] == hex;
    PrefixedEmpty(DecodeWords(Words(hex)));
    while i < |hex|
      invariant 0 <= i <= |hex|
      invariant DecodeWords(Words(hex)) == Prefixed(text, DecodeWords(Words(hex[i..])))
    {
      if IsSpace(hex[i]) {
        WordsSkipSpace(hex, i);
        i := i + 1;
      } else {
        var j := WordEnd(hex, i);
        WordsTakeWord(hex, i, j);
        DecodeFirstWord(hex[i..j], Words(hex[j..]));
        var v := Stoi16(hex[i..j]);
        if v.Failure? {
          return Failure(v.error);
        }
        PrefixedAppend(text, LowOctet(v.value), DecodeWords(Words(hex[j..])));
        text := text + [LowOctet(v.value)];
        i := j;
      }
    }
    assert hex[i..] == [];
    assert Words(hex[i..]) == [] && DecodeWords([]) == Success([]);
    assert text + [] == text;
    return Success(text);
  }

  /** A space before the cursor separates words and adds none. */
  lemma WordsSkipSpace(s: Bytes, i: nat)
    requires i < |s| && IsSpace(s[i])
    ensures Words(s[i..]) == Words(s[i + 1..])
  {
    assert s[i..][1..] == s[i + 1..];
  }

  /** Converting a first word, then the rest. */
  lemma DecodeFirstWord(w: Bytes, ws: seq<Bytes>)
    ensures Stoi16(w).Failure? ==> DecodeWords([w] + ws) == Failure(Stoi16(w).error)
    ensures Stoi16(w).Success? ==> DecodeWords([w] + ws) == Prefixed([LowOctet(Stoi16(w).value)], DecodeWords(ws))
  {
    assert ([w] + ws)[0] == w && ([w] + ws)[1..] == ws;
  }

  /** The word that starts at `i` and ends at `j` is the next word. */
  lemma WordsTakeWord(s: Bytes, i: nat, j: nat)
    requires i < j <= |s|
    requires forall k | i <= k < j :: !IsSpace(s[k])
    requires j == |s| || IsSpace(s[j])
    ensures Words(s[i..]) == [s[i..j]] + Words(s[j..])
  {
    var t := s[i..];
    WordLengthIs(t, j - i);
    assert t[..j - i] == s[i..j];
    assert t[j - i..] == s[j..];
  }

  lemma {:induction false} WordLengthIs(t: Bytes, n: nat)
    requires n <= |t|
    requires forall k | 0 <= k < n :: !IsSpace(t[k])
    requires n == |t| || IsSpace(t[n])
    ensures WordLength(t) == n
  {
    if n > 0 {
      WordLengthIs(t[1..], n - 1);
    }
  }

  lemma PrefixedEmpty(r: Conversion)
    ensures Prefixed([], r) == r
  {
    if r.Success? {
      assert [] + r.value == r.value;
    }
  }

  lemma PrefixedAppend(text: Bytes, b: byte, r: Conversion)
    ensures Prefixed(text, Prefixed([b], r)) == Prefixed(text + [b], r)
  {
    if r.Success? {
      assert text + ([b] + r.value) == text + [b] + r.value;
    }
  }

  /** One character per word, in order, each the low eight bits of the
      word's value; and the conversion goes through exactly when `stoi`
      accepts every word. */
  lemma {:induction false} OneCharacterPerWord(words: seq<Bytes>)
    ensures DecodeWords(words).Success? <==> forall i | 0 <= i < |words| :: Stoi16(words[i]).Success?
    ensures DecodeWords(words).Success? ==>
      && |DecodeWords(words).value| == |words|
      && forall i | 0 <= i < |words| :: DecodeWords(words).value[i] == LowOctet(Stoi16(words[i]).value)
  {
    if words != [] {
      var w := words[0];
      var rest := words[1..];
      OneCharacterPerWord(rest);
      DecodeFirstWord(w, rest);
      assert words == [w] + rest;
      if DecodeWords(words).Success? {
        CharactersShift(words, DecodeWords(words).value, DecodeWords(rest).value);
      }
      if forall i | 0 <= i < |words| :: Stoi16(words[i]).Success? {
        AcceptedTail(words);
      }
    }
  }

  /** Every word accepted means every word after the first accepted. */
  lemma AcceptedTail(words: seq<Bytes>)
    requires words != [] && forall i | 0 <= i < |words| :: Stoi16(words[i]).Success?
    ensures forall i | 0 <= i < |words| - 1 :: Stoi16(words[1..][i]).Success?
  {
    forall i | 0 <= i < |words| - 1 ensures Stoi16(words[1..][i]).Success? {
      assert words[1..][i] == words[i + 1];
    }
  }

  /** The first word's character in front of the characters of the others. */
  lemma CharactersShift(words: seq<Bytes>, out: Bytes, later: Bytes)
    requires words != [] && Stoi16(words[0]).Success?
    requires out == [LowOctet(Stoi16(words[0]).value)] + later
    requires |later| == |words| - 1
    requires forall i | 0 <= i < |words| - 1 ::
      Stoi16(words[1..][i]).Success? && later[i] == LowOctet(Stoi16(words[1..][i]).value)
    ensures forall i | 0 <= i < |words| :: Stoi16(words[i]).Success? && out[i] == LowOctet(Stoi16(words[i]).value)
  {
    forall i | 0 <= i < |words|
      ensures Stoi16(words[i]).Success? && out[i] == LowOctet(Stoi16(words[i]).value)
    {
      if i > 0 {
        assert words[i] == words[1..][i - 1];
      }
    }
  }

  /** A failed conversion carries the exception of the first word `stoi`
      rejects: every word before it was accepted. */
  lemma {:induction false} FirstRejectedWord(words: seq<Bytes>)
    ensures DecodeWords(words).Failure? ==>
      exists i | 0 <= i < |words| ::
        && Stoi16(words[i]) == Failure(DecodeWords(words).error)
        && forall k | 0 <= k < i :: Stoi16(words[k]).Success?
  {
    if words != [] {
      var w := words[0];
      var rest := words[1..];
      DecodeFirstWord(w, rest);
      assert words == [w] + rest;
      if Stoi16(w).Failure? {
        assert Stoi16(words[0]) == Failure(DecodeWords(words).error);
      } else if DecodeWords(rest).Failure? {
        FirstRejectedWord(rest);
        var i :| 0 <= i < |rest| && Stoi16(rest[i]) == Failure(DecodeWords(rest).error)
                 && forall k | 0 <= k < i :: Stoi16(rest[k]).Success?;
        AcceptedBefore(words, i);
      }
    }
  }

  /** Shifting a rejected word of `words[1..]` back by one, past an
      accepted first word. */
  lemma AcceptedBefore(words: seq<Bytes>, i: nat)
    requires i + 1 < |words| && Stoi16(words[0]).Success?
    requires forall k | 0 <= k < i :: Stoi16(words[1..][k]).Success?
    ensures words[i + 1] == words[1..][i]
    ensures forall k | 0 <= k < i + 1 :: Stoi16(words[k]).Success?
  {
    forall k | 0 <= k < i + 1 ensures Stoi16(words[k]).Success? {
      if k > 0 {
        assert words[k] == words[1..][k - 1];
      }
    }
  }

  /** Input that is empty or all white space has no words and gives the
      empty text. */
  lemma {:induction false} BlankInputGivesEmptyText(s: Bytes)
    requires forall k | 0 <= k < |s| :: IsSpace(s[k])
    ensures Words(s) == []
    ensures DecodeWords(Words(s)) == Success([])
    decreases |s|
  {
    if s != [] {
      BlankInputGivesEmptyText(s[1..]);
    }
  }

  /** The upper-case digit for a value below 16. */
  function HexDigit(d: nat): byte
    requires d < 16
  {
    if d < 10 then 0x30 + d else 0x41 + d - 10
  }

  /** An octet written as two hexadecimal digits. */
  function HexPair(b: byte): Bytes {
    [HexDigit(b / 16), HexDigit(b % 16)]
  }

  /** Octets written as two-digit hexadecimal words separated by single
      spaces, as in "48 6F 6C 61". */
  function HexEncode(bs: Bytes): Bytes
    decreases |bs|
  {
    if |bs| == 0 then []
    else if |bs| == 1 then HexPair(bs[0])
    else HexPair(bs[0]) + [0x20] + HexEncode(bs[1..])
  }

  /** A two-digit word reads back as its octet. */
  lemma PairReadsBack(b: byte)
    ensures Stoi16(HexPair(b)) == Success(b)
    ensures LowOctet(b) == b
  {
    var p := HexPair(b);
    assert DigitValue(p[0]) == Some(b / 16);
    assert DigitValue(p[1]) == Some(b % 16);
    assert DigitRun(p[2..]) == 0;
    assert DigitRun(p) == 2;
    assert p[..2] == p;
    var hi := p[..1];
    assert hi[..0] == [] && hi[0] == p[0] && p[..|p| - 1] == hi;
    assert HexValue(hi) == b / 16;
    assert HexValue(p) == b / 16 * 16 + b % 16;
  }

  lemma HexPairIsWord(b: byte, rest: Bytes)
    requires rest == [] || IsSpace(rest[0])
    ensures Words(HexPair(b) + rest) == [HexPair(b)] + Words(rest)
  {
    var s := HexPair(b) + rest;
    assert !IsSpace(s[0]) && !IsSpace(s[1]);
    WordsTakeWord(s, 0, 2);
    assert s[0..] == s && s[0..2] == HexPair(b) && s[2..] == rest;
  }

  /** `hexToText` gives back any octets written as space-separated
      two-digit hexadecimal words. */
  lemma {:induction false} HexRoundTrip(bs: Bytes)
    ensures DecodeWords(Words(HexEncode(bs))) == Success(bs)
    decreases |bs|
  {
    if |bs| == 1 {
      OnePairRoundTrip(bs[0]);
      assert bs == [bs[0]];
    } else if |bs| > 1 {
      HexRoundTrip(bs[1..]);
      PairThenRest(bs);
    }
  }

  /** One more pair in front of an encoding that reads back. */
  lemma PairThenRest(bs: Bytes)
    requires |bs| > 1
    requires DecodeWords(Words(HexEncode(bs[1..]))) == Success(bs[1..])
    ensures DecodeWords(Words(HexEncode(bs))) == Success(bs)
  {
    var w := HexPair(bs[0]);
    var rest := Words(HexEncode(bs[1..]));
    WordsOfEncoding(bs);
    PairReadsBack(bs[0]);
    DecodeFirstWord(w, rest);
    assert DecodeWords([w] + rest) == Prefixed([bs[0]], Success(bs[1..]));
    FirstThenRest(bs);
  }

  lemma OnePairRoundTrip(b: byte)
    ensures DecodeWords(Words(HexEncode([b]))) == Success([b])
  {
    HexPairIsWord(b, []);
    assert HexPair(b) + [] == HexPair(b);
    assert Words([]) == [];
    PairReadsBack(b);
    DecodeFirstWord(HexPair(b), []);
    assert [HexPair(b)] + [] == [HexPair(b)];
    assert DecodeWords([]) == Success([]);
    assert [b] + [] == [b];
  }

  lemma FirstThenRest(bs: Bytes)
    requires bs != []
    ensures [bs[0]] + bs[1..] == bs
  {
  }

  /** The first word of an encoding of two or more octets is the first
      pair. */
  lemma WordsOfEncoding(bs: Bytes)
    requires |bs| > 1
    ensures Words(HexEncode(bs)) == [HexPair(bs[0])] + Words(HexEncode(bs[1..]))
  {
    var pair := HexPair(bs[0]);
    var tail := HexEncode(bs[1..]);
    var spaced: Bytes := [0x20] + tail;
    assert HexEncode(bs) == pair + [0x20] + tail;
    Wire.Concat3(pair, [0x20], tail);
    HexPairIsWord(bs[0], spaced);
    WordsSkipSpace(spaced, 0);
    assert spaced[0..] == spaced && spaced[1..] == tail;
  }
}
