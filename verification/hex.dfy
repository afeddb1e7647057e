/** The hex codec of server/utils/crypto.ts: byte arrays rendered as two lower-case hex
    digits per byte, and hex strings read back by splitting them with the global regular
    expression /.{1,2}/g and passing each piece through parseInt(…, 16) into a Uint8Array. */
module Hex {
  import opened Results
  import opened JsText
  import opened JsNumber

  predicate IsLowerHexDigit(c: char) {
    '0' <= c <= '9' || 'a' <= c <= 'f'
  }

  predicate IsLowerHex(s: string) {
    forall i :: 0 <= i < |s| ==> IsLowerHexDigit(s[i])
  }

  /** `b.toString(16).padStart(2, '0')`. */
  function ByteToHex(b: byte): string {
    PadStart(NatToString(b, 16), 2, '0')
  }

  /** A byte is written as its high digit then its low digit, zero-padded. */
  lemma ByteToHexDigits(b: byte)
    ensures ByteToHex(b) == [DigitChar(b / 16), DigitChar(b % 16)]
  {
    if b >= 16 {
      assert NatToString(b / 16, 16) == [DigitChar(b / 16)];
    }
  }

  /** `Array.from(bytes).map(b => b.toString(16).padStart(2, '0')).join('')`. */
  function EncodeHex(bs: seq<byte>): (s: string)
    ensures |s| == 2 * |bs|
    ensures IsLowerHex(s)
  {
    if |bs| == 0 then ""
    else
      var x, rest := ByteToHex(bs[0]), EncodeHex(bs[1..]);
      ByteToHexDigits(bs[0]);
      LowerHexConcat(x, rest);
      x + rest
  }

  lemma LowerHexConcat(a: string, b: string)
    requires IsLowerHex(a) && IsLowerHex(b)
    ensures IsLowerHex(a + b)
  {
    forall i | 0 <= i < |a + b| ensures IsLowerHexDigit((a + b)[i]) {
      if i >= |a| {
        assert (a + b)[i] == b[i - |a|];
      }
    }
  }

  /** The matches of /.{1,2}/g: from left to right, each match takes two characters when
      the next two are not line terminators and one otherwise; a line terminator is skipped. */
  function PairChunks(s: string): (cs: seq<string>)
    ensures forall k :: 0 <= k < |cs| ==> 1 <= |cs[k]| <= 2
    ensures (forall i :: 0 <= i < |s| ==> !IsLineTerminator(s[i])) ==> |cs| == (|s| + 1) / 2
    decreases |s|
  {
    if |s| == 0 then []
    else if IsLineTerminator(s[0]) then PairChunks(s[1..])
    else if |s| >= 2 && !IsLineTerminator(s[1]) then [s[..2]] + PairChunks(s[2..])
    else [s[..1]] + PairChunks(s[1..])
  }

  /** The characters of `s` that are not line terminators, in order. */
  function VisibleChars(s: string): (t: string)
    ensures |t| <= |s|
    ensures forall i :: 0 <= i < |t| ==> !IsLineTerminator(t[i])
    decreases |s|
  {
    if |s| == 0 then ""
    else (if IsLineTerminator(s[0]) then "" else [s[0]]) + VisibleChars(s[1..])
  }

  /** The pieces of `cs` written one after the other. */
  function Concat(cs: seq<string>): string {
    if |cs| == 0 then "" else cs[0] + Concat(cs[1..])
  }

  /** The matches are consecutive pieces of the string: put together they give back every
      character that is not a line terminator, in order, so on a string without line
      terminators they give back the string itself. */
  lemma {:induction false} PairChunksConcat(s: string)
    ensures Concat(PairChunks(s)) == VisibleChars(s)
    ensures (forall i :: 0 <= i < |s| ==> !IsLineTerminator(s[i])) ==> Concat(PairChunks(s)) == s
    decreases |s|
  {
    if |s| > 0 {
      if IsLineTerminator(s[0]) {
        PairChunksConcat(s[1..]);
      } else if |s| >= 2 && !IsLineTerminator(s[1]) {
        PairChunksConcat(s[2..]);
        ConcatCons(s[..2], PairChunks(s[2..]));
        VisibleTwo(s);
      } else {
        PairChunksConcat(s[1..]);
        ConcatCons(s[..1], PairChunks(s[1..]));
        assert s[..1] == [s[0]];
      }
    }
    VisibleCharsOfVisible(s);
  }

  lemma ConcatCons(x: string, cs: seq<string>)
    ensures Concat([x] + cs) == x + Concat(cs)
  {
    assert ([x] + cs)[1..] == cs;
  }

  /** Two visible characters in front are kept, in order. */
  lemma VisibleTwo(s: string)
    requires |s| >= 2 && !IsLineTerminator(s[0]) && !IsLineTerminator(s[1])
    ensures VisibleChars(s) == s[..2] + VisibleChars(s[2..])
  {
    assert s[1..][1..] == s[2..];
    assert s[1..][0] == s[1];
  }

  /** A string without line terminators is all visible. */
  lemma {:induction false} VisibleCharsOfVisible(s: string)
    ensures (forall i :: 0 <= i < |s| ==> !IsLineTerminator(s[i])) ==> VisibleChars(s) == s
    decreases |s|
  {
    if |s| > 0 && forall i :: 0 <= i < |s| ==> !IsLineTerminator(s[i]) {
      assert forall i :: 0 <= i < |s[1..]| ==> s[1..][i] == s[i + 1];
      VisibleCharsOfVisible(s[1..]);
      assert s == [s[0]] + s[1..];
    }
  }

  /** String.prototype.match with a global regular expression: null when nothing matches. */
  function MatchPairs(s: string): Option<seq<string>> {
    var cs := PairChunks(s);
    if |cs| == 0 then None else Some(cs)
  }

  /** `new Uint8Array(s.match(/.{1,2}/g)?.map((byte) => parseInt(byte, 16)) || [])`. */
  function DecodeHex(s: string): (bs: seq<byte>)
    ensures (forall i :: 0 <= i < |s| ==> !IsLineTerminator(s[i])) ==> |bs| == (|s| + 1) / 2
    ensures s == "" ==> bs == []
  {
    match MatchPairs(s)
    case None => []
    case Some(cs) => ParsePieces(cs)
  }

  /** Each piece through parseInt(…, 16) and into a Uint8Array element. */
  function ParsePieces(cs: seq<string>): (bs: seq<byte>)
    ensures |bs| == |cs|
    ensures forall k :: 0 <= k < |cs| ==> bs[k] == ToUint8(ParseIntHex(cs[k]))
  {
    if |cs| == 0 then [] else [ToUint8(ParseIntHex(cs[0]))] + ParsePieces(cs[1..])
  }

  /** The value of a two-digit hex string. */
  lemma ParseTwoDigits(s: string)
    requires |s| == 2 && AllDigits(s, 16)
    ensures ParseDigits(s, 16) == DigitValue(s[0]) * 16 + DigitValue(s[1])
  {
    assert s[..1][..0] == [];
    assert ParseDigits(s[..1], 16) == DigitValue(s[0]);
  }

  /** parseInt reads back the two digits ByteToHex writes. */
  lemma ParseByteToHex(b: byte)
    ensures AllDigits(ByteToHex(b), 16) && ParseDigits(ByteToHex(b), 16) == b
    ensures ParseIntHex(ByteToHex(b)) == Some(b as int)
  {
    ByteToHexDigits(b);
    var s := ByteToHex(b);
    ParseTwoDigits(s);
    assert ParseDigits(s, 16) == b / 16 * 16 + b % 16 == b;
    ParseIntHexOfDigits(s);
  }

  /** Hex encoding splits into the pairs of its bytes. */
  lemma {:induction false} PairChunksOfEncoding(bs: seq<byte>)
    ensures |PairChunks(EncodeHex(bs))| == |bs|
    ensures forall k :: 0 <= k < |bs| ==> PairChunks(EncodeHex(bs))[k] == ByteToHex(bs[k])
  {
    if |bs| > 0 {
      var s := EncodeHex(bs);
      EncodeHexFirst(bs);
      PairChunksCons(s);
      PairChunksOfEncoding(bs[1..]);
      var cs := PairChunks(s);
      assert cs[1..] == PairChunks(EncodeHex(bs[1..]));
      forall k | 1 <= k < |bs| ensures cs[k] == ByteToHex(bs[k]) {
        assert cs[k] == cs[1..][k - 1];
        assert bs[k] == bs[1..][k - 1];
      }
    }
  }

  /** The encoding of a non-empty byte sequence begins with the two digits of its first byte. */
  lemma EncodeHexFirst(bs: seq<byte>)
    requires |bs| > 0
    ensures |EncodeHex(bs)| >= 2
    ensures EncodeHex(bs)[..2] == ByteToHex(bs[0]) && EncodeHex(bs)[2..] == EncodeHex(bs[1..])
  {
    ByteToHexDigits(bs[0]);
  }

  /** Two characters that are not line terminators make the first match. */
  lemma PairChunksCons(s: string)
    requires |s| >= 2 && IsLowerHex(s)
    ensures PairChunks(s) == [s[..2]] + PairChunks(s[2..])
  {
    assert !IsLineTerminator(s[0]) && !IsLineTerminator(s[1]);
  }

  /** Decoding the hex rendering of a byte sequence returns the original bytes. */
  lemma DecodeEncodeHex(bs: seq<byte>)
    ensures DecodeHex(EncodeHex(bs)) == bs
  {
    PairChunksOfEncoding(bs);
    forall k | 0 <= k < |bs| ensures ToUint8(ParseIntHex(ByteToHex(bs[k]))) == bs[k] {
      ParseByteToHex(bs[k]);
    }
  }

  /** A lower-case hex digit written from its value is the same digit. */
  lemma DigitCharOfValue(c: char)
    requires IsLowerHexDigit(c)
    ensures DigitChar(DigitValue(c)) == c
  {
  }

  /** A pair of lower-case hex digits is the rendering of the byte parseInt reads from it. */
  lemma RenderParsedPair(pair: string)
    requires |pair| == 2 && IsLowerHex(pair)
    ensures ByteToHex(ToUint8(ParseIntHex(pair))) == pair
  {
    var b := ParsedPair(pair);
    ByteToHexDigits(b);
    DigitCharOfValue(pair[0]);
    DigitCharOfValue(pair[1]);
    assert pair == [pair[0], pair[1]];
  }

  /** The byte parseInt reads from a pair of lower-case hex digits, digit by digit. */
  lemma ParsedPair(pair: string) returns (b: byte)
    requires |pair| == 2 && IsLowerHex(pair)
    ensures b == ToUint8(ParseIntHex(pair))
    ensures b / 16 == DigitValue(pair[0]) && b % 16 == DigitValue(pair[1])
  {
    assert AllDigits(pair, 16);
    ParseIntHexOfDigits(pair);
    ParseTwoDigits(pair);
    b := ToUint8(ParseIntHex(pair));
  }

  /** Decoding a hex string without line terminators proceeds pair by pair. */
  lemma DecodeHexCons(s: string)
    requires |s| >= 2 && IsLowerHex(s)
    ensures DecodeHex(s) == [ToUint8(ParseIntHex(s[..2]))] + DecodeHex(s[2..])
  {
    PairChunksCons(s);
    var cs := PairChunks(s);
    assert cs[1..] == PairChunks(s[2..]);
  }

  /** Encoding proceeds byte by byte. */
  lemma EncodeHexCons(b: byte, bs: seq<byte>)
    ensures EncodeHex([b] + bs) == ByteToHex(b) + EncodeHex(bs)
  {
    assert ([b] + bs)[1..] == bs;
  }

  /** Conversely, an even-length lower-case hex string is the rendering of what it decodes to. */
  lemma {:induction false} EncodeDecodeHex(s: string)
    requires IsLowerHex(s) && |s| % 2 == 0
    ensures EncodeHex(DecodeHex(s)) == s
    decreases |s|
  {
    if |s| > 0 {
      LowerHexSuffix(s);
      assert |s[2..]| % 2 == 0;
      EncodeDecodeHex(s[2..]);
      EncodeDecodeStep(s);
      assert s == s[..2] + s[2..];
    }
  }

  lemma LowerHexSuffix(s: string)
    requires |s| >= 2 && IsLowerHex(s)
    ensures IsLowerHex(s[2..])
  {
    forall i | 0 <= i < |s| - 2 ensures IsLowerHexDigit(s[2..][i]) {
      assert s[2..][i] == s[i + 2];
    }
  }

  /** Decoding then encoding a hex string gives back its first pair, then proceeds with the rest. */
  lemma EncodeDecodeStep(s: string)
    requires |s| >= 2 && IsLowerHex(s)
    ensures EncodeHex(DecodeHex(s)) == s[..2] + EncodeHex(DecodeHex(s[2..]))
  {
    var b := ToUint8(ParseIntHex(s[..2]));
    DecodeHexCons(s);
    EncodeHexCons(b, DecodeHex(s[2..]));
    RenderParsedPair(s[..2]);
  }
}
