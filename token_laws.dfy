/** Properties of the token stream: each field's encoding read back, the interleaved
    decoder against tokenize-then-apply, the output length, and worked examples. */
module TokenLaws {
  import opened Bytes
  import opened Results
  import opened TokenStream

  /** `p` holds the bytes `enc` starting at position `pos`, one byte after another. */
  predicate HoldsAt(p: seq<Byte>, pos: nat, enc: seq<Byte>)
    decreases |enc|
  {
    pos + |enc| <= |p| && (enc == [] || (p[pos] == enc[0] && HoldsAt(p, pos + 1, enc[1..])))
  }

  /** Bytes held at a position, read one at a time. */
  lemma {:induction false} HoldsAtIndex(p: seq<Byte>, pos: nat, enc: seq<Byte>, i: nat)
    requires HoldsAt(p, pos, enc) && i < |enc|
    ensures p[pos + i] == enc[i]
    decreases i
  {
    if i > 0 {
      HoldsAtIndex(p, pos + 1, enc[1..], i - 1);
    }
  }

  /** Holding bytes at a position is the same as the slice there being those bytes. */
  lemma HoldsAtSlice(p: seq<Byte>, pos: nat, enc: seq<Byte>)
    requires HoldsAt(p, pos, enc)
    ensures p[pos..pos + |enc|] == enc
  {
    forall i | 0 <= i < |enc| ensures p[pos..pos + |enc|][i] == enc[i] {
      HoldsAtIndex(p, pos, enc, i);
    }
  }

  /** A slice that is `enc` holds `enc`. */
  lemma {:induction false} SliceHoldsAt(p: seq<Byte>, pos: nat, enc: seq<Byte>)
    requires pos + |enc| <= |p| && p[pos..pos + |enc|] == enc
    ensures HoldsAt(p, pos, enc)
    decreases |enc|
  {
    if enc != [] {
      assert p[pos] == p[pos..pos + |enc|][0];
      assert p[pos + 1..pos + 1 + |enc[1..]|] == p[pos..pos + |enc|][1..];
      SliceHoldsAt(p, pos + 1, enc[1..]);
    }
  }

  /** Bytes held at a position, split into their two parts; the second starts at `mid`. */
  lemma {:induction false} HoldsAtSplit(p: seq<Byte>, pos: nat, a: seq<Byte>, b: seq<Byte>, mid: nat)
    requires HoldsAt(p, pos, a + b) && mid == pos + |a|
    ensures HoldsAt(p, pos, a) && HoldsAt(p, mid, b)
    decreases |a|
  {
    if a != [] {
      assert (a + b)[0] == a[0] && (a + b)[1..] == a[1..] + b;
      HoldsAtSplit(p, pos + 1, a[1..], b, mid);
    } else {
      assert a + b == b;
    }
  }

  // ---------------------------------------------------------------------------
  // Literal count

  /** The control byte, and the extension byte when needed, that carry a literal count. */
  function EncodeLiteralCount(count: nat, lowNibble: nat): (s: seq<Byte>)
    requires count <= MaxLiteralRun && lowNibble < 16
    ensures |s| == if count < LiteralEscape then 1 else 2
    ensures LowNibble(s[0]) == lowNibble
  {
    if count < LiteralEscape then [count * 16 + lowNibble]
    else [LiteralEscape * 16 + lowNibble, count - LiteralEscape]
  }

  /** Every count from 0 to 270 is read back from its encoding, which is consumed exactly. */
  lemma LiteralCountRoundTrip(count: nat, lowNibble: nat, p: seq<Byte>, pos: nat)
    requires count <= MaxLiteralRun && lowNibble < 16
    requires HoldsAt(p, pos, EncodeLiteralCount(count, lowNibble))
    ensures pos < |p| && LowNibble(p[pos]) == lowNibble
    ensures ReadLiteralCount(p, pos) == Ok((count, pos + |EncodeLiteralCount(count, lowNibble)|))
  {
    var enc := EncodeLiteralCount(count, lowNibble);
    HoldsAtIndex(p, pos, enc, 0);
    if count >= LiteralEscape {
      HoldsAtIndex(p, pos, enc, 1);
    }
  }

  /** A token's literal run is exactly the payload bytes that follow its literal count,
      unchanged and in order, and the token has no back-reference exactly when that
      run reaches the end of the payload. */
  lemma ReadTokenLiterals(p: seq<Byte>, pos: nat)
    requires pos < |p| && ReadToken(p, pos).Ok?
    ensures ReadLiteralCount(p, pos).Ok?
    ensures var (n, at) := ReadLiteralCount(p, pos).value;
            var t := ReadToken(p, pos).value.0;
            at + n <= |p| && t.literals == p[at..at + n] &&
            (t.Literals? <==> at + n == |p|)
  {
  }

  /** Control byte 0xF0 with extension 0x00 gives 15 literals, with 0x05 gives 20; a
      missing extension byte is truncated input. */
  lemma LiteralCountExamples()
    ensures ReadLiteralCount([0xF0, 0x00], 0) == Ok((15, 2))
    ensures ReadLiteralCount([0xF0, 0x05], 0) == Ok((20, 2))
    ensures ReadLiteralCount([0xF0], 0) == Err(TruncatedInput)
    ensures ReadLiteralCount([0x3A, 0x05], 0) == Ok((3, 1))
  {
    assert HighNibble(0xF0) == 15 && HighNibble(0x3A) == 3;
  }

  // ---------------------------------------------------------------------------
  // Back-reference length chain

  /** What a length chain is: a run of 0xFF bytes closed by the first byte that is not
      0xFF, each 0xFF adding 255 and the closing byte adding its value. The chain fails
      exactly when no closing byte follows before the end of the payload. */
  lemma {:induction false} ChainShape(p: seq<Byte>, pos: nat, acc: nat)
    requires pos <= |p|
    ensures ReadChain(p, pos, acc).Err? <==> forall i :: pos <= i < |p| ==> p[i] == AllOnes
    ensures ReadChain(p, pos, acc).Ok? ==>
              var (sum, end) := ReadChain(p, pos, acc).value;
              p[end - 1] != AllOnes && (forall i :: pos <= i < end - 1 ==> p[i] == AllOnes) &&
              sum == acc + 255 * (end - 1 - pos) + p[end - 1]
    decreases |p| - pos
  {
    if pos < |p| && p[pos] == AllOnes {
      ChainShape(p, pos + 1, acc + AllOnes);
    }
  }

  /** The chain of extension bytes that adds `n` to a back-reference length: one 0xFF
      per full 255, then the remainder. */
  function EncodeChain(n: nat): (s: seq<Byte>)
    decreases n
    ensures |s| >= 1
  {
    if n < 255 then [n] else [AllOnes] + EncodeChain(n - 255)
  }

  /** Reading the chain that encodes `n` adds exactly `n` and consumes exactly the chain. */
  lemma {:induction false} ChainRoundTrip(n: nat, acc: nat, p: seq<Byte>, pos: nat)
    requires HoldsAt(p, pos, EncodeChain(n))
    ensures ReadChain(p, pos, acc) == Ok((acc + n, pos + |EncodeChain(n)|))
    decreases n
  {
    HoldsAtIndex(p, pos, EncodeChain(n), 0);
    if n >= 255 {
      HoldsAtSplit(p, pos, [AllOnes], EncodeChain(n - 255), pos + 1);
      ChainRoundTrip(n - 255, acc + AllOnes, p, pos + 1);
    }
  }

  /** Low nibble 15 with extension bytes FF FF 0A gives 4 + 15 + 255 + 255 + 10 = 539;
      a chain of only 0xFF bytes is truncated input. */
  lemma CopyLengthExamples()
    ensures ReadCopyLength([0xFF, 0xFF, 0x0A], 0, 15) == Ok((539, 3))
    ensures ReadCopyLength([0xFF, 0xFF], 0, 15) == Err(TruncatedInput)
    ensures ReadCopyLength([0xFF], 0, 3) == Ok((7, 0))
  {
    var p := [0xFF, 0xFF, 0x0A];
    assert ReadChain(p, 2, 529) == Ok((539, 3));
    assert ReadChain(p, 1, 274) == ReadChain(p, 2, 529);
    var q := [0xFF, 0xFF];
    assert ReadChain(q, 2, 529) == Err(TruncatedInput);
  }

  // ---------------------------------------------------------------------------
  // Whole tokens

  /** A token that some byte sequence encodes: at most 270 literals, a 16-bit distance
      and a back-reference length of at least 4. */
  predicate WellFormedToken(t: Token) {
    |t.literals| <= MaxLiteralRun &&
    (t.LiteralsThenCopy? ==> t.distance < 0x1_0000 && MinCopyLength <= t.length)
  }

  /** The low nibble that carries a back-reference length of at least 4. */
  function CopyLengthNibble(length: nat): (n: nat)
    requires MinCopyLength <= length
    ensures n < 16
  {
    if length - MinCopyLength < LengthEscape then length - MinCopyLength else LengthEscape
  }

  /** The extension chain that follows the distance for a back-reference length of at
      least 4; empty when the length fits the low nibble. */
  function EncodeCopyLength(length: nat): seq<Byte>
    requires MinCopyLength <= length
  {
    if length - MinCopyLength < LengthEscape then [] else EncodeChain(length - MinCopyLength - LengthEscape)
  }

  /** A back-reference length is read back from its nibble and its chain. */
  lemma CopyLengthRoundTrip(length: nat, p: seq<Byte>, pos: nat)
    requires MinCopyLength <= length && HoldsAt(p, pos, EncodeCopyLength(length))
    ensures ReadCopyLength(p, pos, CopyLengthNibble(length)) == Ok((length, pos + |EncodeCopyLength(length)|))
  {
    if CopyLengthNibble(length) == LengthEscape {
      ChainRoundTrip(length - MinCopyLength - LengthEscape, MinCopyLength + LengthEscape, p, pos);
    }
  }

  /** The low nibble of a token's control byte. */
  function LengthNibble(t: Token): (n: nat)
    requires WellFormedToken(t)
    ensures n < 16
  {
    if t.Literals? then 0 else CopyLengthNibble(t.length)
  }

  /** The bytes of the back-reference part of a token: the distance and the length
      chain; none for a token without a back-reference. */
  function EncodeCopy(t: Token): (s: seq<Byte>)
    requires WellFormedToken(t)
  {
    match t
    case Literals(_) => []
    case LiteralsThenCopy(_, distance, length) => EncodeU16(distance) + EncodeCopyLength(length)
  }

  /** The bytes of one token: control byte, literal extension, literals, and for a
      back-reference the distance and the length chain. */
  function EncodeToken(t: Token): (s: seq<Byte>)
    requires WellFormedToken(t)
    ensures |s| >= 1 + |t.literals|
  {
    EncodeLiteralCount(|t.literals|, LengthNibble(t)) + t.literals + EncodeCopy(t)
  }

  /** A little-endian 16-bit value held at a position is read back. */
  lemma U16At(v: nat, p: seq<Byte>, pos: nat)
    requires v < 0x1_0000 && HoldsAt(p, pos, EncodeU16(v))
    ensures pos + 2 <= |p| && LeU16(p, pos) == v
  {
    HoldsAtIndex(p, pos, EncodeU16(v), 0);
    HoldsAtIndex(p, pos, EncodeU16(v), 1);
  }

  /** How `ReadToken` reads a token whose literals end the payload. */
  lemma ReadFinalLiterals(p: seq<Byte>, pos: nat, t: Token, at: nat)
    requires t.Literals? && pos < |p|
    requires ReadLiteralCount(p, pos) == Ok((|t.literals|, at)) && at + |t.literals| == |p|
    requires p[at..at + |t.literals|] == t.literals
    ensures ReadToken(p, pos) == Ok((t, |p|))
  {
  }

  /** How `ReadToken` reads a token with a back-reference. */
  lemma ReadLiteralsThenCopy(p: seq<Byte>, pos: nat, at: nat, lits: seq<Byte>, distance: nat,
                             nibble: nat, length: nat, end: nat)
    requires pos < |p| && ReadLiteralCount(p, pos) == Ok((|lits|, at)) && at + |lits| + 2 <= |p|
    requires p[at..at + |lits|] == lits && LeU16(p, at + |lits|) == distance
    requires LowNibble(p[pos]) == nibble && ReadCopyLength(p, at + |lits| + 2, nibble) == Ok((length, end))
    ensures ReadToken(p, pos) == Ok((LiteralsThenCopy(lits, distance, length), end))
  {
  }

  /** Bytes held at a position, split into four consecutive parts that start at `pos`,
      `at`, `cat` and `dat`. */
  lemma HoldsAtParts(p: seq<Byte>, pos: nat, a: seq<Byte>, b: seq<Byte>, c: seq<Byte>, d: seq<Byte>,
                     at: nat, cat: nat, dat: nat)
    requires HoldsAt(p, pos, (a + b) + (c + d))
    requires at == pos + |a| && cat == at + |b| && dat == cat + |c|
    ensures HoldsAt(p, pos, a) && HoldsAt(p, at, b) && HoldsAt(p, cat, c) && HoldsAt(p, dat, d)
  {
    HoldsAtSplit(p, pos, a + b, c + d, cat);
    HoldsAtSplit(p, pos, a, b, at);
    HoldsAtSplit(p, cat, c, d, dat);
  }

  /** The literal count held at `pos` is read back, with the position after it. */
  lemma LiteralCountAt(count: nat, nibble: nat, p: seq<Byte>, pos: nat, lc: seq<Byte>, at: nat)
    requires count <= MaxLiteralRun && nibble < 16 && lc == EncodeLiteralCount(count, nibble)
    requires HoldsAt(p, pos, lc) && at == pos + |lc|
    ensures pos < |p| && LowNibble(p[pos]) == nibble && ReadLiteralCount(p, pos) == Ok((count, at))
  {
    LiteralCountRoundTrip(count, nibble, p, pos);
  }

  /** The back-reference length whose chain is held at `pos` is read back, with the
      position after it. */
  lemma CopyLengthAt(length: nat, p: seq<Byte>, pos: nat, chain: seq<Byte>, end: nat)
    requires MinCopyLength <= length && chain == EncodeCopyLength(length)
    requires HoldsAt(p, pos, chain) && end == pos + |chain|
    ensures ReadCopyLength(p, pos, CopyLengthNibble(length)) == Ok((length, end))
  {
    CopyLengthRoundTrip(length, p, pos);
  }

  /** A literal-only token that ends the payload is read back. */
  lemma FinalTokenPartsRoundTrip(lits: seq<Byte>, p: seq<Byte>, pos: nat, lc: seq<Byte>, at: nat)
    requires |lits| <= MaxLiteralRun && lc == EncodeLiteralCount(|lits|, 0)
    requires HoldsAt(p, pos, lc) && at == pos + |lc|
    requires HoldsAt(p, at, lits) && at + |lits| == |p|
    ensures ReadToken(p, pos) == Ok((Literals(lits), |p|))
  {
    LiteralCountAt(|lits|, 0, p, pos, lc, at);
    HoldsAtSlice(p, at, lits);
    ReadFinalLiterals(p, pos, Literals(lits), at);
  }

  /** An encoded literal-only token at the end of the payload is read back. */
  lemma FinalTokenRoundTrip(lits: seq<Byte>, p: seq<Byte>, pos: nat)
    requires |lits| <= MaxLiteralRun
    requires HoldsAt(p, pos, EncodeToken(Literals(lits))) && pos + |EncodeToken(Literals(lits))| == |p|
    ensures ReadToken(p, pos) == Ok((Literals(lits), |p|))
  {
    var lc := EncodeLiteralCount(|lits|, 0);
    assert EncodeToken(Literals(lits)) == (lc + lits) + ([] + []);
    var at := pos + |lc|;
    HoldsAtParts(p, pos, lc, lits, [], [], at, at + |lits|, at + |lits|);
    FinalTokenPartsRoundTrip(lits, p, pos, lc, at);
  }

  /** An encoded token with a back-reference, held at `pos`, as its literal part (count
      and literals) followed by its copy part (distance and length chain) at `cat`. */
  lemma CopyTokenHalves(t: Token, p: seq<Byte>, pos: nat, cat: nat)
    requires t.LiteralsThenCopy? && WellFormedToken(t) && HoldsAt(p, pos, EncodeToken(t))
    requires cat == pos + |EncodeLiteralCount(|t.literals|, LengthNibble(t)) + t.literals|
    ensures HoldsAt(p, pos, EncodeLiteralCount(|t.literals|, LengthNibble(t)) + t.literals)
    ensures HoldsAt(p, cat, EncodeCopy(t))
  {
    HoldsAtSplit(p, pos, EncodeLiteralCount(|t.literals|, LengthNibble(t)) + t.literals, EncodeCopy(t), cat);
  }

  /** The literal count of an encoded token with a back-reference, held at `pos`, is read
      back, and its control byte carries the length nibble. */
  lemma CopyTokenCount(lits: seq<Byte>, distance: nat, length: nat, p: seq<Byte>, pos: nat, at: nat)
    requires |lits| <= MaxLiteralRun && distance < 0x1_0000 && MinCopyLength <= length
    requires HoldsAt(p, pos, EncodeToken(LiteralsThenCopy(lits, distance, length)))
    requires at == pos + |EncodeLiteralCount(|lits|, CopyLengthNibble(length))|
    ensures pos < |p| && LowNibble(p[pos]) == CopyLengthNibble(length)
    ensures ReadLiteralCount(p, pos) == Ok((|lits|, at))
  {
    var lc := EncodeLiteralCount(|lits|, CopyLengthNibble(length));
    CopyTokenHalves(LiteralsThenCopy(lits, distance, length), p, pos, at + |lits|);
    HoldsAtSplit(p, pos, lc, lits, at);
    LiteralCountAt(|lits|, CopyLengthNibble(length), p, pos, lc, at);
  }

  /** The distance and length chain of a token's copy part, held at `cat`, are read back,
      the chain ending at `end`. */
  lemma CopyPartAt(distance: nat, length: nat, p: seq<Byte>, cat: nat, end: nat)
    requires distance < 0x1_0000 && MinCopyLength <= length
    requires HoldsAt(p, cat, EncodeU16(distance) + EncodeCopyLength(length))
    requires end == cat + 2 + |EncodeCopyLength(length)|
    ensures cat + 2 <= |p| && LeU16(p, cat) == distance
    ensures ReadCopyLength(p, cat + 2, CopyLengthNibble(length)) == Ok((length, end))
  {
    HoldsAtSplit(p, cat, EncodeU16(distance), EncodeCopyLength(length), cat + 2);
    U16At(distance, p, cat);
    CopyLengthAt(length, p, cat + 2, EncodeCopyLength(length), end);
  }

  /** The literals, distance and length chain of a token with a back-reference, held at
      `pos` after the literal count `lc`, are read back from the positions after `lc`. */
  lemma CopyTokenPayload(lc: seq<Byte>, lits: seq<Byte>, distance: nat, length: nat, p: seq<Byte>,
                         pos: nat, at: nat, end: nat)
    requires distance < 0x1_0000 && MinCopyLength <= length
    requires HoldsAt(p, pos, (lc + lits) + (EncodeU16(distance) + EncodeCopyLength(length)))
    requires at == pos + |lc| && end == at + |lits| + 2 + |EncodeCopyLength(length)|
    ensures at + |lits| + 2 <= |p| && p[at..at + |lits|] == lits && LeU16(p, at + |lits|) == distance
    ensures ReadCopyLength(p, at + |lits| + 2, CopyLengthNibble(length)) == Ok((length, end))
  {
    HoldsAtSplit(p, pos, lc + lits, EncodeU16(distance) + EncodeCopyLength(length), at + |lits|);
    HoldsAtSplit(p, pos, lc, lits, at);
    HoldsAtSlice(p, at, lits);
    CopyPartAt(distance, length, p, at + |lits|, end);
  }

  /** An encoded token with a back-reference is read back, up to its last byte. */
  lemma CopyTokenRoundTrip(lits: seq<Byte>, distance: nat, length: nat, p: seq<Byte>, pos: nat, end: nat)
    requires |lits| <= MaxLiteralRun && distance < 0x1_0000 && MinCopyLength <= length
    requires HoldsAt(p, pos, EncodeToken(LiteralsThenCopy(lits, distance, length)))
    requires end == pos + |EncodeToken(LiteralsThenCopy(lits, distance, length))|
    ensures ReadToken(p, pos) == Ok((LiteralsThenCopy(lits, distance, length), end))
  {
    var lc := EncodeLiteralCount(|lits|, CopyLengthNibble(length));
    var at := pos + |lc|;
    assert EncodeToken(LiteralsThenCopy(lits, distance, length))
        == (lc + lits) + (EncodeU16(distance) + EncodeCopyLength(length));
    CopyTokenCount(lits, distance, length, p, pos, at);
    CopyTokenPayload(lc, lits, distance, length, p, pos, at, end);
    ReadLiteralsThenCopy(p, pos, at, lits, distance, CopyLengthNibble(length), length, end);
  }

  /** Reading an encoded token gives the token back and stops right after it. A token
      without a back-reference is read back only at the end of the payload. */
  lemma TokenRoundTrip(t: Token, p: seq<Byte>, pos: nat, end: nat)
    requires WellFormedToken(t) && HoldsAt(p, pos, EncodeToken(t))
    requires end == pos + |EncodeToken(t)|
    requires t.Literals? ==> end == |p|
    ensures ReadToken(p, pos) == Ok((t, end))
  {
    match t
    case Literals(lits) => FinalTokenRoundTrip(lits, p, pos);
    case LiteralsThenCopy(lits, distance, length) => CopyTokenRoundTrip(lits, distance, length, p, pos, end);
  }

  /** A token sequence some payload encodes: every token well formed, and only the last
      one may lack a back-reference. */
  predicate WellFormedStream(ts: seq<Token>) {
    (forall i :: 0 <= i < |ts| ==> WellFormedToken(ts[i])) &&
    (forall i :: 0 <= i < |ts| - 1 ==> ts[i].LiteralsThenCopy?)
  }

  /** The payload made of the encodings of the tokens, in order. */
  function EncodeTokens(ts: seq<Token>): (s: seq<Byte>)
    requires forall i :: 0 <= i < |ts| ==> WellFormedToken(ts[i])
    ensures |s| >= |ts|
  {
    if ts == [] then [] else EncodeToken(ts[0]) + EncodeTokens(ts[1..])
  }

  /** How `TokenizeFrom` reads one token and then the rest. */
  lemma TokenizeStep(p: seq<Byte>, pos: nat, t: Token, next: nat, rest: seq<Token>)
    requires pos < |p| && next <= |p|
    requires ReadToken(p, pos) == Ok((t, next)) && TokenizeFrom(p, next) == Ok(rest)
    ensures TokenizeFrom(p, pos) == Ok([t] + rest)
  {
  }

  /** An encoded token followed by an encoded rest tokenizes to the token and the rest. */
  lemma TokenizeEncodedToken(t: Token, p: seq<Byte>, pos: nat, end: nat, rest: seq<Token>)
    requires WellFormedToken(t) && HoldsAt(p, pos, EncodeToken(t))
    requires end == pos + |EncodeToken(t)| && (t.Literals? ==> end == |p|)
    requires TokenizeFrom(p, end) == Ok(rest)
    ensures TokenizeFrom(p, pos) == Ok([t] + rest)
  {
    TokenRoundTrip(t, p, pos, end);
    TokenizeStep(p, pos, t, end, rest);
  }

  /** The tokens after the first of a well-formed stream form a well-formed stream,
      and a first token without a back-reference is the only one. */
  lemma WellFormedTail(ts: seq<Token>)
    requires WellFormedStream(ts) && ts != []
    ensures WellFormedToken(ts[0]) && WellFormedStream(ts[1..])
    ensures ts[0].Literals? ==> ts[1..] == []
    ensures EncodeTokens(ts) == EncodeToken(ts[0]) + EncodeTokens(ts[1..])
  {
    var rest := ts[1..];
    forall i | 0 <= i < |rest| ensures WellFormedToken(rest[i]) { assert rest[i] == ts[i + 1]; }
    forall i | 0 <= i < |rest| - 1 ensures rest[i].LiteralsThenCopy? { assert rest[i] == ts[i + 1]; }
  }

  /** Tokenizing the encoded stream at the end of a payload gives back exactly its tokens. */
  lemma {:induction false} TokenizeRoundTripFrom(ts: seq<Token>, p: seq<Byte>, pos: nat)
    requires WellFormedStream(ts)
    requires HoldsAt(p, pos, EncodeTokens(ts)) && pos + |EncodeTokens(ts)| == |p|
    ensures TokenizeFrom(p, pos) == Ok(ts)
    decreases |ts|
  {
    if ts != [] {
      var t, rest := ts[0], ts[1..];
      assert [t] + rest == ts;
      assert WellFormedToken(t) by { WellFormedTail(ts); }
      var end: nat := pos + |EncodeToken(t)|;
      assert WellFormedStream(rest) && HoldsAt(p, pos, EncodeToken(t)) && HoldsAt(p, end, EncodeTokens(rest))
          && end + |EncodeTokens(rest)| == |p| && (t.Literals? ==> end == |p|) by {
        WellFormedTail(ts);
        HoldsAtSplit(p, pos, EncodeToken(t), EncodeTokens(rest), end);
      }
      TokenizeRoundTripFrom(rest, p, end);
      TokenizeEncodedToken(t, p, pos, end, rest);
    }
  }

  /** Tokenizing the encoding of a well-formed token sequence gives it back. */
  lemma TokenizeEncoded(ts: seq<Token>)
    requires WellFormedStream(ts)
    ensures Tokenize(EncodeTokens(ts)) == Ok(ts)
  {
    var p := EncodeTokens(ts);
    assert p[0..|p|] == p;
    SliceHoldsAt(p, 0, p);
    TokenizeRoundTripFrom(ts, p, 0);
  }

  // ---------------------------------------------------------------------------
  // The interleaved decoder against tokenize-then-apply

  /** Every tokenization is a well-formed stream: only the final token may stand
      without a back-reference. */
  lemma {:induction false} TokenizeWellFormed(p: seq<Byte>, pos: nat)
    requires pos <= |p|
    ensures TokenizeFrom(p, pos).Ok? ==> WellFormedStream(TokenizeFrom(p, pos).value)
    decreases |p| - pos
  {
    if pos < |p| && ReadToken(p, pos).Ok? {
      var (t, next) := ReadToken(p, pos).value;
      TokenizeWellFormed(p, next);
      if TokenizeFrom(p, next).Ok? {
        var rest := TokenizeFrom(p, next).value;
        var ts := [t] + rest;
        assert t.Literals? ==> next == |p| && rest == [];
        forall i | 0 <= i < |ts| ensures WellFormedToken(ts[i]) {
          if i > 0 { assert ts[i] == rest[i - 1]; }
        }
        forall i | 0 <= i < |ts| - 1 ensures ts[i].LiteralsThenCopy? {
          if i > 0 { assert ts[i] == rest[i - 1]; }
        }
      }
    }
  }

  /** Decoding token by token into the output is the same as first reading all the
      tokens and then applying them; when the tokens cannot all be read, decoding fails. */
  lemma {:induction false} DecodeFromIsRun(p: seq<Byte>, pos: nat, out: seq<Byte>)
    requires pos <= |p|
    ensures TokenizeFrom(p, pos).Ok? ==> DecodeFrom(p, pos, out) == Run(out, TokenizeFrom(p, pos).value)
    ensures TokenizeFrom(p, pos).Err? ==> DecodeFrom(p, pos, out).Err?
    decreases |p| - pos
  {
    if pos < |p| && ReadToken(p, pos).Ok? {
      var (t, next) := ReadToken(p, pos).value;
      if ApplyToken(out, t).Ok? {
        DecodeFromIsRun(p, next, ApplyToken(out, t).value);
      }
      if TokenizeFrom(p, next).Ok? {
        var ts := [t] + TokenizeFrom(p, next).value;
        assert ts[0] == t && ts[1..] == TokenizeFrom(p, next).value;
      }
    }
  }

  /** The output of a run of tokens is as long as the tokens' literals and copies together. */
  lemma {:induction false} RunLength(out: seq<Byte>, ts: seq<Token>)
    ensures Run(out, ts).Ok? ==> |Run(out, ts).value| == |out| + TotalLength(ts)
    decreases |ts|
  {
    if ts != [] && ApplyToken(out, ts[0]).Ok? {
      RunLength(ApplyToken(out, ts[0]).value, ts[1..]);
    }
  }

  /** A payload decodes exactly when its tokens can be read and applied, to the same
      bytes; its decoded length is the sum over its tokens of literal count plus
      back-reference length. */
  lemma DecompressByTokens(p: seq<Byte>)
    ensures Tokenize(p).Ok? ==> Decompress(p) == Run([], Tokenize(p).value)
    ensures Decompress(p).Ok? ==> Tokenize(p).Ok? && WellFormedStream(Tokenize(p).value)
    ensures Decompress(p).Ok? ==> |Decompress(p).value| == TotalLength(Tokenize(p).value)
  {
    DecodeFromIsRun(p, 0, []);
    TokenizeWellFormed(p, 0);
    if Tokenize(p).Ok? {
      RunLength([], Tokenize(p).value);
    }
  }

  /** Decompressing the encoding of a well-formed token sequence applies those tokens. */
  lemma DecompressEncoded(ts: seq<Token>)
    requires WellFormedStream(ts)
    ensures Decompress(EncodeTokens(ts)) == Run([], ts)
  {
    TokenizeEncoded(ts);
    DecompressByTokens(EncodeTokens(ts));
  }

  // ---------------------------------------------------------------------------
  // Worked examples

  /** A payload that ends right after a literal run stops there: `10 41` decodes to "A". */
  lemma LiteralOnlyPayload()
    ensures Decompress([0x10, 0x41]) == Ok([0x41])
  {
    var p: seq<Byte> := [0x10, 0x41];
    assert ReadLiteralCount(p, 0) == Ok((1, 1));
    assert p[1..2] == [0x41];
    assert ReadToken(p, 0) == Ok((Literals([0x41]), 2));
    assert DecodeFrom(p, 2, [0x41]) == Ok([0x41]);
  }

  /** Distance 1 expands the last byte: `20 41 42 01 00` decodes to "ABBBBB". */
  lemma RunLengthPayload()
    ensures Decompress([0x20, 0x41, 0x42, 0x01, 0x00]) == Ok([0x41, 0x42, 0x42, 0x42, 0x42, 0x42])
  {
    var p: seq<Byte> := [0x20, 0x41, 0x42, 0x01, 0x00];
    assert ReadLiteralCount(p, 0) == Ok((2, 1));
    assert p[1..3] == [0x41, 0x42];
    assert LeU16(p, 3) == 1;
    assert ReadCopyLength(p, 5, 0) == Ok((4, 5));
    var t := LiteralsThenCopy([0x41, 0x42], 1, 4);
    assert ReadToken(p, 0) == Ok((t, 5));
    var out := CopyBack([0x41, 0x42], 1, 4);
    assert ApplyToken([], t) == Ok(out);
    assert out == [0x41, 0x42, 0x42, 0x42, 0x42, 0x42];
    assert DecodeFrom(p, 5, out) == Ok(out);
  }

  /** Distance 0 and a distance past the start of the output are rejected. */
  lemma InvalidDistancePayloads()
    ensures Decompress([0x10, 0x41, 0x00, 0x00]) == Err(InvalidDistance)
    ensures Decompress([0x10, 0x41, 0x02, 0x00]) == Err(InvalidDistance)
  {
    var p: seq<Byte> := [0x10, 0x41, 0x00, 0x00];
    assert ReadLiteralCount(p, 0) == Ok((1, 1));
    assert p[1..2] == [0x41];
    assert ReadToken(p, 0) == Ok((LiteralsThenCopy([0x41], 0, 4), 4));
    var q: seq<Byte> := [0x10, 0x41, 0x02, 0x00];
    assert ReadLiteralCount(q, 0) == Ok((1, 1));
    assert q[1..2] == [0x41];
    assert ReadToken(q, 0) == Ok((LiteralsThenCopy([0x41], 2, 4), 4));
  }
}
