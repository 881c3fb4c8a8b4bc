/** The decompressor as the script runs it: a cursor `index` walks the payload and the
    output `resultStr` grows, token by token, in three loops (tokens, length chain, and
    the byte-at-a-time back-reference copy). Each method is proved to compute the
    specification functions of modules TokenStream and LoxContainer. */
module Decoder {
  import opened Bytes
  import opened Results
  import opened TokenStream
  import opened TokenLaws
  import opened LoxContainer

  // ---------------------------------------------------------------------------
  // How one token moves the specification forward

  /** A token that is read and applied hands decoding on to the position after it. */
  lemma DecodeStep(p: seq<Byte>, pos: nat, out: seq<Byte>, t: Token, next: nat, out': seq<Byte>)
    requires pos < |p| && next <= |p|
    requires ReadToken(p, pos) == Ok((t, next)) && ApplyToken(out, t) == Ok(out')
    ensures DecodeFrom(p, pos, out) == DecodeFrom(p, next, out')
  {
  }

  /** A token that cannot be read ends decoding with truncated input. */
  lemma DecodeTruncated(p: seq<Byte>, pos: nat, out: seq<Byte>)
    requires pos < |p| && ReadToken(p, pos).Err?
    ensures DecodeFrom(p, pos, out) == Err(TruncatedInput)
  {
  }

  /** A token whose back-reference reaches outside the output ends decoding there. */
  lemma DecodeBadDistance(p: seq<Byte>, pos: nat, out: seq<Byte>, t: Token, next: nat)
    requires pos < |p| && ReadToken(p, pos) == Ok((t, next))
    requires t.LiteralsThenCopy? && !(1 <= t.distance <= |out| + |t.literals|)
    ensures DecodeFrom(p, pos, out) == Err(InvalidDistance)
  {
  }

  /** How `ReadToken` fails: no extension byte, too few literals, a lone distance byte,
      or a length chain that runs off the payload. */
  lemma ReadTokenTruncated(p: seq<Byte>, pos: nat, at: nat, n: nat)
    requires pos < |p|
    requires ReadLiteralCount(p, pos).Err?
          || (ReadLiteralCount(p, pos) == Ok((n, at)) &&
              (|p| - at < n ||
               (at + n < |p| && |p| - (at + n) < 2) ||
               (at + n + 2 <= |p| && ReadCopyLength(p, at + n + 2, LowNibble(p[pos])).Err?)))
    ensures ReadToken(p, pos).Err?
  {
  }

  // ---------------------------------------------------------------------------
  // The copy step as written

  /** The byte the copy loop appends, as the script's slices give it: `out[-d:]` when
      `-d + 1 == 0`, else `out[-d:-d + 1]`, with Python's negative indices counted from
      the end and clamped to the bounds of `out`. */
  function SourceCopyStep(out: seq<Byte>, d: int): (r: seq<Byte>)
    ensures |r| <= 1
  {
    var from := PyClamp(-d, |out|);
    if -d + 1 == 0 then out[from..]
    else
      var to := PyClamp(-d + 1, |out|);
      if from <= to then out[from..to] else []
  }

  /** A Python slice bound: a negative index counts from the end, and the result is
      clamped to `0..n`. */
  function PyClamp(i: int, n: nat): (k: nat)
    ensures k <= n
    ensures 0 <= i <= n ==> k == i
    ensures -(n as int) <= i < 0 ==> k == n + i
    ensures i < -(n as int) ==> k == 0
    ensures i > n ==> k == n
  {
    if i < 0 then (if n + i < 0 then 0 else n + i)
    else if i > n then n
    else i
  }

  /** For a valid distance the two slices agree with reading one byte `d` back. */
  lemma SourceCopyStepValid(out: seq<Byte>, d: int)
    requires 1 <= d <= |out|
    ensures SourceCopyStep(out, d) == [out[|out| - d]]
  {
  }

  /** Without a distance check the slices misbehave: distance 0 appends the first byte
      of the output, a distance before the start of the output appends nothing, and so
      does any distance into an empty output. */
  lemma SourceCopyStepInvalid(out: seq<Byte>, d: int)
    ensures d == 0 && 1 <= |out| ==> SourceCopyStep(out, d) == [out[0]]
    ensures d > |out| ==> SourceCopyStep(out, d) == []
    ensures |out| == 0 ==> SourceCopyStep(out, d) == []
  {
  }

  // ---------------------------------------------------------------------------
  // The decoder

  /** Reads a back-reference length whose control byte has low nibble `low`, with any
      extension chain starting at `index`: 4 plus the nibble, and when the nibble is 15,
      every chain byte up to and including the first that is not 0xFF. */
  method ReadLength(data: seq<Byte>, index: nat, low: nat) returns (r: Result<(nat, nat)>)
    requires index <= |data| && low < 16
    ensures r == ReadCopyLength(data, index, low)
  {
    var cursor := index;
    var bytesBackCopied: nat := MinCopyLength + low;
    if low == LengthEscape {
      while true
        invariant index <= cursor <= |data|
        invariant ReadChain(data, cursor, bytesBackCopied) == ReadCopyLength(data, index, low)
        decreases |data| - cursor
      {
        if cursor == |data| {
          return Err(TruncatedInput);
        }
        var val := data[cursor];
        bytesBackCopied := bytesBackCopied + val;
        cursor := cursor + 1;
        if val != AllOnes {
          break;
        }
      }
    }
    r := Ok((bytesBackCopied, cursor));
  }

  /** Appends `count` bytes to `resultStr` one at a time, each the byte `bytesBack`
      positions before the current end, taken with the script's two slice forms. */
  method CopyBytesBack(resultStr: seq<Byte>, bytesBack: nat, count: nat) returns (out: seq<Byte>)
    requires 1 <= bytesBack <= |resultStr|
    ensures out == CopyBack(resultStr, bytesBack, count)
  {
    out := resultStr;
    var bytesBackCopied: nat := count;
    while bytesBackCopied > 0
      invariant bytesBackCopied <= count
      invariant out == CopyBack(resultStr, bytesBack, count - bytesBackCopied)
    {
      ghost var copied := CopyBack(resultStr, bytesBack, count - bytesBackCopied + 1);
      assert copied == out + [out[|out| - bytesBack]];
      var piece: seq<Byte>;
      if -(bytesBack as int) + 1 == 0 {
        piece := out[|out| - bytesBack..];
      } else {
        piece := out[|out| - bytesBack..|out| - bytesBack + 1];
      }
      assert piece == [out[|out| - bytesBack]];
      out := out + piece;
      bytesBackCopied := bytesBackCopied - 1;
    }
  }

  /** Reads the literal count of the control byte at `index`: its high nibble, plus one
      extension byte when the nibble is 15. Yields the count and the position after it. */
  method ReadCount(data: seq<Byte>, index: nat) returns (r: Result<(nat, nat)>)
    requires index < |data|
    ensures r == ReadLiteralCount(data, index)
  {
    var cursor := index + 1;
    var copyBytes: nat := HighNibble(data[index]);
    if copyBytes == LiteralEscape {
      if cursor == |data| {
        return Err(TruncatedInput);
      }
      copyBytes := copyBytes + data[cursor];
      cursor := cursor + 1;
    }
    r := Ok((copyBytes, cursor));
  }

  /** One pass of the main loop: reads the token at `index`, appends its literals to
      `resultStr` and applies its back-reference. Yields the new cursor and output, from
      which decoding goes on exactly as it would have from the old ones. */
  method DecodeToken(data: seq<Byte>, index: nat, resultStr: seq<Byte>) returns (r: Result<(nat, seq<Byte>)>)
    requires index < |data|
    ensures r.Err? ==> DecodeFrom(data, index, resultStr) == Err(r.error)
    ensures r.Ok? ==> index < r.value.0 <= |data|
    ensures r.Ok? ==> DecodeFrom(data, index, resultStr) == DecodeFrom(data, r.value.0, r.value.1)
    ensures r.Ok? ==> (ReadToken(data, index).Ok? && r.value.0 == ReadToken(data, index).value.1 &&
                       ApplyToken(resultStr, ReadToken(data, index).value.0) == Ok(r.value.1))
    ensures r.Err? ==> (ReadToken(data, index) == Err(r.error) ||
                        (ReadToken(data, index).Ok? && ApplyToken(resultStr, ReadToken(data, index).value.0) == Err(r.error)))
  {
    // control byte: literal count in the high nibble, length base in the low nibble
    var count := ReadCount(data, index);
    if count.Err? {
      DecodeTruncated(data, index, resultStr);
      return Err(TruncatedInput);
    }
    var copyBytes, at := count.value.0, count.value.1;
    var low := LowNibble(data[index]);
    // literal run
    if |data| - at < copyBytes {
      ReadTokenTruncated(data, index, at, copyBytes);
      DecodeTruncated(data, index, resultStr);
      return Err(TruncatedInput);
    }
    var lits := data[at..at + copyBytes];
    var out := resultStr + lits;
    var cursor := at + copyBytes;
    if cursor >= |data| {
      ReadFinalLiterals(data, index, Literals(lits), at);
      DecodeStep(data, index, resultStr, Literals(lits), |data|, out);
      return Ok((cursor, out));
    }
    // back-reference distance
    if |data| - cursor < 2 {
      ReadTokenTruncated(data, index, at, copyBytes);
      DecodeTruncated(data, index, resultStr);
      return Err(TruncatedInput);
    }
    var bytesBack := LeU16(data, cursor);
    // back-reference length: 4 plus the low nibble, plus a chain when the nibble is 15
    var length := ReadLength(data, cursor + 2, low);
    if length.Err? {
      ReadTokenTruncated(data, index, at, copyBytes);
      DecodeTruncated(data, index, resultStr);
      return Err(TruncatedInput);
    }
    var bytesBackCopied, end := length.value.0, length.value.1;
    var t := LiteralsThenCopy(lits, bytesBack, bytesBackCopied);
    ReadLiteralsThenCopy(data, index, at, lits, bytesBack, low, bytesBackCopied, end);
    // the copy, one byte at a time, each read `bytesBack` bytes before the end
    if !(1 <= bytesBack <= |out|) {
      DecodeBadDistance(data, index, resultStr, t, end);
      return Err(InvalidDistance);
    }
    out := CopyBytesBack(out, bytesBack, bytesBackCopied);
    DecodeStep(data, index, resultStr, t, end, out);
    r := Ok((end, out));
  }

  /** Decodes a payload in one pass over it, as the script's main loop does, with the
      error cases made explicit. The result is `Decompress(data)`. */
  method Decode(data: seq<Byte>) returns (r: Result<seq<Byte>>)
    ensures r == Decompress(data)
  {
    var index: nat := 0;
    var resultStr: seq<Byte> := [];
    while index < |data|
      invariant index <= |data|
      invariant DecodeFrom(data, index, resultStr) == Decompress(data)
      decreases |data| - index
    {
      var step := DecodeToken(data, index, resultStr);
      if step.Err? {
        return Err(step.error);
      }
      index, resultStr := step.value.0, step.value.1;
    }
    r := Ok(resultStr);
  }

  // ---------------------------------------------------------------------------
  // The whole container

  /** What the script writes for an input file: the decompressed payload of a
      container with the right signature, or why there is none. */
  function Unpacked(input: seq<Byte>): (r: Result<seq<Byte>>)
    ensures !HasMagic(input) ==> r.Err?
    ensures 4 <= |input| && !HasMagic(input) ==> r == Err(InvalidMagic)
  {
    match ParseContainer(input)
    case Err(e) => Err(e)
    case Ok(c) => Decompress(c.payload)
  }

  /** Reads the header, checks the signature, takes the payload and decodes it. */
  method Unpack(input: seq<Byte>) returns (r: Result<seq<Byte>>)
    ensures r == Unpacked(input)
  {
    var parsed := ParseContainer(input);
    if parsed.Err? {
      return Err(parsed.error);
    }
    r := Decode(parsed.value.payload);
  }

  /** A container built around the encoding of a well-formed token sequence, whatever
      its size hint, reserved field and trailing bytes, unpacks to those tokens applied
      to an empty output. */
  lemma UnpackEncoded(sizeHint: nat, reserved: nat, ts: seq<Token>, trailing: seq<Byte>)
    requires WellFormedStream(ts)
    requires |EncodeTokens(ts)| < 0x1_0000_0000 && sizeHint < 0x1_0000_0000 && reserved < 0x1_0000_0000
    ensures Unpacked(EncodeContainer(sizeHint, reserved, EncodeTokens(ts)) + trailing) == Run([], ts)
  {
    ParseEncoded(sizeHint, reserved, EncodeTokens(ts), trailing);
    DecompressEncoded(ts);
  }
}
