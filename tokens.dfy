/** The token stream of a LoxCC payload, as pure functions: how one token is read,
    how it extends the output, and how the whole payload decodes. These are the
    specification that the imperative decoder in module Decoder is proved against. */
module TokenStream {
  import opened Bytes
  import opened Results

  /** A literal count of 15 in the high nibble means one extension byte follows. */
  const LiteralEscape: nat := 15

  /** The longest literal run one token can carry: 15 plus one extension byte of 255. */
  const MaxLiteralRun: nat := 15 + 255

  /** Every back-reference copies at least this many bytes. */
  const MinCopyLength: nat := 4

  /** A low nibble of 15 means a chain of length-extension bytes follows the distance. */
  const LengthEscape: nat := 15

  /** One decoded token: a literal run, followed by a back-reference unless the
      payload ends right after the literals. */
  datatype Token =
    | Literals(literals: seq<Byte>)
    | LiteralsThenCopy(literals: seq<Byte>, distance: nat, length: nat)

  /** How many output bytes a token produces. */
  function TokenOutputLength(t: Token): nat {
    match t
    case Literals(lits) => |lits|
    case LiteralsThenCopy(lits, _, length) => |lits| + length
  }

  /** How many output bytes a sequence of tokens produces. */
  function TotalLength(ts: seq<Token>): nat {
    if ts == [] then 0 else TokenOutputLength(ts[0]) + TotalLength(ts[1..])
  }

  // ---------------------------------------------------------------------------
  // Reading the parts of a token

  /** The literal count of the token whose control byte is at `pos`, and the position
      of its first literal byte. The count is the control byte's high nibble; a nibble
      of 15 is extended by exactly one further byte. */
  function ReadLiteralCount(p: seq<Byte>, pos: nat): (r: Result<(nat, nat)>)
    requires pos < |p|
    ensures r.Err? <==> HighNibble(p[pos]) == LiteralEscape && pos + 1 == |p|
    ensures r.Err? ==> r.error == TruncatedInput
    ensures r.Ok? ==> r.value.0 <= MaxLiteralRun && r.value.1 <= |p|
    ensures r.Ok? && HighNibble(p[pos]) < LiteralEscape ==> r.value == (HighNibble(p[pos]), pos + 1)
    ensures r.Ok? && HighNibble(p[pos]) == LiteralEscape ==> r.value == (LiteralEscape + p[pos + 1], pos + 2)
  {
    var count := HighNibble(p[pos]);
    if count < LiteralEscape then Ok((count, pos + 1))
    else if pos + 1 < |p| then Ok((count + p[pos + 1], pos + 2))
    else Err(TruncatedInput)
  }

  /** Adds the chain of length-extension bytes that starts at `pos` to `acc`. Each byte
      read is added; reading goes on only while the byte just read is 0xFF, so the chain
      ends with, and includes, the first byte that is not 0xFF. Yields the sum and the
      position after the chain; a chain that runs off the payload is truncated input. */
  function ReadChain(p: seq<Byte>, pos: nat, acc: nat): (r: Result<(nat, nat)>)
    requires pos <= |p|
    decreases |p| - pos
    ensures r.Err? ==> r.error == TruncatedInput
    ensures r.Ok? ==> pos < r.value.1 <= |p| && acc <= r.value.0
  {
    if pos == |p| then Err(TruncatedInput)
    else if p[pos] == AllOnes then ReadChain(p, pos + 1, acc + AllOnes)
    else Ok((acc + p[pos], pos + 1))
  }

  /** The back-reference length for a control byte whose low nibble is `lowNibble`, with
      any extension chain starting at `pos`: 4 plus the nibble, plus the chain when the
      nibble is 15. Yields the length and the position after it. */
  function ReadCopyLength(p: seq<Byte>, pos: nat, lowNibble: nat): (r: Result<(nat, nat)>)
    requires pos <= |p| && lowNibble < 16
    ensures lowNibble < LengthEscape ==> r == Ok((MinCopyLength + lowNibble, pos))
    ensures lowNibble == LengthEscape ==> r == ReadChain(p, pos, MinCopyLength + LengthEscape)
    ensures r.Ok? ==> MinCopyLength + lowNibble <= r.value.0 && pos <= r.value.1 <= |p|
  {
    if lowNibble < LengthEscape then Ok((MinCopyLength + lowNibble, pos))
    else ReadChain(p, pos, MinCopyLength + LengthEscape)
  }

  /** Reads the token whose control byte is at `pos`: the literal count, the literal run,
      and, unless the payload ends right after the literals, a two-byte little-endian
      distance and the back-reference length. Yields the token and the position after it. */
  function ReadToken(p: seq<Byte>, pos: nat): (r: Result<(Token, nat)>)
    requires pos < |p|
    ensures r.Err? ==> r.error == TruncatedInput
    ensures r.Ok? ==> pos + 1 + |r.value.0.literals| <= r.value.1 <= |p|
    ensures r.Ok? ==> |r.value.0.literals| <= MaxLiteralRun
    ensures r.Ok? && r.value.0.Literals? ==> r.value.1 == |p|
    ensures r.Ok? && r.value.0.LiteralsThenCopy? ==>
              r.value.0.distance < 0x1_0000 && MinCopyLength + LowNibble(p[pos]) <= r.value.0.length
  {
    match ReadLiteralCount(p, pos)
    case Err(e) => Err(e)
    case Ok((n, at)) =>
      if |p| - at < n then Err(TruncatedInput)
      else
        var literals := p[at..at + n];
        var next := at + n;
        if next == |p| then Ok((Literals(literals), next))
        else if |p| - next < 2 then Err(TruncatedInput)
        else
          var distance := LeU16(p, next);
          match ReadCopyLength(p, next + 2, LowNibble(p[pos]))
          case Err(e) => Err(e)
          case Ok((length, end)) => Ok((LiteralsThenCopy(literals, distance, length), end))
  }

  // ---------------------------------------------------------------------------
  // Applying a token to the output

  /** The output after a back-reference: `length` bytes are appended one at a time, and
      each is read from `distance` bytes before the end of the output as it stands at
      the moment that byte is appended, so a copy may read bytes it has itself appended. */
  function CopyBack(out: seq<Byte>, distance: nat, length: nat): (r: seq<Byte>)
    requires 1 <= distance <= |out|
    decreases length
    ensures |r| == |out| + length
    ensures r[..|out|] == out
    ensures forall j :: |out| <= j < |r| ==> r[j] == r[j - distance]
  {
    if length == 0 then out
    else
      var s := CopyBack(out, distance, length - 1);
      s + [s[|s| - distance]]
  }

  /** The output after one token: its literals are appended unchanged, then its
      back-reference, if any, is applied. A distance of 0 or one reaching before the
      start of the output is rejected. */
  function ApplyToken(out: seq<Byte>, t: Token): (r: Result<seq<Byte>>)
    ensures r.Err? <==> t.LiteralsThenCopy? && !(1 <= t.distance <= |out| + |t.literals|)
    ensures r.Err? ==> r.error == InvalidDistance
    ensures r.Ok? ==> |r.value| == |out| + TokenOutputLength(t)
    ensures r.Ok? ==> r.value[..|out|] == out && r.value[|out|..|out| + |t.literals|] == t.literals
    ensures t.Literals? ==> r == Ok(out + t.literals)
    ensures r.Ok? && t.LiteralsThenCopy? ==> r.value == CopyBack(out + t.literals, t.distance, t.length)
  {
    var withLiterals := out + t.literals;
    match t
    case Literals(_) => Ok(withLiterals)
    case LiteralsThenCopy(_, distance, length) =>
      if 1 <= distance <= |withLiterals| then
        var r := CopyBack(withLiterals, distance, length);
        assert r[..|withLiterals|] == withLiterals;
        assert r[..|out|] == withLiterals[..|out|];
        assert r[|out|..|withLiterals|] == withLiterals[|out|..];
        Ok(r)
      else Err(InvalidDistance)
  }

  // ---------------------------------------------------------------------------
  // Decoding a payload

  /** Decodes the payload from position `pos` on, with `out` produced so far: while the
      cursor is inside the payload, read a token and apply it. Output already produced
      is never changed, and decoding fails only on truncated input or a bad distance. */
  function DecodeFrom(p: seq<Byte>, pos: nat, out: seq<Byte>): (r: Result<seq<Byte>>)
    requires pos <= |p|
    decreases |p| - pos
    ensures pos == |p| ==> r == Ok(out)
    ensures r.Ok? ==> |out| <= |r.value| && r.value[..|out|] == out
    ensures r.Err? ==> r.error == TruncatedInput || r.error == InvalidDistance
  {
    if pos == |p| then Ok(out)
    else
      match ReadToken(p, pos)
      case Err(e) => Err(e)
      case Ok((t, next)) =>
        match ApplyToken(out, t)
        case Err(e) => Err(e)
        case Ok(out') => DecodeFrom(p, next, out')
  }

  /** The decompressed bytes of a whole payload, or why there are none. */
  function Decompress(p: seq<Byte>): (r: Result<seq<Byte>>)
    ensures |p| == 0 ==> r == Ok([])
    ensures r.Err? ==> r.error == TruncatedInput || r.error == InvalidDistance
  {
    DecodeFrom(p, 0, [])
  }

  /** The tokens of the payload from `pos` on, read one after another without
      producing any output. */
  function TokenizeFrom(p: seq<Byte>, pos: nat): (r: Result<seq<Token>>)
    requires pos <= |p|
    decreases |p| - pos
  {
    if pos == |p| then Ok([])
    else
      match ReadToken(p, pos)
      case Err(e) => Err(e)
      case Ok((t, next)) =>
        match TokenizeFrom(p, next)
        case Err(e) => Err(e)
        case Ok(ts) => Ok([t] + ts)
  }

  /** The tokens of a whole payload. */
  function Tokenize(p: seq<Byte>): Result<seq<Token>> {
    TokenizeFrom(p, 0)
  }

  /** Applies the tokens in order to `out`. */
  function Run(out: seq<Byte>, ts: seq<Token>): (r: Result<seq<Byte>>)
    decreases |ts|
  {
    if ts == [] then Ok(out)
    else
      match ApplyToken(out, ts[0])
      case Err(e) => Err(e)
      case Ok(out') => Run(out', ts[1..])
  }
}
