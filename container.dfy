/** The 16-byte header of a LoxCC container and the payload it delimits. */
module LoxContainer {
  import opened Bytes
  import opened Results

  /** The signature word that marks a compressed container. */
  const Magic: nat := 0xAABB_CCEE

  /** Magic word, compressed size and two further 32-bit fields. */
  const HeaderSize: nat := 16

  /** The three header fields after the magic word. Only `compressedSize` is used;
      `sizeHint` is roughly the uncompressed length and `reserved` is of unknown purpose. */
  datatype Header = Header(compressedSize: nat, sizeHint: nat, reserved: nat)
  {
    predicate Valid() {
      compressedSize < 0x1_0000_0000 && sizeHint < 0x1_0000_0000 && reserved < 0x1_0000_0000
    }
  }

  /** A parsed container: its header and exactly `compressedSize` payload bytes. */
  datatype Container = Container(header: Header, payload: seq<Byte>)

  /** True when `input` starts with the little-endian magic word. */
  predicate HasMagic(input: seq<Byte>) {
    4 <= |input| && LeU32(input, 0) == Magic
  }

  /** Reads the header and slices out the payload. A wrong signature is rejected before
      anything else is read; a short header or a payload shorter than `compressedSize`
      is truncated input. Bytes after the payload are ignored. */
  function ParseContainer(input: seq<Byte>): (r: Result<Container>)
    ensures r == Err(InvalidMagic) <==> 4 <= |input| && !HasMagic(input)
    ensures r.Err? ==> r.error == InvalidMagic || r.error == TruncatedInput
    ensures r.Ok? <==> HasMagic(input) && HeaderSize <= |input| && HeaderSize + LeU32(input, 4) <= |input|
    ensures r.Ok? ==> r.value.header.Valid()
    ensures r.Ok? ==> |r.value.payload| == r.value.header.compressedSize
    ensures r.Ok? ==> r.value.payload <= input[HeaderSize..]
    ensures r.Ok? ==> r.value == Container(Header(LeU32(input, 4), LeU32(input, 8), LeU32(input, 12)),
                                           input[HeaderSize..HeaderSize + LeU32(input, 4)])
  {
    if |input| < 4 then Err(TruncatedInput)
    else if LeU32(input, 0) != Magic then Err(InvalidMagic)
    else if |input| < HeaderSize then Err(TruncatedInput)
    else
      var header := Header(LeU32(input, 4), LeU32(input, 8), LeU32(input, 12));
      if |input| - HeaderSize < header.compressedSize then Err(TruncatedInput)
      else Ok(Container(header, input[HeaderSize..HeaderSize + header.compressedSize]))
  }

  /** The bytes of a container with the given header fields and payload. */
  function EncodeContainer(sizeHint: nat, reserved: nat, payload: seq<Byte>): (s: seq<Byte>)
    requires |payload| < 0x1_0000_0000 && sizeHint < 0x1_0000_0000 && reserved < 0x1_0000_0000
    ensures |s| == HeaderSize + |payload|
  {
    EncodeU32(Magic) + EncodeU32(|payload|) + EncodeU32(sizeHint) + EncodeU32(reserved) + payload
  }

  /** Parsing an encoded container, followed by any trailing bytes, gives back its
      header fields and exactly its payload. */
  lemma ParseEncoded(sizeHint: nat, reserved: nat, payload: seq<Byte>, trailing: seq<Byte>)
    requires |payload| < 0x1_0000_0000 && sizeHint < 0x1_0000_0000 && reserved < 0x1_0000_0000
    ensures ParseContainer(EncodeContainer(sizeHint, reserved, payload) + trailing)
         == Ok(Container(Header(|payload|, sizeHint, reserved), payload))
  {
    var m, n, h, z := EncodeU32(Magic), EncodeU32(|payload|), EncodeU32(sizeHint), EncodeU32(reserved);
    var rest := payload + trailing;
    var s := EncodeContainer(sizeHint, reserved, payload) + trailing;
    assert s == m + (n + h + z + rest);
    U32RoundTrip(Magic, [], n + h + z + rest);
    assert s == m + n + (h + z + rest);
    U32RoundTrip(|payload|, m, h + z + rest);
    assert s == m + n + h + (z + rest);
    U32RoundTrip(sizeHint, m + n, z + rest);
    assert s == m + n + h + z + rest;
    U32RoundTrip(reserved, m + n + h, rest);
    assert s[HeaderSize..] == rest;
    assert s[HeaderSize..HeaderSize + |payload|] == payload;
  }

  /** The size hint and the reserved field never influence what is unpacked: two inputs
      that differ only in header bytes 8..16 parse to the same payload. */
  lemma HintAndReservedIgnored(a: seq<Byte>, b: seq<Byte>)
    requires |a| == |b| && HeaderSize <= |a|
    requires a[..8] == b[..8] && a[HeaderSize..] == b[HeaderSize..]
    ensures ParseContainer(a).Ok? <==> ParseContainer(b).Ok?
    ensures ParseContainer(a).Ok? ==> ParseContainer(a).value.payload == ParseContainer(b).value.payload
    ensures ParseContainer(a).Err? ==> ParseContainer(a) == ParseContainer(b)
  {
    assert forall i :: 0 <= i < 8 ==> a[i] == a[..8][i] == b[..8][i] == b[i];
    var n := LeU32(a, 4);
    if |a| - HeaderSize >= n {
      assert a[HeaderSize..HeaderSize + n] == a[HeaderSize..][..n] == b[HeaderSize..][..n] == b[HeaderSize..HeaderSize + n];
    }
  }
}
