/**
 * The datagram layout of the UDP channel: how a message is cut into chunks that fit one
 * datagram each, and the 8-byte header in front of every chunk (a 32-bit message id, the
 * 16-bit chunk count and the 16-bit chunk index, each in the byte order of the host,
 * taken here to be little-endian).
 */
module Wire {

  /** One octet of a datagram. */
  type byte = x: int | 0 <= x < 0x100

  type uint16 = x: int | 0 <= x < 0x1_0000

  type uint32 = x: int | 0 <= x < 0x1_0000_0000

  /** The largest datagram the channel sends, header included (`max_udp_payload`). */
  const MaxUdpPayload: nat := 1400

  /** sizeof(uint32_t) + 2 * sizeof(uint16_t). */
  const HeaderSize: nat := 8

  /** The payload capacity of one chunk (`max_payload`), written out as a literal. */
  const MaxPayload: nat := 1392

  /** The chunk capacity is the datagram budget less the header. */
  lemma MaxPayloadIsBudgetLessHeader()
    ensures MaxPayload == MaxUdpPayload - HeaderSize
  {
  }

  function Min(a: int, b: int): int
  {
    if a <= b then a else b
  }

  /** The number of chunks `send` cuts a message of `len` bytes into: ceil(len / MaxPayload). */
  function TotalChunks(len: nat): (n: nat)
    ensures len <= n * MaxPayload
    ensures n > 0 ==> (n - 1) * MaxPayload < len
    ensures n == 0 <==> len == 0
  {
    (len + MaxPayload - 1) / MaxPayload
  }

  /** Chunk `i` of `message`: at most MaxPayload bytes starting at offset i * MaxPayload. */
  function Chunk(message: seq<byte>, i: nat): (c: seq<byte>)
    requires i < TotalChunks(|message|)
    ensures 0 < |c| <= MaxPayload
  {
    var offset := i * MaxPayload;
    message[offset..offset + Min(MaxPayload, |message| - offset)]
  }

  /** All chunks of `message`, in index order. */
  function Chunks(message: seq<byte>): (cs: seq<seq<byte>>)
    ensures |cs| == TotalChunks(|message|)
  {
    seq(TotalChunks(|message|), i requires 0 <= i < TotalChunks(|message|) => Chunk(message, i))
  }

  /** The chunks glued together in order. */
  function Concat(cs: seq<seq<byte>>): seq<byte>
  {
    if |cs| == 0 then [] else Concat(cs[..|cs| - 1]) + cs[|cs| - 1]
  }

  /** The first `j` chunks cover the first min(j * MaxPayload, |message|) bytes. */
  lemma {:induction false} ChunksPrefix(message: seq<byte>, j: nat)
    requires j <= TotalChunks(|message|)
    ensures Concat(Chunks(message)[..j]) == message[..Min(j * MaxPayload, |message|)]
  {
    if j > 0 {
      var cs := Chunks(message);
      ChunksPrefix(message, j - 1);
      assert cs[..j][..j - 1] == cs[..j - 1];
      var offset := (j - 1) * MaxPayload;
      assert Min(offset, |message|) == offset;
      assert cs[j - 1] == message[offset..offset + Min(MaxPayload, |message| - offset)];
      assert offset + Min(MaxPayload, |message| - offset) == Min(j * MaxPayload, |message|);
    }
  }

  /** The chunks glued together in index order give the message back. */
  lemma ChunksConcat(message: seq<byte>)
    ensures Concat(Chunks(message)) == message
  {
    var n := TotalChunks(|message|);
    ChunksPrefix(message, n);
    assert Chunks(message)[..n] == Chunks(message);
    assert message[..|message|] == message;
  }

  function Pow256(n: nat): nat
  {
    if n == 0 then 1 else 0x100 * Pow256(n - 1)
  }

  /** The `width` low-order bytes of `x`, least significant first (memcpy on a little-endian host). */
  function LittleEndian(x: nat, width: nat): (bs: seq<byte>)
    ensures |bs| == width
  {
    if width == 0 then [] else [x % 0x100] + LittleEndian(x / 0x100, width - 1)
  }

  /** The number whose little-endian bytes are `bs`. */
  function FromLittleEndian(bs: seq<byte>): nat
  {
    if |bs| == 0 then 0 else bs[0] + 0x100 * FromLittleEndian(bs[1..])
  }

  /** `width` bytes hold numbers below 256^width. */
  lemma {:induction false} FromLittleEndianBound(bs: seq<byte>)
    ensures FromLittleEndian(bs) < Pow256(|bs|)
  {
    if |bs| > 0 {
      FromLittleEndianBound(bs[1..]);
    }
  }

  /** Decoding the bytes of a number that fits recovers the number. */
  lemma {:induction false} FromToLittleEndian(x: nat, width: nat)
    requires x < Pow256(width)
    ensures FromLittleEndian(LittleEndian(x, width)) == x
  {
    if width > 0 {
      FromToLittleEndian(x / 0x100, width - 1);
      assert LittleEndian(x, width)[1..] == LittleEndian(x / 0x100, width - 1);
    }
  }

  /** Encoding a decoded number gives back the same bytes. */
  lemma {:induction false} ToFromLittleEndian(bs: seq<byte>)
    ensures LittleEndian(FromLittleEndian(bs), |bs|) == bs
  {
    if |bs| > 0 {
      ToFromLittleEndian(bs[1..]);
      var x := FromLittleEndian(bs);
      assert x % 0x100 == bs[0] && x / 0x100 == FromLittleEndian(bs[1..]);
      assert bs == [bs[0]] + bs[1..];
    }
  }

  /** The header in front of every chunk. */
  datatype Header = Header(msgId: uint32, total: uint16, index: uint16)

  /** Bytes 0-3 the message id, bytes 4-5 the chunk count, bytes 6-7 the chunk index. */
  function EncodeHeader(h: Header): (bs: seq<byte>)
    ensures |bs| == HeaderSize
  {
    LittleEndian(h.msgId, 4) + LittleEndian(h.total, 2) + LittleEndian(h.index, 2)
  }

  /** The header read back from the first 8 bytes of a datagram. */
  function DecodeHeader(bs: seq<byte>): Header
    requires |bs| >= HeaderSize
  {
    FromLittleEndianBound(bs[0..4]);
    FromLittleEndianBound(bs[4..6]);
    FromLittleEndianBound(bs[6..8]);
    assert Pow256(2) == 0x1_0000 && Pow256(4) == 0x1_0000_0000;
    Header(FromLittleEndian(bs[0..4]), FromLittleEndian(bs[4..6]), FromLittleEndian(bs[6..8]))
  }

  /** Decoding a packet's header recovers the header it was encoded with, whatever follows it. */
  lemma HeaderRoundTrip(h: Header, payload: seq<byte>)
    ensures DecodeHeader(EncodeHeader(h) + payload) == h
  {
    var bs := EncodeHeader(h) + payload;
    assert Pow256(2) == 0x1_0000 && Pow256(4) == 0x1_0000_0000;
    assert bs[0..4] == LittleEndian(h.msgId, 4);
    assert bs[4..6] == LittleEndian(h.total, 2);
    assert bs[6..8] == LittleEndian(h.index, 2);
    FromToLittleEndian(h.msgId, 4);
    FromToLittleEndian(h.total, 2);
    FromToLittleEndian(h.index, 2);
  }

  /** Re-encoding a decoded header gives back the first 8 bytes of the datagram. */
  lemma DecodeEncodeHeader(bs: seq<byte>)
    requires |bs| >= HeaderSize
    ensures EncodeHeader(DecodeHeader(bs)) == bs[..HeaderSize]
  {
    ToFromLittleEndian(bs[0..4]);
    ToFromLittleEndian(bs[4..6]);
    ToFromLittleEndian(bs[6..8]);
    assert bs[..HeaderSize] == bs[0..4] + bs[4..6] + bs[6..8];
  }

  /** The implicit conversion of a size_t to uint16_t keeps the value modulo 2^16. */
  function Truncate16(x: nat): (r: uint16)
    ensures x < 0x1_0000 ==> r == x
  {
    x % 0x1_0000
  }

  /** The datagram that carries chunk `i` of `total` of message `msgId`. */
  function Packet(msgId: uint32, total: nat, i: nat, chunk: seq<byte>): seq<byte>
  {
    EncodeHeader(Header(msgId, Truncate16(total), Truncate16(i))) + chunk
  }

  /** The datagrams `send` emits for `message`, in the order it emits them. */
  function Packets(message: seq<byte>, msgId: uint32): (ps: seq<seq<byte>>)
    ensures |ps| == TotalChunks(|message|)
  {
    var n := TotalChunks(|message|);
    seq(n, i => if 0 <= i < n then Packet(msgId, n, i, Chunk(message, i)) else [])
  }

  /**
   * Every datagram fits the 1400-byte budget and is longer than its header, and reading it
   * back gives the message id, the chunk count and index (both modulo 2^16) and the chunk.
   */
  lemma PacketContents(message: seq<byte>, msgId: uint32, i: nat)
    requires i < TotalChunks(|message|)
    ensures HeaderSize < |Packets(message, msgId)[i]| <= MaxUdpPayload
    ensures DecodeHeader(Packets(message, msgId)[i]) ==
      Header(msgId, TotalChunks(|message|) % 0x1_0000, i % 0x1_0000)
    ensures Packets(message, msgId)[i][HeaderSize..] == Chunk(message, i)
  {
    var n := TotalChunks(|message|);
    HeaderRoundTrip(Header(msgId, Truncate16(n), Truncate16(i)), Chunk(message, i));
  }

  /**
   * A message of 65536 full chunks announces a chunk count of 0: the 16-bit field wraps,
   * so the round trip of the header needs at most 65535 chunks.
   */
  lemma ChunkCountWraps(message: seq<byte>)
    requires |message| == 0x1_0000 * MaxPayload
    ensures TotalChunks(|message|) == 0x1_0000
    ensures DecodeHeader(Packets(message, 0)[0]).total == 0
  {
    PacketContents(message, 0, 0);
  }
}
