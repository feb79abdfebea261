/** EASO framing: a four-byte type, an identifier, the total length and the payload, in the clear and
    under RC4 with a truncated MD5 digest. */
module Easo {
  import opened Bytes
  import opened Crypto
  import opened Wrappers
  import opened Stream

  const HEADER_SIZE: nat := 12
  const MAX_FRAME_SIZE: nat := 0x10_0000
  const MAC_SIZE: nat := 8

  type uint32 = x: int | 0 <= x < 0x1_0000_0000

  datatype Frame = Frame(typ: Bytes, id: uint32, payload: Bytes)

  datatype FrameError = EndOfStream | BadType | PayloadTooLarge | BadLength | DigestMismatch | WriteFailed

  datatype Result<+T> = Ok(value: T) | Err(error: FrameError)

  /** What both writers refuse, in the order they look. */
  function Refusal(f: Frame): Option<FrameError>
  {
    if |f.typ| != 4 then Some(BadType)
    else if |f.payload| + HEADER_SIZE > MAX_FRAME_SIZE then Some(PayloadTooLarge)
    else None
  }

  function Layout(f: Frame, total: nat): Bytes { f.typ + U32(f.id) + U32(total) + f.payload }

  lemma LayoutFields(f: Frame, total: nat, rest: Bytes)
    requires |f.typ| == 4 && total < 0x1_0000_0000
    ensures var w := Layout(f, total) + rest;
            |w| == HEADER_SIZE + |f.payload| + |rest| && w[..4] == f.typ && ReadU32(w, 4) == f.id && ReadU32(w, 8) == total
            && w[HEADER_SIZE..HEADER_SIZE + |f.payload|] == f.payload && w[HEADER_SIZE + |f.payload|..] == rest
  {
    var w := Layout(f, total) + rest;
    U32Reads(f.id);
    U32Reads(total);
    assert w[4..8] == U32(f.id) && w[8..12] == U32(total);
    assert ReadU32(w, 4) == ReadU32(w[4..8], 0) && ReadU32(w, 8) == ReadU32(w[8..12], 0);
  }

  // ----- plain frames -----

  function Packet(f: Frame): Bytes { Layout(f, HEADER_SIZE + |f.payload|) }

  /** One frame off the stream, and what the stream still holds. */
  function Decode(wire: Bytes): (Result<Frame>, Bytes)
  {
    if |wire| < HEADER_SIZE then (Err(EndOfStream), [])
    else
      var length := ReadU32(wire, 8);
      if length < HEADER_SIZE || length > MAX_FRAME_SIZE then (Err(BadLength), wire[HEADER_SIZE..])
      else if |wire| < length then (Err(EndOfStream), [])
      else
        U32Range(wire, 4);
        (Ok(Frame(wire[..4], ReadU32(wire, 4), wire[HEADER_SIZE..length])), wire[length..])
  }

  lemma U32Range(b: Bytes, at: nat)
    requires at + 4 <= |b|
    ensures ReadU32(b, at) < 0x1_0000_0000
  {
  }

  /** Every frame the writer accepts is what the reader returns, and nothing after it is touched. */
  lemma PlainRoundTrip(f: Frame, rest: Bytes)
    requires Refusal(f).None?
    ensures Decode(Packet(f) + rest) == (Ok(f), rest)
  {
    LayoutFields(f, HEADER_SIZE + |f.payload|, rest);
  }

  /** And back: a frame that was read is one the writer accepts, and writing it gives the bytes read. */
  lemma PlainReadBack(wire: Bytes)
    requires Decode(wire).0.Ok?
    ensures Refusal(Decode(wire).0.value).None? && wire == Packet(Decode(wire).0.value) + Decode(wire).1
  {
    var f, length := Decode(wire).0.value, ReadU32(wire, 8);
    U32Writes(wire[4..8]);
    U32Writes(wire[8..12]);
    assert ReadU32(wire[4..8], 0) == f.id && ReadU32(wire[8..12], 0) == length;
    assert wire == wire[..4] + wire[4..8] + wire[8..12] + wire[12..length] + wire[length..];
  }

  /** The writers accept exactly what the readers can return: a four-byte type and at most 1048576 bytes in
      all. */
  lemma Acceptable(f: Frame)
    ensures Refusal(f).None? <==> |f.typ| == 4 && |f.payload| <= 1048576 - 12
    ensures Refusal(f).None? <==> exists wire :: Decode(wire).0 == Ok(f)
    ensures Refusal(f) == Some(BadType) <==> |f.typ| != 4
  {
    if Refusal(f).None? {
      PlainRoundTrip(f, []);
    }
    forall wire | Decode(wire).0 == Ok(f)
      ensures Refusal(f).None?
    {
      PlainReadBack(wire);
    }
  }

  /** Why a plain frame is refused, each reason exactly: a length out of range, behind the header, or a
      stream that ends too early, which is then consumed. */
  lemma PlainRefusals(wire: Bytes)
    ensures var (r, rest) := Decode(wire);
            var n := if |wire| >= 12 then ReadU32(wire, 8) else 12;
            (r == Err(BadLength) <==> n < 12 || n > 1048576) && (r == Err(BadLength) ==> rest == wire[12..])
            && (r == Err(EndOfStream) <==> |wire| < 12 || (12 <= n <= 1048576 && |wire| < n)) && (r == Err(EndOfStream) ==> rest == [])
            && (r.Err? ==> r == Err(BadLength) || r == Err(EndOfStream))
  {
  }

  method Read(stream: NetConn) returns (r: Result<Frame>)
    modifies stream`incoming, stream`consumed
    ensures (r, stream.incoming) == Decode(old(stream.incoming))
  {
    ghost var wire := stream.incoming;
    var header := stream.ReadFull(HEADER_SIZE);
    if header.None? {
      return Err(EndOfStream);
    }
    assert ReadU32(header.value, 8) == ReadU32(wire, 8) && ReadU32(header.value, 4) == ReadU32(wire, 4);
    var length := ReadU32(header.value, 8);
    if length < HEADER_SIZE || length > MAX_FRAME_SIZE {
      return Err(BadLength);
    }
    var payload := stream.ReadFull(length - HEADER_SIZE);
    if payload.None? {
      return Err(EndOfStream);
    }
    U32Range(header.value, 4);
    assert header.value[..4] == wire[..4];
    assert payload.value == wire[HEADER_SIZE..length] && stream.incoming == wire[length..];
    r := Ok(Frame(header.value[..4], ReadU32(header.value, 4), payload.value));
  }

  /** The packet is laid out in one buffer. */
  method Fill(f: Frame, total: nat) returns (packet: array<byte>)
    requires |f.typ| == 4 && total >= HEADER_SIZE + |f.payload|
    ensures fresh(packet) && packet.Length == total && packet[..HEADER_SIZE + |f.payload|] == Layout(f, total)
  {
    packet := new byte[total];
    CopyInto(packet, 0, f.typ);
    CopyInto(packet, 4, U32(f.id));
    CopyInto(packet, 8, U32(total));
    CopyInto(packet, HEADER_SIZE, f.payload);
  }

  method Write(stream: NetConn, f: Frame) returns (r: Option<FrameError>)
    modifies stream`sent
    ensures Refusal(f).Some? ==> r == Refusal(f) && stream.sent == old(stream.sent)
    ensures Refusal(f).None? ==> r in {None, Some(WriteFailed)}
    ensures Refusal(f).None? && r == None ==> stream.sent == old(stream.sent) + Packet(f)
    ensures Refusal(f).None? ==> old(stream.sent) <= stream.sent <= old(stream.sent) + Packet(f)
  {
    if |f.typ| != 4 {
      return Some(BadType);
    }
    if |f.payload| + HEADER_SIZE > MAX_FRAME_SIZE {
      return Some(PayloadTooLarge);
    }
    var packet := Fill(f, HEADER_SIZE + |f.payload|);
    assert packet[..] == packet[..HEADER_SIZE + |f.payload|];
    var ok, _ := stream.WriteAll(packet[..]);
    r := if ok then None else Some(WriteFailed);
  }

  // ----- secure frames -----

  function SecureLength(f: Frame): nat { HEADER_SIZE + |f.payload| + MAC_SIZE }

  /** The frame and the first bytes of its digest, before encryption. */
  function SecurePlain(p: Primitives, f: Frame): (r: Bytes)
    requires |f.typ| == 4
    ensures |r| == SecureLength(f)
  {
    Layout(f, SecureLength(f)) + p.md5(Layout(f, SecureLength(f)))[..MAC_SIZE]
  }

  /** What travels: the whole packet encrypted at the current position of the writer's stream. */
  function SecurePacket(p: Primitives, key: Bytes, pos: nat, f: Frame): (r: Bytes)
    requires |f.typ| == 4
    ensures |r| == SecureLength(f)
  {
    p.Rc4(key, pos, SecurePlain(p, f))
  }

  /** One frame off an encrypted stream: the result, the new cipher position and what is left. */
  function SecureDecode(p: Primitives, key: Bytes, pos: nat, wire: Bytes): (Result<Frame>, nat, Bytes)
  {
    if |wire| < HEADER_SIZE then (Err(EndOfStream), pos, [])
    else
      var header := p.Rc4(key, pos, wire[..HEADER_SIZE]);
      var length := ReadU32(header, 8);
      if length < HEADER_SIZE + MAC_SIZE || length > MAX_FRAME_SIZE + MAC_SIZE then
        (Err(BadLength), pos + HEADER_SIZE, wire[HEADER_SIZE..])
      else if |wire| < length then (Err(EndOfStream), pos + HEADER_SIZE, [])
      else (Check(p, p.Rc4(key, pos, wire[..length])), pos + length, wire[length..])
  }

  /** The digest check on a decrypted packet. */
  function Check(p: Primitives, packet: Bytes): Result<Frame>
    requires |packet| >= HEADER_SIZE + MAC_SIZE
  {
    var plainLength := |packet| - MAC_SIZE;
    if packet[plainLength..] != p.md5(packet[..plainLength])[..MAC_SIZE] then Err(DigestMismatch)
    else
      U32Range(packet, 4);
      Ok(Frame(packet[..4], ReadU32(packet, 4), packet[HEADER_SIZE..plainLength]))
  }

  lemma CheckAccepts(p: Primitives, f: Frame)
    requires Refusal(f).None?
    ensures Check(p, SecurePlain(p, f)) == Ok(f)
  {
    var body := Layout(f, SecureLength(f));
    LayoutFields(f, SecureLength(f), p.md5(body)[..MAC_SIZE]);
    var packet := SecurePlain(p, f);
    assert packet[..|packet| - MAC_SIZE] == body && packet[|packet| - MAC_SIZE..] == p.md5(body)[..MAC_SIZE];
  }

  /** A synchronised reader gets the frame back with a matching digest and stays synchronised. */
  lemma SecureRoundTrip(p: Primitives, key: Bytes, pos: nat, f: Frame, rest: Bytes)
    requires Refusal(f).None?
    ensures SecureDecode(p, key, pos, SecurePacket(p, key, pos, f) + rest) == (Ok(f), pos + SecureLength(f), rest)
  {
    var plain, wire := SecurePlain(p, f), SecurePacket(p, key, pos, f) + rest;
    var n := SecureLength(f);
    assert wire[..n] == SecurePacket(p, key, pos, f) && wire[n..] == rest;
    p.Rc4Twice(key, pos, plain);
    HeaderDecrypts(p, key, pos, wire, n);
    assert p.Rc4(key, pos, wire[..HEADER_SIZE]) == plain[..HEADER_SIZE];
    LayoutFields(f, n, p.md5(Layout(f, n))[..MAC_SIZE]);
    assert ReadU32(plain[..HEADER_SIZE], 8) == ReadU32(plain, 8);
    CheckAccepts(p, f);
  }

  /** And back: a packet the reader accepts is exactly the one the writer makes of that frame. */
  lemma SecureReadBack(p: Primitives, key: Bytes, pos: nat, wire: Bytes)
    requires SecureDecode(p, key, pos, wire).0.Ok?
    ensures var (r, pos', rest) := SecureDecode(p, key, pos, wire);
            Refusal(r.value).None? && wire == SecurePacket(p, key, pos, r.value) + rest && pos' == pos + SecureLength(r.value)
  {
    var n := ReadU32(p.Rc4(key, pos, wire[..HEADER_SIZE]), 8);
    var packet := p.Rc4(key, pos, wire[..n]);
    HeaderDecrypts(p, key, pos, wire, n);
    assert ReadU32(packet, 8) == ReadU32(packet[..HEADER_SIZE], 8) == n;
    var f := SecureDecode(p, key, pos, wire).0.value;
    assert Check(p, packet) == Ok(f);
    CheckedIsPlain(p, packet, f);
    p.Rc4Twice(key, pos, wire[..n]);
    assert wire == wire[..n] + wire[n..];
  }

  /** The packet before encryption: the plain frame, except that its length counts eight bytes more, and the
      first eight bytes of the digest of all that. */
  lemma SecureLayout(p: Primitives, f: Frame)
    requires |f.typ| == 4
    ensures var packet := SecurePlain(p, f);
            var n := |f.payload| + 20;
            |packet| == n && packet[n - 8..] == p.md5(packet[..n - 8])[..8]
            && packet[..4] == f.typ && packet[4..8] == U32(f.id) && packet[8..12] == U32(n) && packet[12..n - 8] == f.payload
  {
    var body := Layout(f, SecureLength(f));
    var packet := SecurePlain(p, f);
    assert packet[..|body|] == body && |body| == |f.payload| + 12;
    assert packet[4..8] == body[4..8] == U32(f.id) && packet[8..12] == body[8..12] == U32(|packet|);
    assert packet[..4] == body[..4] && packet[12..|body|] == body[12..];
  }

  /** The same for secure frames. A complete packet of legal length is refused exactly if it is no frame's
      packet at that position; the position has moved over all that was decrypted. */
  lemma SecureRefusals(p: Primitives, key: Bytes, pos: nat, wire: Bytes)
    ensures var (r, pos', rest) := SecureDecode(p, key, pos, wire);
            var n := if |wire| >= 12 then ReadU32(p.Rc4(key, pos, wire[..12]), 8) else 20;
            (r == Err(BadLength) <==> n < 20 || n > 1048576 + 8) && (r == Err(BadLength) ==> pos' == pos + 12 && rest == wire[12..])
            && (r == Err(EndOfStream) <==> |wire| < 12 || (20 <= n <= 1048576 + 8 && |wire| < n))
            && (r == Err(EndOfStream) ==> rest == [] && pos' == pos + if |wire| < 12 then 0 else 12)
            && (r == Err(DigestMismatch)
                <==> 12 <= |wire| && 20 <= n <= 1048576 + 8 && n <= |wire|
                     && forall f: Frame :: |f.typ| == 4 ==> wire[..n] != SecurePacket(p, key, pos, f))
            && (r == Err(DigestMismatch) ==> pos' == pos + n && rest == wire[n..])
  {
    var n := if |wire| >= 12 then ReadU32(p.Rc4(key, pos, wire[..12]), 8) else 20;
    if 12 <= |wire| && 20 <= n <= 1048576 + 8 && n <= |wire| {
      if SecureDecode(p, key, pos, wire).0.Ok? {
        SecureReadBack(p, key, pos, wire);
        var f := SecureDecode(p, key, pos, wire).0.value;
        assert wire[..n] == SecurePacket(p, key, pos, f);
      }
      forall f: Frame | |f.typ| == 4 && wire[..n] == SecurePacket(p, key, pos, f)
        ensures SecureDecode(p, key, pos, wire).0 == Ok(f)
      {
        assert Refusal(f).None?;
        SecureRoundTrip(p, key, pos, f, wire[n..]);
        assert wire == wire[..n] + wire[n..];
      }
    }
  }

  lemma CheckedIsPlain(p: Primitives, packet: Bytes, f: Frame)
    requires |packet| >= HEADER_SIZE + MAC_SIZE && ReadU32(packet, 8) == |packet| && Check(p, packet) == Ok(f)
    ensures |f.typ| == 4 && SecurePlain(p, f) == packet
  {
    var plainLength := |packet| - MAC_SIZE;
    U32Writes(packet[4..8]);
    U32Writes(packet[8..12]);
    assert ReadU32(packet[4..8], 0) == f.id && ReadU32(packet[8..12], 0) == |packet|;
    assert packet[..plainLength] == packet[..4] + packet[4..8] + packet[8..12] + packet[HEADER_SIZE..plainLength];
    assert packet == packet[..plainLength] + packet[plainLength..];
  }

  /** Decrypting the header first is decrypting the packet. */
  lemma HeaderDecrypts(p: Primitives, key: Bytes, pos: nat, wire: Bytes, n: nat)
    requires HEADER_SIZE <= n <= |wire|
    ensures p.Rc4(key, pos, wire[..n]) == p.Rc4(key, pos, wire[..HEADER_SIZE]) + p.Rc4(key, pos + HEADER_SIZE, wire[HEADER_SIZE..n])
    ensures p.Rc4(key, pos, wire[..HEADER_SIZE]) == p.Rc4(key, pos, wire[..n])[..HEADER_SIZE]
  {
    assert wire[..n] == wire[..HEADER_SIZE] + wire[HEADER_SIZE..n];
    p.Rc4Split(key, pos, wire[..HEADER_SIZE], wire[HEADER_SIZE..n]);
  }

  class SecureEASO {
    const p: Primitives
    const stream: NetConn
    const readKey: Bytes
    const writeKey: Bytes
    var readPos: nat
    var writePos: nat

    constructor (p: Primitives, stream: NetConn, readKey: Bytes, writeKey: Bytes)
      ensures this.p == p && this.stream == stream && this.readKey == readKey && this.writeKey == writeKey
      ensures readPos == writePos == 0
    {
      this.p, this.stream, this.readKey, this.writeKey := p, stream, readKey, writeKey;
      readPos, writePos := 0, 0;
    }

    method Read() returns (r: Result<Frame>)
      modifies `readPos, stream`incoming, stream`consumed
      ensures (r, readPos, stream.incoming) == SecureDecode(p, readKey, old(readPos), old(stream.incoming))
    {
      hide Check;
      ghost var wire, pos := stream.incoming, readPos;
      var header := stream.ReadFull(HEADER_SIZE);
      if header.None? {
        return Err(EndOfStream);
      }
      var h := p.Rc4(readKey, readPos, header.value);
      readPos := readPos + HEADER_SIZE;
      var wireLength := ReadU32(h, 8);
      if wireLength < HEADER_SIZE + MAC_SIZE || wireLength > MAX_FRAME_SIZE + MAC_SIZE {
        return Err(BadLength);
      }
      var body := stream.ReadFull(wireLength - HEADER_SIZE);
      if body.None? {
        return Err(EndOfStream);
      }
      var b := p.Rc4(readKey, readPos, body.value);
      readPos := readPos + |b|;
      assert body.value == wire[HEADER_SIZE..wireLength] && stream.incoming == wire[wireLength..];
      HeaderDecrypts(p, readKey, pos, wire, wireLength);
      r := Verify(h + b);
    }

    method Verify(packet: Bytes) returns (r: Result<Frame>)
      requires |packet| >= HEADER_SIZE + MAC_SIZE
      ensures r == Check(p, packet)
    {
      var plainLength := |packet| - MAC_SIZE;
      var digest := p.md5(packet[..plainLength]);
      if packet[plainLength..] != digest[..MAC_SIZE] {
        return Err(DigestMismatch);
      }
      U32Range(packet, 4);
      r := Ok(Frame(packet[..4], ReadU32(packet, 4), packet[HEADER_SIZE..plainLength]));
    }

    /** A refused frame leaves the cipher and the stream as they were. */
    method Write(f: Frame) returns (r: Option<FrameError>)
      modifies `writePos, stream`sent
      ensures Refusal(f).Some? ==> r == Refusal(f) && writePos == old(writePos) && stream.sent == old(stream.sent)
      ensures Refusal(f).None? ==> r in {None, Some(WriteFailed)} && writePos == old(writePos) + SecureLength(f)
      ensures Refusal(f).None? && r == None ==> stream.sent == old(stream.sent) + SecurePacket(p, writeKey, old(writePos), f)
      ensures Refusal(f).None? ==> old(stream.sent) <= stream.sent <= old(stream.sent) + SecurePacket(p, writeKey, old(writePos), f)
    {
      if |f.typ| != 4 {
        return Some(BadType);
      }
      var wireLength := SecureLength(f);
      if wireLength > MAX_FRAME_SIZE + MAC_SIZE {
        return Some(PayloadTooLarge);
      }
      var packet := Fill(f, wireLength);
      var digest := p.md5(packet[..wireLength - MAC_SIZE]);
      CopyInto(packet, wireLength - MAC_SIZE, digest[..MAC_SIZE]);
      assert packet[..] == packet[..wireLength] == SecurePlain(p, f);
      var encrypted := p.Rc4(writeKey, writePos, packet[..]);
      writePos := writePos + wireLength;
      var ok, _ := stream.WriteAll(encrypted);
      r := if ok then None else Some(WriteFailed);
    }
  }
}
