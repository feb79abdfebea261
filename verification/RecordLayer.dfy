/** The record layer: headers, MACs, continuous RC4 streams, sequence numbers and fragmentation. */
module RecordLayer {
  import opened Bytes
  import opened Crypto
  import opened KeyDerivation
  import Standard

  const CHANGE_CIPHER_SPEC: byte := 20
  const ALERT: byte := 21
  const HANDSHAKE: byte := 22
  const APPLICATION_DATA: byte := 23

  const MAX_FRAGMENT: nat := 16384
  const MAX_RECORD: nat := 18432
  const SEQUENCE_MODULUS: nat := 0x1_0000_0000_0000_0000

  datatype RecordError = EndOfStream | UnsupportedRecordVersion | OversizedRecord | ShortEncryptedRecord | BadRecordMac

  // ----- cipher state of one direction -----

  /** `pos` is how far the RC4 stream of `key` has been consumed. */
  datatype Cipher = Cipher(active: bool, key: Bytes, pos: nat, macKey: Bytes, hash: HashKind, seqNo: nat, version: nat)

  const INACTIVE: Cipher := Cipher(false, [], 0, [], MD5, 0, 0)

  function MakeCipher(key: Bytes, macKey: Bytes, hash: HashKind, version: nat): Cipher
  {
    Cipher(true, key, 0, macKey, hash, 0, version)
  }

  function MacSize(c: Cipher): nat { if c.active then c.hash.Size() else 0 }

  function NextSequence(n: nat): nat { (n + 1) % SEQUENCE_MODULUS }

  /** RFC 2246 section 6.2.3.1 (HMAC) or RFC 6101 section 5.2.3.1 (nested hash with pads). */
  function RecordMac(p: Primitives, c: Cipher, typ: byte, data: Bytes): (mac: Bytes)
    ensures |mac| == c.hash.Size()
  {
    if c.version == SSL30 then
      var padLen := if c.hash.Size() == 16 then 48 else 40;
      p.Hash(c.hash, c.macKey + Repeat(0x5c, padLen)
                     + p.Hash(c.hash, c.macKey + Repeat(0x36, padLen) + U64(c.seqNo) + [typ] + U16(|data|) + data))
    else
      p.Hmac(c.hash, c.macKey, U64(c.seqNo) + [typ, 3, 1] + U16(|data|) + data)
  }

  // ----- sealing -----

  /** The protected payload: data and MAC, encrypted together; plain while no cipher is active. */
  function Seal(p: Primitives, c: Cipher, typ: byte, plain: Bytes): (data: Bytes)
    ensures |data| == |plain| + MacSize(c)
  {
    if c.active then p.Rc4(c.key, c.pos, plain + RecordMac(p, c, typ, plain)) else plain
  }

  /** The state after one record with `length` bytes of plaintext. */
  function After(c: Cipher, length: nat): Cipher
  {
    if c.active then c.(pos := c.pos + length + c.hash.Size(), seqNo := NextSequence(c.seqNo)) else c
  }

  /** The header carries the length in sixteen bits. */
  function Record(version: nat, typ: byte, data: Bytes): Bytes
  {
    [typ] + U16(version) + U16(|data|) + data
  }

  // ----- opening -----

  datatype Opened = Plain(data: Bytes) | Rejected(why: RecordError)

  function Open(p: Primitives, c: Cipher, typ: byte, data: Bytes): Opened
  {
    if !c.active then Plain(data)
    else
      var b := p.Rc4(c.key, c.pos, data);
      var macLen := c.hash.Size();
      if |b| < macLen then Rejected(ShortEncryptedRecord)
      else if b[|b| - macLen..] != RecordMac(p, c, typ, b[..|b| - macLen]) then Rejected(BadRecordMac)
      else Plain(b[..|b| - macLen])
  }

  /** Decryption consumes keystream even when the record is refused; only a good MAC counts. */
  function AfterOpen(p: Primitives, c: Cipher, typ: byte, data: Bytes): Cipher
  {
    if !c.active then c
    else
      var moved := c.(pos := c.pos + |data|);
      if Open(p, c, typ, data).Plain? then moved.(seqNo := NextSequence(c.seqNo)) else moved
  }

  lemma OpenSealed(p: Primitives, c: Cipher, typ: byte, plain: Bytes)
    ensures Open(p, c, typ, Seal(p, c, typ, plain)) == Plain(plain)
    ensures AfterOpen(p, c, typ, Seal(p, c, typ, plain)) == After(c, |plain|)
  {
    if c.active {
      var mac := RecordMac(p, c, typ, plain);
      p.Rc4Twice(c.key, c.pos, plain + mac);
      var b := p.Rc4(c.key, c.pos, Seal(p, c, typ, plain));
      assert b == plain + mac && |mac| == c.hash.Size();
      assert b[..|b| - |mac|] == plain && b[|b| - |mac|..] == mac;
    }
  }

  lemma OpenedIsSealed(p: Primitives, c: Cipher, typ: byte, data: Bytes)
    requires Open(p, c, typ, data).Plain?
    ensures data == Seal(p, c, typ, Open(p, c, typ, data).data)
  {
    if c.active {
      var b, size := p.Rc4(c.key, c.pos, data), c.hash.Size();
      p.Rc4Twice(c.key, c.pos, data);
      assert b == b[..|b| - size] + b[|b| - size..];
    }
  }

  /** What a record opens to: a plaintext exactly when it is that plaintext sealed in the same state, with
      the same type. A record too short for a MAC is refused as such, any other that seals no plaintext for
      its MAC. */
  lemma OpenExactly(p: Primitives, c: Cipher, typ: byte, data: Bytes)
    ensures forall plain :: Open(p, c, typ, data) == Plain(plain) <==> data == Seal(p, c, typ, plain)
    ensures Open(p, c, typ, data) == Rejected(ShortEncryptedRecord) <==> |data| < MacSize(c)
    ensures Open(p, c, typ, data) == Rejected(BadRecordMac) <==> |data| >= MacSize(c) && forall plain :: data != Seal(p, c, typ, plain)
  {
    forall plain
      ensures Open(p, c, typ, data) == Plain(plain) <==> data == Seal(p, c, typ, plain)
    {
      OpenSealed(p, c, typ, plain);
      if Open(p, c, typ, data).Plain? {
        OpenedIsSealed(p, c, typ, data);
      }
    }
    hide Seal;
    if Open(p, c, typ, data).Plain? {
      assert data == Seal(p, c, typ, Open(p, c, typ, data).data);
    }
  }

  // ----- the standards' records -----

  /** The keys of an active cipher, without its counters. */
  function KeysOf(c: Cipher): Standard.Writer { Standard.Writer(c.key, c.macKey, c.hash, c.version) }

  lemma MacIsStandard(p: Primitives, c: Cipher, typ: byte, data: Bytes)
    ensures RecordMac(p, c, typ, data) == Standard.Mac(p, KeysOf(c), c.seqNo, typ, data)
  {
    hide U64;
    if c.version == SSL30 {
      var padLen := if c.hash.Size() == 16 then 48 else 40;
      assert Repeat(0x36, padLen) == Standard.Pad(c.hash, 0x36) && Repeat(0x5c, padLen) == Standard.Pad(c.hash, 0x5c);
      hide U16;
      assert c.macKey + Repeat(0x36, padLen) + U64(c.seqNo) + [typ] + U16(|data|) + data
             == c.macKey + (Repeat(0x36, padLen) + (U64(c.seqNo) + ([typ] + (U16(|data|) + data))));
      var inner := p.Hash(c.hash, c.macKey + Repeat(0x36, padLen) + U64(c.seqNo) + [typ] + U16(|data|) + data);
      Regroup(c.macKey, Repeat(0x5c, padLen), inner);
    } else {
      assert [typ, 3, 1] == [typ] + U16(0x0301);
      hide U16;
      assert U64(c.seqNo) + ([typ] + U16(0x0301)) + U16(|data|) + data
             == U64(c.seqNo) + ([typ] + (U16(0x0301) + (U16(|data|) + data)));
    }
  }

  /** A sealed record is the standards' protected record, under the cipher's own number and offset. */
  lemma SealIsStandard(p: Primitives, c: Cipher, typ: byte, plain: Bytes)
    ensures Seal(p, c, typ, plain)
            == if c.active then Standard.Protect(p, KeysOf(c), c.pos, c.seqNo, typ, plain) else plain
  {
    MacIsStandard(p, c, typ, plain);
  }

  /** The TLS 1.0 MAC is over the number and the very record that would be sent without a cipher. */
  lemma MacCoversRecord(p: Primitives, c: Cipher, typ: byte, data: Bytes)
    requires c.version != SSL30
    ensures RecordMac(p, c, typ, data) == p.Hmac(c.hash, c.macKey, U64(c.seqNo) + Record(TLS10, typ, data))
  {
    MacIsStandard(p, c, typ, data);
    hide U64; hide U16;
    assert Record(TLS10, typ, data) == [typ] + (U16(TLS10) + (U16(|data|) + data));
  }

  // ----- reading -----

  /** The reading half of a connection; `wire` is everything the peer has put on the stream. */
  datatype Reader = Reader(version: nat, first: bool, cipher: Cipher, wire: Bytes)

  datatype Outcome = Received(typ: byte, data: Bytes) | Failed(why: RecordError)

  function ReadRecord(p: Primitives, r: Reader): (Outcome, Reader)
  {
    if |r.wire| < 5 then (Failed(EndOfStream), r.(wire := []))
    else
      var typ, version, n, rest := r.wire[0], ReadU16(r.wire, 1), ReadU16(r.wire, 3), r.wire[5..];
      if version != r.version && !(r.first && version == SSL30 && typ == HANDSHAKE) then
        (Failed(UnsupportedRecordVersion), r.(wire := rest))
      else if n > MAX_RECORD then (Failed(OversizedRecord), r.(first := false, wire := rest))
      else if |rest| < n then (Failed(EndOfStream), r.(first := false, wire := []))
      else Deliver(p, r, typ, rest[..n], rest[n..])
  }

  /** A complete record body goes through the cipher. */
  function Deliver(p: Primitives, r: Reader, typ: byte, body: Bytes, rest: Bytes): (Outcome, Reader)
  {
    var next := Reader(r.version, false, AfterOpen(p, r.cipher, typ, body), rest);
    match Open(p, r.cipher, typ, body)
    case Plain(data) => (Received(typ, data), next)
    case Rejected(why) => (Failed(why), next)
  }

  lemma ReadRecordConsumes(p: Primitives, r: Reader)
    ensures ReadRecord(p, r).0.Received? ==> |ReadRecord(p, r).1.wire| + 5 <= |r.wire|
  {
  }

  /** Header versions a reader takes: its own, or SSL 3.0 on the very first handshake record. */
  predicate Takes(r: Reader, version: nat, typ: byte)
  {
    version == r.version || (r.first && version == SSL30 && typ == HANDSHAKE)
  }

  /** One record written under the reader's cipher is read back, and both sides end in one state. */
  lemma ReadOwnRecord(p: Primitives, r: Reader, version: nat, typ: byte, plain: Bytes, rest: Bytes)
    requires version < 0x1_0000 && Takes(r, version, typ)
    requires |plain| + MacSize(r.cipher) <= MAX_RECORD
    requires r.wire == Record(version, typ, Seal(p, r.cipher, typ, plain)) + rest
    ensures ReadRecord(p, r) == (Received(typ, plain), Reader(r.version, false, After(r.cipher, |plain|), rest))
  {
    var data := Seal(p, r.cipher, typ, plain);
    HeaderFields(version, typ, data, rest);
    assert ReadRecord(p, r) == Deliver(p, r, typ, data, rest);
    OpenSealed(p, r.cipher, typ, plain);
  }

  /** The record reader, as an equivalence: it returns `plain` exactly when the stream begins with a record
      of an acceptable version and at most 18432 bytes that seals `plain` in the reader's state. */
  lemma ReadExactly(p: Primitives, r: Reader, typ: byte, plain: Bytes)
    requires r.version < 0x1_0000
    ensures ReadRecord(p, r).0 == Received(typ, plain)
            <==> exists version, rest :: Sends(p, r, version, typ, plain, rest)
    ensures forall version, rest :: Sends(p, r, version, typ, plain, rest) ==> ReadRecord(p, r).1.wire == rest
  {
    if ReadRecord(p, r).0 == Received(typ, plain) {
      ReceivedWasSent(p, r);
    }
    forall version, rest | Sends(p, r, version, typ, plain, rest)
      ensures ReadRecord(p, r).0 == Received(typ, plain) && ReadRecord(p, r).1.wire == rest
    {
      ReadOwnRecord(p, r, version, typ, plain, rest);
    }
  }

  ghost predicate Sends(p: Primitives, r: Reader, version: nat, typ: byte, plain: Bytes, rest: Bytes)
  {
    version < 0x1_0000 && Takes(r, version, typ) && |plain| + MacSize(r.cipher) <= 18432
    && r.wire == Record(version, typ, Seal(p, r.cipher, typ, plain)) + rest
  }

  lemma ReceivedWasSent(p: Primitives, r: Reader)
    requires ReadRecord(p, r).0.Received?
    ensures var (got, next) := ReadRecord(p, r); Sends(p, r, ReadU16(r.wire, 1), got.typ, got.data, next.wire)
  {
    var typ, version, n, rest := r.wire[0], ReadU16(r.wire, 1), ReadU16(r.wire, 3), r.wire[5..];
    OpenedIsSealed(p, r.cipher, typ, rest[..n]);
    HeaderBytes(r.wire);
    hide Seal; hide Open; hide ReadU16;
    assert r.wire == r.wire[..5] + rest && rest == rest[..n] + rest[n..];
    Regroup(r.wire[..5], rest[..n], rest[n..]);
  }

  /** The five bytes of a header, written again. */
  lemma HeaderBytes(wire: Bytes)
    requires |wire| >= 5
    ensures wire[..5] == [wire[0]] + U16(ReadU16(wire, 1)) + U16(ReadU16(wire, 3)) && ReadU16(wire, 1) < 0x1_0000
  {
    U16Writes(wire[1..3]);
    U16Writes(wire[3..5]);
    assert ReadU16(wire[1..3], 0) == ReadU16(wire, 1) && ReadU16(wire[3..5], 0) == ReadU16(wire, 3);
    hide U16; hide ReadU16;
    assert wire[..5] == [wire[0]] + wire[1..3] + wire[3..5];
  }

  /** Why a record is refused, each reason exactly: the header's version, its length, the stream ending
      early, or what is in the body. Only a header of an acceptable version ends the first record. */
  lemma RefusedExactly(p: Primitives, r: Reader)
    ensures var (got, next) := ReadRecord(p, r);
            var header := |r.wire| >= 5;
            var fitting := header && Takes(r, ReadU16(r.wire, 1), r.wire[0]);
            var body := if header then r.wire[5..] else [];
            var n := if header then ReadU16(r.wire, 3) else 0;
            (got == Failed(UnsupportedRecordVersion) <==> header && !fitting)
            && (got == Failed(OversizedRecord) <==> fitting && n > 18432)
            && (got == Failed(EndOfStream) <==> !header || (fitting && n <= 18432 && |body| < n))
            && (got == Failed(ShortEncryptedRecord) <==> fitting && n <= 18432 && n <= |body| && n < MacSize(r.cipher))
            && (got == Failed(BadRecordMac)
                <==> fitting && MacSize(r.cipher) <= n <= 18432 && n <= |body| && forall plain :: body[..n] != Seal(p, r.cipher, r.wire[0], plain))
            && next.first == (r.first && !fitting) && next.version == r.version
  {
    if |r.wire| >= 5 && |r.wire[5..]| >= ReadU16(r.wire, 3) {
      OpenExactly(p, r.cipher, r.wire[0], r.wire[5..][..ReadU16(r.wire, 3)]);
    }
    hide Open; hide Seal; hide ReadU16;
  }

  lemma HeaderFields(version: nat, typ: byte, data: Bytes, rest: Bytes)
    requires version < 0x1_0000
    ensures var w := Record(version, typ, data) + rest;
            |w| == 5 + |data| + |rest| && w[0] == typ && ReadU16(w, 1) == version && ReadU16(w, 3) == |data| % 0x1_0000
            && w[5..] == data + rest && w[5..][..|data|] == data && w[5..][|data|..] == rest
  {
    var w := Record(version, typ, data) + rest;
    U16Reads(version);
    U16Reads(|data|);
    assert w[1..3] == U16(version) && w[3..5] == U16(|data|);
    assert ReadU16(w, 1) == ReadU16(w[1..3], 0) && ReadU16(w, 3) == ReadU16(w[3..5], 0);
  }

  // ----- fragmentation -----

  function Fragments(data: Bytes): seq<Bytes>
    decreases |data|
  {
    if data == [] then []
    else if |data| <= MAX_FRAGMENT then [data]
    else [data[..MAX_FRAGMENT]] + Fragments(data[MAX_FRAGMENT..])
  }

  ghost predicate AllFragments(fs: seq<Bytes>) { forall i :: 0 <= i < |fs| ==> 1 <= |fs[i]| <= MAX_FRAGMENT }

  /** Fragmentation loses nothing and reorders nothing; every fragment but the last has 16384 bytes, the
      last one at least one and no more. */
  lemma {:induction false} FragmentsCover(data: Bytes)
    ensures Flatten(Fragments(data)) == data && AllFragments(Fragments(data))
    ensures var fs := Fragments(data);
            forall i :: 0 <= i < |fs| ==> 1 <= |fs[i]| <= 16384 && (i < |fs| - 1 ==> |fs[i]| == 16384)
    decreases |data|
  {
    if data == [] {
    } else if |data| <= MAX_FRAGMENT {
      FlattenOne(data);
    } else {
      var head, tail := data[..MAX_FRAGMENT], data[MAX_FRAGMENT..];
      FragmentsCover(tail);
      FlattenAppend([head], Fragments(tail));
      FlattenOne(head);
      assert head + tail == data;
    }
  }

  /** The records of a list of plaintexts, sealed one after the other. */
  function SealAll(p: Primitives, c: Cipher, version: nat, typ: byte, fs: seq<Bytes>): Bytes
    decreases |fs|
  {
    if fs == [] then []
    else Record(version, typ, Seal(p, c, typ, fs[0])) + SealAll(p, After(c, |fs[0]|), version, typ, fs[1..])
  }

  function AfterAll(c: Cipher, fs: seq<Bytes>): Cipher
    decreases |fs|
  {
    if fs == [] then c else AfterAll(After(c, |fs[0]|), fs[1..])
  }

  lemma SealAllStep(p: Primitives, c: Cipher, version: nat, typ: byte, fs: seq<Bytes>)
    requires fs != []
    ensures SealAll(p, c, version, typ, fs)
            == Record(version, typ, Seal(p, c, typ, fs[0])) + SealAll(p, After(c, |fs[0]|), version, typ, fs[1..])
    ensures AfterAll(c, fs) == AfterAll(After(c, |fs[0]|), fs[1..])
  {
    hide Record; hide Seal; hide After;
  }

  lemma SealOne(p: Primitives, c: Cipher, version: nat, typ: byte, f: Bytes)
    ensures SealAll(p, c, version, typ, [f]) == Record(version, typ, Seal(p, c, typ, f)) && AfterAll(c, [f]) == After(c, |f|)
  {
    hide Record; hide Seal; hide After;
    assert [f][1..] == [];
  }

  lemma {:induction false} SealAllAppend(p: Primitives, c: Cipher, version: nat, typ: byte, fs: seq<Bytes>, f: Bytes)
    ensures SealAll(p, c, version, typ, fs + [f])
            == SealAll(p, c, version, typ, fs) + Record(version, typ, Seal(p, AfterAll(c, fs), typ, f))
    ensures AfterAll(c, fs + [f]) == After(AfterAll(c, fs), |f|)
    decreases |fs|
  {
    if fs == [] {
      assert [] + [f] == [f];
      SealOne(p, c, version, typ, f);
    } else {
      var next, tail := After(c, |fs[0]|), fs[1..];
      SealAllAppend(p, next, version, typ, tail, f);
      SealAllStep(p, c, version, typ, fs);
      SealAllStep(p, c, version, typ, fs + [f]);
      hide SealAll; hide AfterAll; hide Record; hide Seal; hide After;
      assert (fs + [f])[0] == fs[0] && (fs + [f])[1..] == tail + [f];
      Regroup(Record(version, typ, Seal(p, c, typ, fs[0])), SealAll(p, next, version, typ, tail),
              Record(version, typ, Seal(p, AfterAll(next, tail), typ, f)));
    }
  }
}
