/** What a peer takes from TLS 1.0 (RFC 2246) and SSL 3.0 (RFC 6101), in definitions of its own: expansions
    are given byte by byte. The honest client is built from these, and the server's derivations, MACs and
    sealed records are proved equal to them. */
module Standard {
  import opened Bytes
  import opened Crypto

  function Text(s: string): Bytes { seq(|s|, i requires 0 <= i < |s| => s[i] as int % 256) }

  /** `count` times the byte `b`. */
  function Run(b: byte, count: nat): Bytes { seq(count, _ => b) }

  // ----- expansion of secrets -----

  /** HMAC applied `i` times, beginning with `x`: A(i) of section 5 of RFC 2246. */
  function Chain(p: Primitives, kind: HashKind, secret: Bytes, x: Bytes, i: nat): Bytes
    decreases i
  {
    if i == 0 then x else Chain(p, kind, secret, p.Hmac(kind, secret, x), i - 1)
  }

  /** Byte `i` of P_hash(secret, seed). */
  function PHashByte(p: Primitives, kind: HashKind, secret: Bytes, seed: Bytes, i: nat): byte
  {
    p.Hmac(kind, secret, Chain(p, kind, secret, seed, i / kind.Size() + 1) + seed)[i % kind.Size()]
  }

  /** Both halves have half the length, rounded up. */
  function Prf(p: Primitives, secret: Bytes, name: string, seed: Bytes, n: nat): (r: Bytes)
    ensures |r| == n
  {
    var half := |secret| - |secret| / 2;
    var s := Text(name) + seed;
    seq(n, i requires 0 <= i => Xor(PHashByte(p, MD5, secret[..half], s, i), PHashByte(p, SHA1, secret[|secret| - half..], s, i)))
  }

  /** Byte `i` of the expansion in section 6.2.2 of RFC 6101, with the salts A, BB, CCC and so on. */
  function SaltedByte(p: Primitives, secret: Bytes, randoms: Bytes, i: nat): byte
  {
    p.md5(secret + p.sha1(Run(('A' as int + i / 16) % 256, i / 16 + 1) + secret + randoms))[i % 16]
  }

  function Expand(p: Primitives, version: nat, secret: Bytes, name: string, randoms: Bytes, n: nat): (r: Bytes)
    ensures |r| == n
  {
    if version == 0x0301 then Prf(p, secret, name, randoms, n)
    else seq(n, i requires 0 <= i => SaltedByte(p, secret, randoms, i))
  }

  /** Section 8.1 of RFC 2246, section 6.1 of RFC 6101. */
  function Master(p: Primitives, version: nat, premaster: Bytes, clientRandom: Bytes, serverRandom: Bytes): Bytes
  {
    Expand(p, version, premaster, "master secret", clientRandom + serverRandom, 48)
  }

  /** Section 6.3 of RFC 2246, section 6.2.2 of RFC 6101. */
  function KeyBlock(p: Primitives, version: nat, master: Bytes, clientRandom: Bytes, serverRandom: Bytes, n: nat): (r: Bytes)
    ensures |r| == n
  {
    Expand(p, version, master, "key expansion", serverRandom + clientRandom, n)
  }

  // ----- write keys -----

  /** What one end writes with. */
  datatype Writer = Writer(key: Bytes, macKey: Bytes, hash: HashKind, version: nat)

  function SuiteMac(suite: nat): HashKind { if suite == 4 then MD5 else SHA1 }

  /** The key block from the front: the MAC secrets of client and server, then their RC4 keys. */
  function Writers(p: Primitives, version: nat, suite: nat, master: Bytes, clientRandom: Bytes, serverRandom: Bytes): (r: (Writer, Writer))
  {
    var hash := SuiteMac(suite);
    var n := hash.Size();
    var block := KeyBlock(p, version, master, clientRandom, serverRandom, 2 * n + 32);
    var afterClientMac := block[n..];
    var keys := afterClientMac[n..];
    (Writer(keys[..16], block[..n], hash, version), Writer(keys[16..], afterClientMac[..n], hash, version))
  }

  // ----- records -----

  function Pad(kind: HashKind, b: byte): Bytes { if kind.MD5? then Run(b, 48) else Run(b, 40) }

  /** The MAC of the record with the given number: section 6.2.3.1 of RFC 2246, where it is over the number
      and the record as it would be sent in the clear, and section 5.2.3.1 of RFC 6101, without a version. */
  function Mac(p: Primitives, w: Writer, number: nat, typ: byte, data: Bytes): (mac: Bytes)
    ensures |mac| == w.hash.Size()
  {
    if w.version == 0x0300 then
      var inner := p.Hash(w.hash, w.macKey + (Pad(w.hash, 0x36) + (U64(number) + ([typ] + (U16(|data|) + data)))));
      p.Hash(w.hash, w.macKey + (Pad(w.hash, 0x5c) + inner))
    else
      p.Hmac(w.hash, w.macKey, U64(number) + ([typ] + (U16(0x0301) + (U16(|data|) + data))))
  }

  /** Data and MAC, encrypted together `pos` bytes into the keystream. */
  function Protect(p: Primitives, w: Writer, pos: nat, number: nat, typ: byte, data: Bytes): (body: Bytes)
    ensures |body| == |data| + w.hash.Size()
  {
    p.Rc4(w.key, pos, data + Mac(p, w, number, typ, data))
  }

  // ----- Finished -----

  /** One half of an SSL 3.0 Finished, section 5.6.9 of RFC 6101. */
  function Nested(p: Primitives, kind: HashKind, master: Bytes, messages: Bytes): (r: Bytes)
    ensures |r| == kind.Size()
  {
    p.Hash(kind, master + (Pad(kind, 0x5c) + p.Hash(kind, messages + (master + Pad(kind, 0x36)))))
  }

  /** Section 7.4.9 of RFC 2246, section 5.6.9 of RFC 6101. */
  function VerifyData(p: Primitives, version: nat, master: Bytes, messages: Bytes, fromClient: bool): Bytes
  {
    if version == 0x0301 then
      Prf(p, master, if fromClient then "client finished" else "server finished", p.md5(messages) + p.sha1(messages), 12)
    else
      var sender := Text(if fromClient then "CLNT" else "SRVR");
      Nested(p, MD5, master, messages + sender) + Nested(p, SHA1, master, messages + sender)
  }
}
