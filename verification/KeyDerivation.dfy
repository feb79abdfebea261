/** Key derivation of the legacy handshake: the TLS 1.0 PRF (RFC 2246, section 5), the SSL 3.0
    generator (RFC 6101, section 6.2.2) and the Finished hashes of both versions. */
module KeyDerivation {
  import opened Bytes
  import opened Crypto
  import Standard

  const SSL30: nat := 0x0300
  const TLS10: nat := 0x0301

  // ----- P_hash, RFC 2246 section 5 -----

  /** A(0) = seed, A(i) = HMAC_hash(secret, A(i-1)). */
  function A(p: Primitives, kind: HashKind, secret: Bytes, seed: Bytes, i: nat): Bytes
  {
    if i == 0 then seed else p.Hmac(kind, secret, A(p, kind, secret, seed, i - 1))
  }

  /** The first `count` blocks HMAC_hash(secret, A(i) + seed), i = 1, 2, ... */
  function PHashBlocks(p: Primitives, kind: HashKind, secret: Bytes, seed: Bytes, count: nat): (r: Bytes)
    ensures |r| == count * kind.Size()
  {
    if count == 0 then []
    else PHashBlocks(p, kind, secret, seed, count - 1)
         + p.Hmac(kind, secret, A(p, kind, secret, seed, count) + seed)
  }

  /** Blocks that cover `n` bytes. */
  function BlockCount(n: nat, size: nat): (c: nat)
    requires 0 < size
    ensures n <= c * size
  {
    var c := (n + size - 1) / size;
    assert n + size - 1 == size * c + (n + size - 1) % size;
    c
  }

  function PHash(p: Primitives, kind: HashKind, secret: Bytes, seed: Bytes, n: nat): (r: Bytes)
    ensures |r| == n
  {
    PHashBlocks(p, kind, secret, seed, BlockCount(n, kind.Size()))[..n]
  }

  lemma {:induction false} PHashBlocksExtend(p: Primitives, kind: HashKind, secret: Bytes, seed: Bytes, few: nat, many: nat)
    requires few <= many
    ensures PHashBlocks(p, kind, secret, seed, few) <= PHashBlocks(p, kind, secret, seed, many)
    decreases many
  {
    if few < many {
      PHashBlocksExtend(p, kind, secret, seed, few, many - 1);
    }
  }

  lemma PHashFromBlocks(p: Primitives, kind: HashKind, secret: Bytes, seed: Bytes, n: nat, count: nat)
    requires n <= count * kind.Size()
    ensures PHashBlocks(p, kind, secret, seed, count)[..n] == PHash(p, kind, secret, seed, n)
  {
    assert BlockCount(n, 16) <= count || kind.SHA1?;
    PHashBlocksExtend(p, kind, secret, seed, BlockCount(n, kind.Size()), count);
  }

  /** A shorter output is a prefix of a longer one. */
  lemma PHashPrefix(p: Primitives, kind: HashKind, secret: Bytes, seed: Bytes, n: nat, m: nat)
    requires n <= m
    ensures PHash(p, kind, secret, seed, n) == PHash(p, kind, secret, seed, m)[..n]
  {
    var count := BlockCount(m, kind.Size());
    PHashFromBlocks(p, kind, secret, seed, n, count);
  }

  /** The loop: it appends one block at a time until `n` bytes are there. */
  method PHashLoop(p: Primitives, kind: HashKind, secret: Bytes, seed: Bytes, n: nat) returns (r: array<byte>)
    ensures fresh(r) && r[..] == PHash(p, kind, secret, seed, n)
  {
    var out: Bytes := [];
    var a := seed;
    ghost var count := 0;
    while |out| < n
      invariant a == A(p, kind, secret, seed, count)
      invariant out == PHashBlocks(p, kind, secret, seed, count)
      decreases n - |out|
    {
      a := p.Hmac(kind, secret, a);
      out := out + p.Hmac(kind, secret, a + seed);
      count := count + 1;
    }
    PHashFromBlocks(p, kind, secret, seed, n, count);
    r := new byte[n](i requires 0 <= i < n <= |out| => out[i]);
    assert r[..] == out[..n];
  }

  // ----- PRF -----

  function FirstHalf(secret: Bytes): Bytes { secret[..(|secret| + 1) / 2] }

  function SecondHalf(secret: Bytes): Bytes { secret[|secret| - (|secret| + 1) / 2..] }

  /** The halves cover the secret; an odd-length secret shares its middle byte. */
  lemma SecretHalves(secret: Bytes)
    ensures |secret| % 2 == 0 ==> FirstHalf(secret) + SecondHalf(secret) == secret
    ensures |secret| % 2 == 1 ==> FirstHalf(secret) + SecondHalf(secret)[1..] == secret
    ensures |secret| % 2 == 1 ==> FirstHalf(secret)[|secret| / 2] == SecondHalf(secret)[0]
  {
  }

  function Prf(p: Primitives, secret: Bytes, purpose: Bytes, seed: Bytes, n: nat): (r: Bytes)
    ensures |r| == n
  {
    XorSeq(PHash(p, MD5, FirstHalf(secret), purpose + seed, n),
           PHash(p, SHA1, SecondHalf(secret), purpose + seed, n))
  }

  lemma PrfPrefix(p: Primitives, secret: Bytes, purpose: Bytes, seed: Bytes, n: nat, m: nat)
    requires n <= m
    ensures Prf(p, secret, purpose, seed, n) == Prf(p, secret, purpose, seed, m)[..n]
  {
    PHashPrefix(p, MD5, FirstHalf(secret), purpose + seed, n, m);
    PHashPrefix(p, SHA1, SecondHalf(secret), purpose + seed, n, m);
  }

  /** The two P_hash outputs are combined in place, in the first one's buffer. */
  method PrfInPlace(p: Primitives, secret: Bytes, purpose: Bytes, seed: Bytes, n: nat) returns (a: array<byte>)
    ensures fresh(a) && a[..] == Prf(p, secret, purpose, seed, n)
  {
    var full := purpose + seed;
    var half := (|secret| + 1) / 2;
    a := PHashLoop(p, MD5, secret[..half], full, n);
    var b := PHashLoop(p, SHA1, secret[|secret| - half..], full, n);
    ghost var first, second := a[..], b[..];
    assert a.Length == |first| == n && b.Length == |second| == n;
    for i := 0 to a.Length
      invariant b[..] == second
      invariant forall j :: 0 <= j < i ==> a[j] == Xor(first[j], second[j])
      invariant forall j :: i <= j < a.Length ==> a[j] == first[j]
    {
      assert b[i] == second[i];
      a[i] := Xor(a[i], b[i]);
    }
  }

  // ----- the SSL 3.0 generator, RFC 6101 section 6.2.2 -----

  /** 'A', 'BB', 'CCC', ...; the letter is one byte, so it wraps. */
  function Salt(i: nat): Bytes
    requires 0 < i
  {
    Repeat((64 + i) % 256, i)
  }

  function Ssl3Blocks(p: Primitives, secret: Bytes, randoms: Bytes, count: nat): (r: Bytes)
    ensures |r| == 16 * count
  {
    if count == 0 then []
    else Ssl3Blocks(p, secret, randoms, count - 1)
         + p.md5(secret + p.sha1(Salt(count) + secret + randoms))
  }

  function Ssl3Generate(p: Primitives, secret: Bytes, randoms: Bytes, n: nat): (r: Bytes)
    ensures |r| == n
  {
    Ssl3Blocks(p, secret, randoms, BlockCount(n, 16))[..n]
  }

  lemma {:induction false} Ssl3BlocksExtend(p: Primitives, secret: Bytes, randoms: Bytes, few: nat, many: nat)
    requires few <= many
    ensures Ssl3Blocks(p, secret, randoms, few) <= Ssl3Blocks(p, secret, randoms, many)
    decreases many
  {
    if few < many {
      Ssl3BlocksExtend(p, secret, randoms, few, many - 1);
    }
  }

  lemma Ssl3FromBlocks(p: Primitives, secret: Bytes, randoms: Bytes, n: nat, count: nat)
    requires n <= 16 * count
    ensures Ssl3Blocks(p, secret, randoms, count)[..n] == Ssl3Generate(p, secret, randoms, n)
  {
    Ssl3BlocksExtend(p, secret, randoms, BlockCount(n, 16), count);
  }

  lemma Ssl3Prefix(p: Primitives, secret: Bytes, randoms: Bytes, n: nat, m: nat)
    requires n <= m
    ensures Ssl3Generate(p, secret, randoms, n) == Ssl3Generate(p, secret, randoms, m)[..n]
  {
    Ssl3FromBlocks(p, secret, randoms, n, BlockCount(m, 16));
  }

  method Ssl3GenerateLoop(p: Primitives, secret: Bytes, randoms: Bytes, n: nat) returns (r: Bytes)
    ensures r == Ssl3Generate(p, secret, randoms, n)
  {
    var out: Bytes := [];
    var i := 1;
    while |out| < n
      invariant 1 <= i && out == Ssl3Blocks(p, secret, randoms, i - 1)
      decreases n - |out|
    {
      var s := p.sha1(Repeat((64 + i) % 256, i) + secret + randoms);
      out := out + p.md5(secret + s);
      i := i + 1;
    }
    Ssl3FromBlocks(p, secret, randoms, n, i - 1);
    r := out[..n];
  }

  // ----- labels, secrets and Finished values -----

  const MASTER_SECRET: Bytes := [109, 97, 115, 116, 101, 114, 32, 115, 101, 99, 114, 101, 116]
  const KEY_EXPANSION: Bytes := [107, 101, 121, 32, 101, 120, 112, 97, 110, 115, 105, 111, 110]
  const CLIENT_FINISHED: Bytes := [99, 108, 105, 101, 110, 116, 32, 102, 105, 110, 105, 115, 104, 101, 100]
  const SERVER_FINISHED: Bytes := [115, 101, 114, 118, 101, 114, 32, 102, 105, 110, 105, 115, 104, 101, 100]
  const CLNT: Bytes := [0x43, 0x4c, 0x4e, 0x54]
  const SRVR: Bytes := [0x53, 0x52, 0x56, 0x52]

  function MasterSecret(p: Primitives, version: nat, premaster: Bytes, clientRandom: Bytes, serverRandom: Bytes): (r: Bytes)
    ensures |r| == 48
  {
    if version == TLS10 then Prf(p, premaster, MASTER_SECRET, clientRandom + serverRandom, 48)
    else Ssl3Generate(p, premaster, clientRandom + serverRandom, 48)
  }

  function ExpandKeys(p: Primitives, version: nat, master: Bytes, clientRandom: Bytes, serverRandom: Bytes, n: nat): (r: Bytes)
    ensures |r| == n
  {
    if version == TLS10 then Prf(p, master, KEY_EXPANSION, serverRandom + clientRandom, n)
    else Ssl3Generate(p, master, serverRandom + clientRandom, n)
  }

  function Ssl3FinishedHash(p: Primitives, kind: HashKind, padLen: nat, master: Bytes, transcript: Bytes, sender: Bytes): (r: Bytes)
    ensures |r| == kind.Size()
  {
    p.Hash(kind, master + Repeat(0x5c, padLen) + p.Hash(kind, transcript + sender + master + Repeat(0x36, padLen)))
  }

  function FinishedLength(version: nat): nat { if version == SSL30 then 36 else 12 }

  function FinishedVerify(p: Primitives, version: nat, master: Bytes, transcript: Bytes, client: bool): (r: Bytes)
    requires version == SSL30 || version == TLS10
    ensures |r| == FinishedLength(version)
  {
    if version == TLS10 then
      Prf(p, master, if client then CLIENT_FINISHED else SERVER_FINISHED, p.md5(transcript) + p.sha1(transcript), 12)
    else
      var sender := if client then CLNT else SRVR;
      Ssl3FinishedHash(p, MD5, 48, master, transcript, sender) + Ssl3FinishedHash(p, SHA1, 40, master, transcript, sender)
  }

  // ----- the standards' definitions -----

  lemma {:induction false} ChainLast(p: Primitives, kind: HashKind, secret: Bytes, x: Bytes, i: nat)
    ensures Standard.Chain(p, kind, secret, x, i + 1) == p.Hmac(kind, secret, Standard.Chain(p, kind, secret, x, i))
    decreases i
  {
    if i > 0 {
      ChainLast(p, kind, secret, p.Hmac(kind, secret, x), i - 1);
    }
  }

  lemma {:induction false} ChainIsA(p: Primitives, kind: HashKind, secret: Bytes, seed: Bytes, i: nat)
    ensures Standard.Chain(p, kind, secret, seed, i) == A(p, kind, secret, seed, i)
  {
    if i > 0 {
      ChainIsA(p, kind, secret, seed, i - 1);
      ChainLast(p, kind, secret, seed, i - 1);
    }
  }

  /** Where byte `i` of consecutive blocks stands in the last of them. */
  lemma LastBlock(i: nat, count: nat, size: nat)
    requires 0 < size && count > 0 && (size == 16 || size == 20) && (count - 1) * size <= i < count * size
    ensures i / size == count - 1 && i % size == i - (count - 1) * size
  {
  }

  lemma {:induction false} PHashBlocksAt(p: Primitives, kind: HashKind, secret: Bytes, seed: Bytes, count: nat, i: nat)
    requires i < count * kind.Size()
    ensures PHashBlocks(p, kind, secret, seed, count)[i] == Standard.PHashByte(p, kind, secret, seed, i)
  {
    var size := kind.Size();
    if i < (count - 1) * size {
      PHashBlocksAt(p, kind, secret, seed, count - 1, i);
    } else {
      LastBlock(i, count, size);
      ChainIsA(p, kind, secret, seed, count);
    }
  }

  /** P_hash, byte by byte. */
  lemma PHashAt(p: Primitives, kind: HashKind, secret: Bytes, seed: Bytes, n: nat, i: nat)
    requires i < n
    ensures PHash(p, kind, secret, seed, n)[i] == Standard.PHashByte(p, kind, secret, seed, i)
  {
    PHashBlocksAt(p, kind, secret, seed, BlockCount(n, kind.Size()), i);
  }

  lemma PrfIsStandard(p: Primitives, secret: Bytes, purpose: Bytes, name: string, seed: Bytes, n: nat)
    requires purpose == Standard.Text(name)
    ensures Prf(p, secret, purpose, seed, n) == Standard.Prf(p, secret, name, seed, n)
  {
    var a, b := Prf(p, secret, purpose, seed, n), Standard.Prf(p, secret, name, seed, n);
    assert |secret| - |secret| / 2 == (|secret| + 1) / 2;
    forall i | 0 <= i < n
      ensures a[i] == b[i]
    {
      PHashAt(p, MD5, FirstHalf(secret), purpose + seed, n, i);
      PHashAt(p, SHA1, SecondHalf(secret), purpose + seed, n, i);
    }
  }

  lemma {:induction false} Ssl3BlocksAt(p: Primitives, secret: Bytes, randoms: Bytes, count: nat, i: nat)
    requires i < 16 * count
    ensures Ssl3Blocks(p, secret, randoms, count)[i] == Standard.SaltedByte(p, secret, randoms, i)
  {
    if i < 16 * (count - 1) {
      Ssl3BlocksAt(p, secret, randoms, count - 1, i);
    } else {
      LastBlock(i, count, 16);
      assert Salt(count) == Standard.Run(('A' as int + i / 16) % 256, i / 16 + 1);
    }
  }

  lemma ExpansionIsStandard(p: Primitives, secret: Bytes, purpose: Bytes, name: string, seed: Bytes, n: nat)
    requires purpose == Standard.Text(name)
    ensures Prf(p, secret, purpose, seed, n) == Standard.Expand(p, TLS10, secret, name, seed, n)
    ensures forall version :: version != TLS10 ==> Ssl3Generate(p, secret, seed, n) == Standard.Expand(p, version, secret, name, seed, n)
  {
    PrfIsStandard(p, secret, purpose, name, seed, n);
    var a, b := Ssl3Generate(p, secret, seed, n), Standard.Expand(p, SSL30, secret, name, seed, n);
    forall i | 0 <= i < n
      ensures a[i] == b[i]
    {
      Ssl3BlocksAt(p, secret, seed, BlockCount(n, 16), i);
    }
  }

  lemma SecretTexts()
    ensures MASTER_SECRET == Standard.Text("master secret") && KEY_EXPANSION == Standard.Text("key expansion")
  {
  }

  lemma FinishedTexts()
    ensures CLIENT_FINISHED == Standard.Text("client finished") && SERVER_FINISHED == Standard.Text("server finished")
  {
  }

  lemma SenderTexts()
    ensures CLNT == Standard.Text("CLNT") && SRVR == Standard.Text("SRVR")
  {
  }

  /** The master secret and the key block are the standards'. */
  lemma SecretsAreStandard(p: Primitives, version: nat, secret: Bytes, clientRandom: Bytes, serverRandom: Bytes, n: nat)
    ensures MasterSecret(p, version, secret, clientRandom, serverRandom) == Standard.Master(p, version, secret, clientRandom, serverRandom)
    ensures ExpandKeys(p, version, secret, clientRandom, serverRandom, n) == Standard.KeyBlock(p, version, secret, clientRandom, serverRandom, n)
  {
    hide Prf; hide Ssl3Generate; hide Standard.Expand;
    SecretTexts();
    ExpansionIsStandard(p, secret, MASTER_SECRET, "master secret", clientRandom + serverRandom, 48);
    ExpansionIsStandard(p, secret, KEY_EXPANSION, "key expansion", serverRandom + clientRandom, n);
  }

  lemma NestedIsStandard(p: Primitives, kind: HashKind, padLen: nat, master: Bytes, transcript: Bytes, sender: Bytes)
    requires padLen == if kind.MD5? then 48 else 40
    ensures Ssl3FinishedHash(p, kind, padLen, master, transcript, sender) == Standard.Nested(p, kind, master, transcript + sender)
  {
    assert Repeat(0x36, padLen) == Standard.Pad(kind, 0x36) && Repeat(0x5c, padLen) == Standard.Pad(kind, 0x5c);
    var inner := p.Hash(kind, transcript + sender + master + Repeat(0x36, padLen));
    Regroup(transcript + sender, master, Repeat(0x36, padLen));
    Regroup(master, Repeat(0x5c, padLen), inner);
  }

  /** The Finished value is the standards', for either sender. */
  lemma FinishedIsStandard(p: Primitives, version: nat, master: Bytes, transcript: Bytes, client: bool)
    requires version == SSL30 || version == TLS10
    ensures FinishedVerify(p, version, master, transcript, client) == Standard.VerifyData(p, version, master, transcript, client)
  {
    hide Ssl3FinishedHash; hide Prf; hide Standard.Prf; hide Standard.Nested;
    FinishedTexts();
    SenderTexts();
    var sender := if client then CLNT else SRVR;
    NestedIsStandard(p, MD5, 48, master, transcript, sender);
    NestedIsStandard(p, SHA1, 40, master, transcript, sender);
    PrfIsStandard(p, master, if client then CLIENT_FINISHED else SERVER_FINISHED,
                  if client then "client finished" else "server finished", p.md5(transcript) + p.sha1(transcript), 12);
  }
}
