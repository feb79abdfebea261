/** The primitives the legacy protocols are built on, kept abstract: only digest lengths are known,
    and RC4 is a keystream indexed by key and position. */
module Crypto {
  import opened Bytes

  type Digest16 = b: Bytes | |b| == 16 witness Repeat(0, 16)
  type Digest20 = b: Bytes | |b| == 20 witness Repeat(0, 20)

  datatype HashKind = MD5 | SHA1
  {
    function Size(): nat { if MD5? then 16 else 20 }
  }

  datatype Primitives = Primitives(
    md5: Bytes -> Digest16,
    sha1: Bytes -> Digest20,
    hmacMd5: (Bytes, Bytes) -> Digest16,
    hmacSha1: (Bytes, Bytes) -> Digest20,
    keystream: (Bytes, nat) -> byte)
  {
    function Hash(kind: HashKind, data: Bytes): (d: Bytes)
      ensures |d| == kind.Size()
    {
      if kind.MD5? then md5(data) else sha1(data)
    }

    function Hmac(kind: HashKind, key: Bytes, data: Bytes): (d: Bytes)
      ensures |d| == kind.Size()
    {
      if kind.MD5? then hmacMd5(key, data) else hmacSha1(key, data)
    }

    /** RC4 over `data`, starting `pos` bytes into the keystream of `key`. */
    function Rc4(key: Bytes, pos: nat, data: Bytes): (r: Bytes)
      ensures |r| == |data|
    {
      seq(|data|, i requires 0 <= i < |data| => Xor(data[i], keystream(key, pos + i)))
    }

    lemma Rc4Twice(key: Bytes, pos: nat, data: Bytes)
      ensures Rc4(key, pos, Rc4(key, pos, data)) == data
    {
      forall i | 0 <= i < |data|
        ensures Rc4(key, pos, Rc4(key, pos, data))[i] == data[i]
      {
        XorTwice(data[i], keystream(key, pos + i));
      }
    }

    /** Encrypted zeros are the keystream of that key from that position on. */
    lemma Rc4OfZeros(key: Bytes, pos: nat, n: nat)
      ensures Rc4(key, pos, Repeat(0, n)) == seq(n, i requires 0 <= i => keystream(key, pos + i))
    {
      forall i | 0 <= i < n
        ensures Rc4(key, pos, Repeat(0, n))[i] == keystream(key, pos + i)
      {
        XorZero(keystream(key, pos + i));
      }
    }

    /** The stream is continuous: encrypting in two pieces is encrypting the whole. */
    lemma Rc4Split(key: Bytes, pos: nat, a: Bytes, b: Bytes)
      ensures Rc4(key, pos, a + b) == Rc4(key, pos, a) + Rc4(key, pos + |a|, b)
    {
    }
  }
}
