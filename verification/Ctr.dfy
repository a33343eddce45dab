/** The cipher suite as the proxy sees it.  AES in counter mode is an arbitrary
    keystream indexed by key, IV and byte position; SHA-256 and HMAC-SHA256 are
    arbitrary functions with 32-byte results. */
module Ctr {
  import opened Octets

  type Digest = d: Bytes | |d| == 32 witness seq(32, _ => 0)

  /** The cryptographic primitives, passed around as a value: every theorem holds
      whatever they compute. */
  datatype Suite = Suite(
    keystream: (Bytes, Bytes, nat) -> byte,
    sha256: Bytes -> Digest,
    hmac: (Bytes, Bytes) -> Digest)

  /** One direction's key material. */
  datatype StreamKey = StreamKey(key: Bytes, iv: Bytes)

  /** The output of a counter-mode stream whose next position is pos. */
  function Crypt(S: Suite, k: StreamKey, pos: nat, data: Bytes): (out: Bytes)
    ensures |out| == |data|
  {
    seq(|data|, i requires 0 <= i < |data| => XorByte(data[i], S.keystream(k.key, k.iv, pos + i)))
  }

  /** Each byte of output is the byte of input combined with the keystream at its position. */
  lemma CryptBytes(S: Suite, k: StreamKey, pos: nat, data: Bytes, i: nat)
    requires i < |data|
    ensures Xor(Crypt(S, k, pos, data)[i], data[i]) == S.keystream(k.key, k.iv, pos + i)
  {
    var z := S.keystream(k.key, k.iv, pos + i);
    XorSymmetric(data[i], z);
    XorCancels(z, data[i]);
  }

  /** A stream may be fed in pieces: position is all the state there is. */
  lemma CryptConcat(S: Suite, k: StreamKey, pos: nat, a: Bytes, b: Bytes)
    ensures Crypt(S, k, pos, a + b) == Crypt(S, k, pos, a) + Crypt(S, k, pos + |a|, b)
  {
    var both := Crypt(S, k, pos, a) + Crypt(S, k, pos + |a|, b);
    forall i | 0 <= i < |a + b|
      ensures Crypt(S, k, pos, a + b)[i] == both[i]
    {
      if i >= |a| {
        assert (a + b)[i] == b[i - |a|] && pos + i == pos + |a| + (i - |a|);
      }
    }
  }

  /** Decryption is encryption. */
  lemma CryptCancels(S: Suite, k: StreamKey, pos: nat, data: Bytes)
    ensures Crypt(S, k, pos, Crypt(S, k, pos, data)) == data
  {
    var twice := Crypt(S, k, pos, Crypt(S, k, pos, data));
    forall i | 0 <= i < |data|
      ensures twice[i] == data[i]
    {
      XorCancels(data[i], S.keystream(k.key, k.iv, pos + i));
    }
  }

  /** Every slice of a stream can be processed on its own, given its offset. */
  lemma CryptSlice(S: Suite, k: StreamKey, pos: nat, data: Bytes, lo: nat, hi: nat)
    requires lo <= hi <= |data|
    ensures Crypt(S, k, pos, data)[lo..hi] == Crypt(S, k, pos + lo, data[lo..hi])
  {
    var l, r := Crypt(S, k, pos, data)[lo..hi], Crypt(S, k, pos + lo, data[lo..hi]);
    forall i | 0 <= i < hi - lo
      ensures l[i] == r[i]
    {
      assert data[lo..hi][i] == data[lo + i] && pos + (lo + i) == pos + lo + i;
    }
  }

  /** A running cipher object: `Cipher(AES(key), CTR(iv)).encryptor()`. */
  class CtrCipher {
    const suite: Suite
    const key: StreamKey
    var pos: nat

    constructor (suite: Suite, key: StreamKey)
      ensures this.suite == suite && this.key == key && pos == 0
    {
      this.suite, this.key, pos := suite, key, 0;
    }

    method Update(data: Bytes) returns (out: Bytes)
      modifies this
      ensures out == Crypt(suite, key, old(pos), data)
      ensures pos == old(pos) + |data|
    {
      out := Crypt(suite, key, pos, data);
      pos := pos + |data|;
    }
  }
}
