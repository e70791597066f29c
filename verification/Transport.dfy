/** How the first two packet formats travel: in the clear, or as one block under the server's public key. */
module Transport {
  import opened Common
  import opened Bytes
  import opened Wire

  /** A public-key pair with its size in bytes, as encryption and decryption see it. */
  datatype KeyPair = KeyPair(size: nat, encrypt: seq<byte> -> Option<seq<byte>>,
                             decrypt: seq<byte> -> Option<seq<byte>>)

  ghost predicate Inverse(pair: KeyPair) {
    forall m :: pair.encrypt(m).Some? ==> pair.decrypt(pair.encrypt(m).value) == Some(m)
  }

  /** What an encoder uses of the sender's session. */
  datatype Session = Session(hmacKey: seq<byte>, pair: Option<KeyPair>)

  function PairOf(session: Option<Session>): (pair: Option<KeyPair>) {
    if session.None? then None else session.value.pair
  }

  // ---- signatures ----

  /** The foreign digest over what is signed, and the keyed hash; both ends run the same ones. */
  datatype Signer<!C> = Signer(digest: C -> Option<seq<byte>>, mac: (seq<byte>, seq<byte>) -> Option<seq<byte>>)

  ghost predicate MacIsDigest<C>(s: Signer<C>) {
    forall k, h :: s.mac(k, h).Some? ==> IsDigest(s.mac(k, h).value)
  }

  const MAC_KEY_SIZE: nat := 32

  function Signature<C>(s: Signer<C>, key: seq<byte>, c: C): (mac: Option<seq<byte>>) {
    if |key| < MAC_KEY_SIZE then None
    else
      var h := s.digest(c);
      if h.None? then None else s.mac(key[..MAC_KEY_SIZE], h.value)
  }

  /** A signature is the keyed hash, under the first 32 bytes of the key, of the digest of what is signed. */
  lemma SignatureExactly<C>(s: Signer<C>, key: seq<byte>, c: C, mac: seq<byte>)
    ensures Signature(s, key, c) == Some(mac) <==>
            |key| >= 32 && s.digest(c).Some? && s.mac(key[..32], s.digest(c).value) == Some(mac)
  {
  }

  /** Neither the digest nor the keyed hash gives one result for two inputs. */
  ghost predicate CollisionFree<C(!new)>(s: Signer<C>) {
    && (forall c, d :: s.digest(c).Some? && s.digest(c) == s.digest(d) ==> c == d)
    && (forall k, h, i :: s.mac(k, h).Some? && s.mac(k, h) == s.mac(k, i) ==> h == i)
  }

  /** Then one signature under one key is a signature of one content. */
  lemma SignatureBinds<C(!new)>(s: Signer<C>, key: seq<byte>, c: C, d: C)
    requires CollisionFree(s) && Signature(s, key, c).Some? && Signature(s, key, c) == Signature(s, key, d)
    ensures c == d
  {
  }

  // ---- sending and opening ----

  /** What PKCS#1 padding takes away from a block. */
  const PADDING: nat := 11

  /** What a decoder uses of its context. */
  datatype Receiver = Receiver(serverSecure: bool, pair: Option<KeyPair>)

  function Sent(packed: seq<byte>, encrypted: bool, pair: Option<KeyPair>, capacity: nat): (r: Option<seq<byte>>)
    ensures r.Some? ==> |r.value| <= capacity
  {
    if !encrypted then if capacity < |packed| then None else Some(packed)
    else if pair.None? then None
    else
      var size := pair.value.size;
      if size <= PADDING || capacity < size || |packed| > size - PADDING then None
      else
        var c := pair.value.encrypt(packed);
        if c.None? || |c.value| > capacity then None else c
  }

  /** Writes the bytes to send; in the clear, a refusal leaves the buffer alone. */
  method Send(packed: seq<byte>, encrypted: bool, pair: Option<KeyPair>, out: array<byte>, capacity: nat)
    returns (ok: bool, len: nat)
    requires capacity <= out.Length
    modifies out
    ensures ok <==> Sent(packed, encrypted, pair, capacity).Some?
    ensures ok ==> len == |Sent(packed, encrypted, pair, capacity).value|
    ensures ok ==> out[..] == Sent(packed, encrypted, pair, capacity).value + old(out[len..])
    ensures ok && !encrypted ==> out[..len] == packed
    ensures ok && encrypted ==> pair.Some? && pair.value.encrypt(packed) == Some(out[..len])
    ensures !ok && !encrypted ==> out[..] == old(out[..])
  {
    var bytes := packed;
    if encrypted {
      if pair.None? {
        return false, capacity;
      }
      var size := pair.value.size;
      if size <= PADDING || capacity < size || |packed| > size - PADDING {
        return false, capacity;
      }
      var c := pair.value.encrypt(packed);
      if c.None? || |c.value| > capacity {
        return false, capacity;
      }
      bytes := c.value;
    } else if capacity < |packed| {
      return false, capacity;
    }
    assert out[..0] == [];
    CopyTo(out, 0, bytes);
    assert out[..] == out[..|bytes|] + out[|bytes|..];
    return true, |bytes|;
  }

  /** The packed bytes a decoder goes on with; a secure server refuses what comes in the clear. */
  function Opened(ctx: Option<Receiver>, b: seq<byte>, encrypted: bool): (r: Option<seq<byte>>) {
    if encrypted then
      if ctx.None? || ctx.value.pair.None? || ctx.value.pair.value.size == 0 then None
      else
        var plain := ctx.value.pair.value.decrypt(b);
        if plain.None? || |plain.value| > ctx.value.pair.value.size then None else plain
    else if ctx.Some? && ctx.value.serverSecure then None
    else Some(b)
  }

  /** The two ends fit together: the same working key pair, or no need for one. */
  ghost predicate Compatible(pair: Option<KeyPair>, receiver: Receiver, encrypted: bool) {
    if encrypted then pair == receiver.pair && (pair.Some? ==> Inverse(pair.value)) else !receiver.serverSecure
  }

  /** What can be sent: in the clear what fits, else what fits one padded block of a key that fits. */
  lemma SentExactly(packed: seq<byte>, encrypted: bool, pair: Option<KeyPair>, capacity: nat, b: seq<byte>)
    ensures !encrypted ==> (Sent(packed, encrypted, pair, capacity) == Some(b) <==> b == packed && |packed| <= capacity)
    ensures encrypted ==>
              (Sent(packed, encrypted, pair, capacity) == Some(b) <==>
                 && pair.Some? && pair.value.encrypt(packed) == Some(b) && |b| <= capacity
                 && 11 < pair.value.size <= capacity && |packed| + 11 <= pair.value.size)
  {
  }

  /** What is opened: a secure server takes nothing in the clear, and nothing opens to more than a block. */
  lemma OpenedExactly(ctx: Option<Receiver>, b: seq<byte>, encrypted: bool, plain: seq<byte>)
    ensures !encrypted ==>
              (Opened(ctx, b, encrypted) == Some(plain) <==> plain == b && (ctx.Some? ==> !ctx.value.serverSecure))
    ensures encrypted ==>
              (Opened(ctx, b, encrypted) == Some(plain) <==>
                 && ctx.Some? && ctx.value.pair.Some? && 0 < ctx.value.pair.value.size
                 && ctx.value.pair.value.decrypt(b) == Some(plain) && |plain| <= ctx.value.pair.value.size)
  {
  }

  lemma SentIsOpened(packed: seq<byte>, encrypted: bool, pair: Option<KeyPair>, capacity: nat, receiver: Receiver)
    requires Sent(packed, encrypted, pair, capacity).Some? && Compatible(pair, receiver, encrypted)
    ensures Opened(Some(receiver), Sent(packed, encrypted, pair, capacity).value, encrypted) == Some(packed)
  {
  }
}
