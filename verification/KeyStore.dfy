/**
 * The reference-counted keys handed out by the crypto library (EVP_PKEY objects).
 * Keys are numbered in order of creation; a key whose count is zero has been freed.
 * Retaining or releasing a freed key is what the preconditions rule out.
 */
module KeyStore {
  import opened Common

  type KeyId = nat

  class Store {
    var counts: seq<nat>

    constructor ()
      ensures counts == []
    {
      counts := [];
    }

    /** The reference count of a key, zero once freed and for keys not yet created. */
    ghost function Count(k: KeyId): (r: nat)
      reads this
    {
      if k < |counts| then counts[k] else 0
    }

    /** The key exists and has not been freed. */
    ghost predicate Live(k: KeyId)
      reads this
    {
      Count(k) > 0
    }

    ghost predicate LiveIfAny(k: Option<KeyId>)
      reads this
    {
      k.Some? ==> Live(k.value)
    }

    /** A key read from a PEM file: a new object holding one reference. */
    method Create() returns (k: KeyId)
      modifies this
      ensures k == |old(counts)| && old(Count(k)) == 0 && |counts| == |old(counts)| + 1
      ensures forall x :: Count(x) == old(Count(x)) + Is(Some(k), x)
    {
      k := |counts|;
      counts := counts + [1];
    }

    /** EVP_PKEY_up_ref, which may refuse. */
    method Retain(k: KeyId, granted: bool)
      requires Live(k)
      modifies this
      ensures |counts| == |old(counts)|
      ensures forall x :: Count(x) == old(Count(x)) + if granted then Is(Some(k), x) else 0
    {
      if granted {
        counts := counts[k := counts[k] + 1];
      }
    }

    /** EVP_PKEY_free on a pointer that may be NULL. */
    method Release(k: Option<KeyId>)
      requires LiveIfAny(k)
      modifies this
      ensures |counts| == |old(counts)|
      ensures forall x :: Count(x) == old(Count(x)) - Is(k, x)
    {
      if k.Some? {
        counts := counts[k.value := counts[k.value] - 1];
      }
    }
  }

  /** How many references to key `x` one pointer field stands for. */
  function Is(k: Option<KeyId>, x: KeyId): (r: nat) {
    if k == Some(x) then 1 else 0
  }
}
