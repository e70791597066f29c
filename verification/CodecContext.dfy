/**
 * The codec's key snapshot: one server key and a growable keychain of uniquely named entries.
 * Every key an entry points to is retained for it, so the snapshot outlives the config it was built from.
 */
module CodecContext {
  import opened Common
  import opened KeyStore

  datatype KeyEntry = KeyEntry(
    userId: nat,
    name: Option<string>,
    publicKey: Option<KeyId>,
    privateKey: Option<KeyId>,
    hmac: Option<seq<byte>>,
    hmacLen: nat,
    flags: nat)

  /** The all-zero entry left by memset and by freeing. */
  const EMPTY := KeyEntry(0, None, None, None, None, 0, 0)

  /** What the codecs read of a context, and how many entries there is room for. */
  datatype Snapshot = Snapshot(entries: seq<KeyEntry>, serverKey: KeyEntry, serverSecure: bool, window: nat,
                               capacity: nat)

  /** The room there is after making sure of `needed` entries. */
  function Grown(capacity: nat, needed: nat): (r: nat)
    ensures r >= needed && r >= capacity
  {
    if needed <= capacity then capacity else LeastDoubling(if capacity == 0 then 4 else capacity, needed)
  }

  /** The room is what it was, or four or it doubled any number of times. */
  ghost predicate IsDoubling(capacity: nat, grown: nat) {
    grown == capacity || exists k: nat :: grown == (if capacity == 0 then 4 else capacity) * Power2(k)
  }

  function Power2(k: nat): (r: nat) {
    if k == 0 then 1 else 2 * Power2(k - 1)
  }

  lemma {:induction false} DoublesTo(v: nat, min: nat) returns (k: nat)
    requires v > 0
    ensures LeastDoubling(v, min) == v * Power2(k) && (LeastDoubling(v, min) == v || LeastDoubling(v, min) < 2 * min)
    decreases if v < min then min - v else 0
  {
    if v >= min {
      return 0;
    }
    var j := DoublesTo(2 * v, min);
    Twice(v, Power2(j));
    return j + 1;
  }

  lemma Twice(v: nat, p: nat)
    ensures 2 * v * p == v * (2 * p)
  {
  }

  /** Making room one entry at a time ends where making room at once does. */
  lemma GrownInSteps(capacity: nat, needed: nat, more: nat)
    requires needed <= more
    ensures Grown(Grown(capacity, needed), more) == Grown(capacity, more)
  {
    if needed > capacity {
      DoublingInSteps(if capacity == 0 then 4 else capacity, needed, more);
    }
  }

  /** Which of the fallible calls made while copying an entry succeed. */
  datatype CopyGrants = CopyGrants(name: bool, publicRef: bool, privateRef: bool, hmac: bool)

  /** Which of the fallible calls made while adding an entry succeed. */
  datatype AddGrants = AddGrants(grow: bool, copy: CopyGrants)

  predicate Copyable(src: KeyEntry, g: CopyGrants) {
    && src.name.Some? && g.name
    && (src.publicKey.Some? ==> g.publicRef)
    && (src.privateKey.Some? ==> g.privateRef)
    && (src.hmacLen > 0 ==> src.hmac.Some? && g.hmac)
  }

  /** The HMAC buffer really holds the number of bytes its length field says. */
  predicate Sized(src: KeyEntry) {
    src.hmac.Some? ==> src.hmacLen <= |src.hmac.value|
  }

  /** The entry a successful copy produces: owned bytes for exactly hmacLen of the source's. */
  function CopyOf(src: KeyEntry): (r: KeyEntry)
    requires Sized(src)
  {
    src.(hmac := if src.hmacLen > 0 && src.hmac.Some? then Some(src.hmac.value[..src.hmacLen]) else None)
  }

  /** How many references to key `k` an entry owns. */
  function EntryUses(e: KeyEntry, k: KeyId): (r: nat) {
    Is(e.publicKey, k) + Is(e.privateKey, k)
  }

  /** How many references to key `k` a run of entries owns. */
  function Uses(es: seq<KeyEntry>, k: KeyId): (r: nat) {
    if es == [] then 0 else Uses(es[..|es| - 1], k) + EntryUses(es[|es| - 1], k)
  }

  ghost predicate UniqueNames(es: seq<KeyEntry>) {
    && (forall i :: 0 <= i < |es| ==> es[i].name.Some? && es[i].name.value != "")
    && (forall i, j :: 0 <= i < j < |es| ==> es[i].name != es[j].name)
  }

  /** The position of the first entry with this name, or the length when there is none. */
  function IndexOf(es: seq<KeyEntry>, name: string): (i: nat)
    ensures i <= |es|
    ensures i < |es| ==> es[i].name == Some(name)
    ensures forall j :: 0 <= j < i ==> es[j].name != Some(name)
  {
    if es == [] then 0
    else if es[0].name == Some(name) then 0
    else 1 + IndexOf(es[1..], name)
  }

  lemma {:induction false} UsesConcat(a: seq<KeyEntry>, b: seq<KeyEntry>, k: KeyId)
    ensures Uses(a + b, k) == Uses(a, k) + Uses(b, k)
  {
    if b == [] {
      assert a + b == a;
    } else {
      var ab := a + b;
      assert ab[..|ab| - 1] == a + b[..|b| - 1];
      UsesConcat(a, b[..|b| - 1], k);
    }
  }

  /** Taking one entry out of the keychain gives up exactly that entry's references. */
  lemma {:induction false} UsesRemove(es: seq<KeyEntry>, i: nat, k: KeyId)
    requires i < |es|
    ensures Uses(es[..i] + es[i + 1..], k) == Uses(es, k) - EntryUses(es[i], k)
  {
    assert es == es[..i] + ([es[i]] + es[i + 1..]);
    UsesConcat(es[..i], [es[i]] + es[i + 1..], k);
    UsesConcat([es[i]], es[i + 1..], k);
    UsesConcat(es[..i], es[i + 1..], k);
    assert Uses([es[i]], k) == EntryUses(es[i], k) by { assert [es[i]][..0] == []; }
  }

  /** The two ways a keychain changes, told for every key at once. */
  lemma AppendEffect(es: seq<KeyEntry>, e: KeyEntry)
    requires UniqueNames(es) && e.name.Some? && e.name.value != "" && IndexOf(es, e.name.value) == |es|
    ensures UniqueNames(es + [e])
    ensures forall k: KeyId :: Uses(es + [e], k) == Uses(es, k) + EntryUses(e, k)
  {
    assert (es + [e])[..|es|] == es;
  }

  lemma RemoveEffect(es: seq<KeyEntry>, i: nat)
    requires UniqueNames(es) && i < |es|
    ensures UniqueNames(es[..i] + es[i + 1..])
    ensures forall k: KeyId :: Uses(es, k) == Uses(es[..i] + es[i + 1..], k) + EntryUses(es[i], k)
  {
    forall k: KeyId ensures Uses(es, k) == Uses(es[..i] + es[i + 1..], k) + EntryUses(es[i], k) {
      UsesRemove(es, i, k);
    }
  }

  lemma FirstEffect(es: seq<KeyEntry>, i: nat)
    requires i < |es|
    ensures forall k: KeyId :: Uses(es[i..], k) == EntryUses(es[i], k) + Uses(es[i + 1..], k)
  {
    forall k: KeyId ensures Uses(es[i..], k) == EntryUses(es[i], k) + Uses(es[i + 1..], k) {
      UsesRemove(es[i..], 0, k);
      assert es[i..][..0] + es[i..][1..] == es[i + 1..];
    }
  }

  class Context {
    const store: Store
    var serverKey: KeyEntry
    var hasServerKey: bool
    var serverSecure: bool
    var keychain: array<KeyEntry>
    var len: nat
    var activeKeyName: Option<string>
    var nonceWindowMs: nat

    ghost function Entries(): (r: seq<KeyEntry>)
      reads this, keychain
      requires len <= keychain.Length
    {
      keychain[..len]
    }

    ghost function Snap(): (r: Snapshot)
      reads this, keychain
      requires len <= keychain.Length
    {
      Snapshot(Entries(), serverKey, serverSecure, nonceWindowMs, keychain.Length)
    }

    /** How many references to key `k` this snapshot owns. */
    ghost function Held(k: KeyId): (r: nat)
      reads this, keychain
      requires len <= keychain.Length
    {
      Uses(Entries(), k) + EntryUses(serverKey, k)
    }

    /** Every owned reference is backed by the count of a live key. */
    ghost predicate Backed()
      reads this, keychain, store
      requires len <= keychain.Length
    {
      forall k: KeyId :: Held(k) <= store.Count(k)
    }

    ghost predicate Valid()
      reads this, keychain, store
    {
      && len <= keychain.Length
      && UniqueNames(Entries())
      && (forall i :: len <= i < keychain.Length ==> keychain[i] == EMPTY)
      && (serverKey.name.None? ==> serverKey == EMPTY)
      && (hasServerKey <==> serverKey.name.Some?)
      && Backed()
    }

    /** The references to `k` that belong to somebody else. */
    ghost function Others(k: KeyId): (r: int)
      reads this, keychain, store
      requires len <= keychain.Length
    {
      store.Count(k) - Held(k)
    }

    twostate predicate OthersKept()
      reads this, keychain, store
      requires old(len) <= old(keychain).Length && len <= keychain.Length
    {
      && |store.counts| == |old(store.counts)|
      && forall k: KeyId :: Others(k) == old(Others(k))
    }

    constructor (store: Store)
      ensures Valid() && fresh(keychain) && this.store == store
      ensures Entries() == [] && serverKey == EMPTY && keychain.Length == 0
      ensures !serverSecure && activeKeyName == None && nonceWindowMs == 0
    {
      this.store := store;
      serverKey, hasServerKey, serverSecure := EMPTY, false, false;
      keychain, len := new KeyEntry[0], 0;
      activeKeyName, nonceWindowMs := None, 0;
    }

    /** Frees what an entry owns; the caller overwrites the entry with zeros. */
    method ReleaseEntry(e: KeyEntry)
      requires Owns(e)
      modifies store
      ensures |store.counts| == |old(store.counts)|
      ensures forall k: KeyId :: store.Count(k) == old(store.Count(k)) - EntryUses(e, k)
    {
      assert e.publicKey.Some? ==> EntryUses(e, e.publicKey.value) > 0;
      assert e.privateKey.Some? ==> EntryUses(e, e.privateKey.value) > 0;
      store.Release(e.publicKey);
      store.Release(e.privateKey);
    }

    /** Every reference the entry owns is backed by a count. */
    ghost predicate Owns(e: KeyEntry)
      reads this, store
    {
      forall k: KeyId :: EntryUses(e, k) <= store.Count(k)
    }

    /** The keys the entry points to may be retained. */
    ghost predicate Retainable(e: KeyEntry)
      reads this, store
    {
      store.LiveIfAny(e.publicKey) && store.LiveIfAny(e.privateKey)
    }

    /**
     * Copies an entry step by step, retaining its keys. When a step is refused, what was taken
     * so far is given back and the destination is zero.
     */
    method CopyEntry(src: KeyEntry, g: CopyGrants) returns (dst: KeyEntry, ok: bool)
      requires Sized(src) && Retainable(src)
      modifies store
      ensures |store.counts| == |old(store.counts)|
      ensures ok <==> Copyable(src, g)
      ensures ok <==>
              && src.name.Some? && g.name && (src.publicKey == None || g.publicRef)
              && (src.privateKey == None || g.privateRef) && (src.hmacLen == 0 || (src.hmac.Some? && g.hmac))
      ensures dst == if ok then CopyOf(src) else EMPTY
      ensures ok ==> dst.name == src.name && dst.userId == src.userId && dst.flags == src.flags
      ensures ok ==> dst.publicKey == src.publicKey && dst.privateKey == src.privateKey && dst.hmacLen == src.hmacLen
      ensures ok ==> if src.hmacLen > 0 then dst.hmac == Some(src.hmac.value[..src.hmacLen]) else dst.hmac == None
      ensures !ok ==> dst.name == None && dst.publicKey == None && dst.privateKey == None && dst.hmac == None
      ensures forall k: KeyId :: store.Count(k) == old(store.Count(k)) + if ok then EntryUses(src, k) else 0
    {
      dst, ok := EMPTY, false;
      if src.name.None? || !g.name {
        return;
      }
      dst := dst.(name := src.name);
      if src.publicKey.Some? {
        store.Retain(src.publicKey.value, g.publicRef);
        if !g.publicRef {
          ReleaseEntry(dst);
          return EMPTY, false;
        }
        dst := dst.(publicKey := src.publicKey);
      }
      if src.privateKey.Some? {
        store.Retain(src.privateKey.value, g.privateRef);
        if !g.privateRef {
          ReleaseEntry(dst);
          return EMPTY, false;
        }
        dst := dst.(privateKey := src.privateKey);
      }
      if src.hmacLen > 0 {
        if src.hmac.None? || !g.hmac {
          ReleaseEntry(dst);
          return EMPTY, false;
        }
        dst := dst.(hmac := Some(src.hmac.value[..src.hmacLen]));
      }
      dst := dst.(hmacLen := src.hmacLen, userId := src.userId, flags := src.flags);
      ok := true;
    }

    /** Replaces the server key; on failure the old one stays. */
    method SetServerKey(src: KeyEntry, g: CopyGrants) returns (ok: bool)
      requires Valid() && Sized(src) && Retainable(src)
      modifies this`serverKey, this`hasServerKey, store
      ensures Valid() && OthersKept()
      ensures ok <==> Copyable(src, g) && src.name.value != ""
      ensures serverKey == if ok then CopyOf(src) else old(serverKey)
    {
      if src.name.None? || src.name.value == "" {
        return false;
      }
      var copy;
      copy, ok := CopyEntry(src, g);
      if !ok {
        return;
      }
      ReleaseEntry(serverKey);
      serverKey := copy;
      hasServerKey := true;
    }

    method ClearServerKey()
      requires Valid()
      modifies this`serverKey, this`hasServerKey, this`serverSecure, store
      ensures Valid() && OthersKept()
      ensures serverKey == EMPTY && !serverSecure
    {
      ReleaseEntry(serverKey);
      serverKey := EMPTY;
      hasServerKey := false;
      serverSecure := false;
    }

    /** Grows the keychain by doubling; a refused realloc leaves it as it was. */
    method EnsureCapacity(needed: nat, grant: bool) returns (ok: bool)
      requires Valid() && needed > 0
      modifies this`keychain
      ensures Valid() && Entries() == old(Entries())
      ensures ok <==> needed <= old(keychain.Length) || grant
      ensures keychain.Length == if ok then Grown(old(keychain.Length), needed) else old(keychain.Length)
      ensures ok ==> needed <= keychain.Length && IsDoubling(old(keychain.Length), keychain.Length)
      ensures ok && needed > old(keychain.Length) && needed > 4 ==> keychain.Length < 2 * needed
      ensures keychain == old(keychain) || fresh(keychain)
    {
      if keychain.Length >= needed {
        return true;
      }
      ghost var k := DoublesTo(if keychain.Length == 0 then 4 else keychain.Length, needed);
      var newCap := if keychain.Length == 0 then 4 else keychain.Length;
      while newCap < needed
        invariant newCap > 0 && newCap >= keychain.Length
        invariant LeastDoubling(newCap, needed) == Grown(keychain.Length, needed)
      {
        newCap := newCap * 2;
      }
      if !grant {
        return false;
      }
      var entries := new KeyEntry[newCap](i reads this, keychain =>
        if 0 <= i < keychain.Length then keychain[i] else EMPTY);
      assert entries[..len] == keychain[..len];
      keychain := entries;
      return true;
    }

    method NameExists(name: string) returns (found: bool)
      requires Valid()
      ensures found <==> IndexOf(Entries(), name) < len
    {
      for i := 0 to len
        invariant forall j :: 0 <= j < i ==> keychain[j].name != Some(name)
      {
        if keychain[i].name == Some(name) {
          assert Entries()[i].name == Some(name);
          return true;
        }
      }
      return false;
    }

    /** Appends a copy of the entry unless its name is empty or taken. */
    method AddKeychain(entry: KeyEntry, g: AddGrants) returns (ok: bool)
      requires Valid() && Sized(entry) && Retainable(entry)
      modifies this`keychain, this`len, keychain, store
      ensures Valid() && OthersKept()
      ensures keychain == old(keychain) || fresh(keychain)
      ensures ok <==>
              && entry.name.Some? && entry.name.value != ""
              && IndexOf(old(Entries()), entry.name.value) == old(len)
              && (old(len) < old(keychain.Length) || g.grow)
              && Copyable(entry, g.copy)
      ensures Entries() == if ok then old(Entries()) + [CopyOf(entry)] else old(Entries())
      ensures var added := entry.name.Some? && entry.name.value != ""
                && IndexOf(old(Entries()), entry.name.value) == old(len);
              keychain.Length ==
                if added && (old(len) < old(keychain.Length) || g.grow) then Grown(old(keychain.Length), old(len) + 1)
                                 else old(keychain.Length)
    {
      if entry.name.None? || entry.name.value == "" {
        return false;
      }
      var taken := NameExists(entry.name.value);
      if taken {
        return false;
      }
      ok := EnsureCapacity(len + 1, g.grow);
      if !ok {
        return;
      }
      ok := Append(entry, g.copy);
    }

    /** The tail of AddKeychain, once the name is known to be new and a spare slot exists. */
    method Append(entry: KeyEntry, g: CopyGrants) returns (ok: bool)
      requires Valid() && Sized(entry) && Retainable(entry) && len < keychain.Length
      requires entry.name.Some? && entry.name.value != "" && IndexOf(Entries(), entry.name.value) == len
      modifies this`len, keychain, store
      ensures Valid() && OthersKept()
      ensures ok <==> Copyable(entry, g)
      ensures Entries() == if ok then old(Entries()) + [CopyOf(entry)] else old(Entries())
    {
      hide Uses, Copyable;
      ghost var before := Entries();
      ok := FillSlot(len, entry, g);
      assert keychain[..len] == before;
      if ok {
        AppendEffect(before, keychain[len]);
        len := len + 1;
        assert Entries() == before + [CopyOf(entry)];
      }
    }

    /** Copies into a spare slot; after a refused copy the slot is freed once more and left zero. */
    method FillSlot(index: nat, entry: KeyEntry, g: CopyGrants) returns (ok: bool)
      requires index < keychain.Length && Sized(entry) && Retainable(entry)
      modifies keychain, store
      ensures ok <==> Copyable(entry, g)
      ensures keychain[index] == if ok then CopyOf(entry) else EMPTY
      ensures forall i :: 0 <= i < keychain.Length && i != index ==> keychain[i] == old(keychain[i])
      ensures |store.counts| == |old(store.counts)|
      ensures forall k: KeyId :: store.Count(k) == old(store.Count(k)) + if ok then EntryUses(entry, k) else 0
    {
      var slot;
      slot, ok := CopyEntry(entry, g);
      keychain[index] := slot;
      if !ok {
        ReleaseEntry(keychain[index]);
        keychain[index] := EMPTY;
      }
    }

    /** Frees the named entry and closes the gap by shifting the later ones down. */
    method RemoveKeychain(name: string) returns (ok: bool)
      requires Valid()
      modifies this`len, this`activeKeyName, keychain, store
      ensures Valid() && OthersKept()
      ensures ok <==> name != "" && IndexOf(old(Entries()), name) < old(len)
      ensures ok ==> var at := IndexOf(old(Entries()), name);
                     Entries() == old(Entries())[..at] + old(Entries())[at + 1..]
      ensures !ok ==> Entries() == old(Entries())
      ensures activeKeyName == if ok && old(activeKeyName) == Some(name) then None else old(activeKeyName)
    {
      if name == "" {
        return false;
      }
      ghost var before := Entries();
      var i := 0;
      while i < len
        invariant 0 <= i <= len
        invariant forall j :: 0 <= j < i ==> keychain[j].name != Some(name)
      {
        if keychain[i].name == Some(name) {
          assert before[i].name == Some(name) && IndexOf(before, name) == i;
          RemoveAt(i, name);
          return true;
        }
        i := i + 1;
      }
      return false;
    }

    method RemoveAt(i: nat, name: string)
      requires Valid() && i < len
      modifies this`len, this`activeKeyName, keychain, store
      ensures Valid() && OthersKept()
      ensures Entries() == old(Entries())[..i] + old(Entries())[i + 1..]
      ensures activeKeyName == if old(activeKeyName) == Some(name) then None else old(activeKeyName)
    {
      ghost var before := Entries();
      RemoveEffect(before, i);
      var activeMatches := activeKeyName == Some(name);
      ReleaseEntry(keychain[i]);
      CloseGap(i);
      if activeMatches {
        activeKeyName := None;
      }
      assert Entries() == before[..i] + before[i + 1..];
    }

    /** The shifting loop and the trailing memset of removal. */
    method CloseGap(i: nat)
      requires i < len <= keychain.Length
      modifies this`len, keychain
      ensures len == old(len) - 1
      ensures keychain[..len] == old(keychain[..i]) + old(keychain[i + 1..len])
      ensures keychain[len] == EMPTY
      ensures forall k :: len < k < keychain.Length ==> keychain[k] == old(keychain[k])
    {
      var j := i;
      while j + 1 < len
        invariant i <= j < len && len == old(len)
        invariant forall k :: 0 <= k < i ==> keychain[k] == old(keychain[k])
        invariant forall k :: i <= k < j ==> keychain[k] == old(keychain[k + 1])
        invariant forall k :: j < k < keychain.Length ==> keychain[k] == old(keychain[k])
      {
        keychain[j] := keychain[j + 1];
        j := j + 1;
      }
      keychain[len - 1] := EMPTY;
      len := len - 1;
    }

    /** Gives back every reference; the snapshot ends up owning nothing. */
    method Destroy()
      requires Valid()
      modifies this, keychain, store
      ensures Valid() && OthersKept()
      ensures forall k: KeyId :: Held(k) == 0
    {
      ReleaseEntry(serverKey);
      ReleaseChain();
      serverKey, hasServerKey := EMPTY, false;
      keychain, len := new KeyEntry[0], 0;
    }

    method ReleaseChain()
      requires len <= keychain.Length
      requires forall k: KeyId :: Uses(Entries(), k) <= store.Count(k)
      modifies store
      ensures |store.counts| == |old(store.counts)|
      ensures forall k: KeyId :: store.Count(k) == old(store.Count(k)) - Uses(Entries(), k)
    {
      ghost var es := Entries();
      assert es[0..] == es;
      var i := 0;
      while i < len
        invariant 0 <= i <= len
        invariant |store.counts| == |old(store.counts)|
        invariant forall k: KeyId :: Uses(es[i..], k) <= store.Count(k)
        invariant forall k: KeyId :: store.Count(k) - Uses(es[i..], k) == old(store.Count(k)) - Uses(es, k)
      {
        FirstEffect(es, i);
        assert es[i] == keychain[i];
        ReleaseEntry(keychain[i]);
        i := i + 1;
      }
      assert es[i..] == [];
    }
  }
}
