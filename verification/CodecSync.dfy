/** Rebuilding the codec's key snapshot from a config, and what a lookup in the result finds. */
module CodecSync {
  import opened Common
  import opened KeyStore
  import opened CodecContext
  import opened Config

  const NONCE_TTL_SECONDS := 60

  /** Which of the fallible calls made by a rebuild succeed; users are numbered as in the config. */
  datatype SyncGrants = SyncGrants(create: bool, server: CopyGrants, users: nat -> AddGrants, mux: bool)

  const ALL_COPY := CopyGrants(true, true, true, true)
  const ALL_ADD := AddGrants(true, ALL_COPY)

  ghost predicate AllGranted(g: SyncGrants) {
    g.create && g.mux && g.server == ALL_COPY && forall i: nat :: g.users(i) == ALL_ADD
  }

  /** Every call made while copying a user's entry is granted. */
  predicate CopyGranted(g: CopyGrants) {
    g.name && g.publicRef && g.hmac
  }

  /** Every call made while copying the server's key is granted. */
  predicate KeyGranted(g: CopyGrants) {
    g.name && g.privateRef
  }

  function EntryOf(u: User): (r: KeyEntry) {
    KeyEntry(u.id, Some(u.name), u.pubkey, None, Some(u.hmacKey), |u.hmacKey|, 0)
  }

  /** The keychain a config stands for: its enabled users in order. */
  function Index(us: seq<User>): (r: seq<KeyEntry>) {
    if us == [] then [] else (if us[0].enabled then [EntryOf(us[0])] else []) + Index(us[1..])
  }

  /** Enabled users have names, all different. The config validators do not check this. */
  ghost predicate Indexable(us: seq<User>) {
    && (forall i :: 0 <= i < |us| && us[i].enabled ==> us[i].name != "")
    && (forall i, j :: 0 <= i < j < |us| && us[i].enabled && us[j].enabled ==> us[i].name != us[j].name)
  }

  function ServerEntry(s: Server): (r: KeyEntry) {
    KeyEntry(0, Some(s.name), None, s.privKey, None, 0, 0)
  }

  predicate InstallsKey(s: Server) {
    s.secure && s.privKey.Some?
  }

  // ---- the keychain as an index of the config ----

  lemma {:induction false} IndexAppend(us: seq<User>, u: User)
    ensures Index(us + [u]) == Index(us) + if u.enabled then [EntryOf(u)] else []
  {
    hide EntryOf;
    if us == [] {
      assert us + [u] == [u];
      assert [u][1..] == [];
    } else {
      assert (us + [u])[1..] == us[1..] + [u];
      IndexAppend(us[1..], u);
    }
  }

  /** An entry of the index comes from an enabled user, and each enabled user has one. */
  lemma {:induction false} IndexMembers(us: seq<User>)
    ensures forall u :: u in us && u.enabled ==> EntryOf(u) in Index(us)
    ensures forall e :: e in Index(us) ==> exists i :: 0 <= i < |us| && us[i].enabled && e == EntryOf(us[i])
  {
    if us != [] {
      IndexMembers(us[1..]);
      assert us == [us[0]] + us[1..];
      forall e | e in Index(us) ensures exists i :: 0 <= i < |us| && us[i].enabled && e == EntryOf(us[i]) {
        if e in Index(us[1..]) {
          var i :| 0 <= i < |us[1..]| && us[1..][i].enabled && e == EntryOf(us[1..][i]);
          assert us[i + 1] == us[1..][i];
        }
      }
    }
  }

  /** A user's name is free in the index of the users before it exactly when no enabled one has it. */
  lemma FreshName(us: seq<User>, name: string)
    ensures IndexOf(Index(us), name) == |Index(us)| <==>
              forall i :: 0 <= i < |us| && us[i].enabled ==> us[i].name != name
  {
    IndexMembers(us);
    var at := IndexOf(Index(us), name);
    if at < |Index(us)| {
      assert Index(us)[at] in Index(us);
    } else {
      forall i | 0 <= i < |us| && us[i].enabled ensures us[i].name != name {
        assert us[i] in us && EntryOf(us[i]) in Index(us);
      }
    }
  }

  /** The first entry of this user id, or the number of entries. */
  function EntryIndex(es: seq<KeyEntry>, id: u32): (i: nat)
    ensures i <= |es|
    ensures i < |es| ==> es[i].name.Some? && es[i].userId == id
    ensures forall j :: 0 <= j < i ==> !(es[j].name.Some? && es[j].userId == id)
  {
    if es == [] || (es[0].name.Some? && es[0].userId == id) then 0 else 1 + EntryIndex(es[1..], id)
  }

  /** The codec's own search for a user's keys. */
  method KeychainEntryForUserId(ctx: Context, id: u32) returns (i: nat)
    requires ctx.Valid()
    ensures i == EntryIndex(ctx.Entries(), id)
  {
    i := 0;
    assert ctx.Entries()[0..] == ctx.Entries();
    while i < ctx.len
      invariant 0 <= i <= ctx.len
      invariant EntryIndex(ctx.Entries(), id) == i + EntryIndex(ctx.Entries()[i..], id)
    {
      assert ctx.Entries()[i..][1..] == ctx.Entries()[i + 1..];
      assert ctx.keychain[i] == ctx.Entries()[i];
      if ctx.keychain[i].name.Some? && ctx.keychain[i].userId == id {
        return;
      }
      i := i + 1;
    }
  }

  /**
   * Looking a user id up in the keychain and in the config agree: both find nothing, or the
   * entry found carries the public key and HMAC bytes of the user found.
   */
  lemma {:induction false} LookupAgrees(us: seq<User>, id: u32)
    ensures EntryIndex(Index(us), id) < |Index(us)| <==> UserIndex(us, id) < |us|
    ensures UserIndex(us, id) < |us| ==> Index(us)[EntryIndex(Index(us), id)] == EntryOf(us[UserIndex(us, id)])
  {
    if us != [] {
      LookupAgrees(us[1..], id);
      if us[0].enabled {
        assert Index(us)[1..] == Index(us[1..]);
      } else {
        assert Index(us) == Index(us[1..]);
      }
    }
  }

  /** What the entry of a user holds. */
  lemma LookupGives(us: seq<User>, id: u32)
    requires UserIndex(us, id) < |us| && |us[UserIndex(us, id)].hmacKey| == 32
    ensures EntryIndex(Index(us), id) < |Index(us)|
    ensures var e, u := Index(us)[EntryIndex(Index(us), id)], us[UserIndex(us, id)];
            && e.userId == id && e.name == Some(u.name) && e.publicKey == u.pubkey && e.privateKey == None
            && e.hmac == Some(u.hmacKey) && e.hmacLen == 32 && e.flags == 0
  {
    LookupAgrees(us, id);
  }

  // ---- the rebuild ----

  /** Removes the first entry until none is left; removal of an existing name cannot fail. */
  method ClearKeychain(ctx: Context)
    requires ctx.Valid()
    modifies ctx`len, ctx`activeKeyName, ctx.keychain, ctx.store
    ensures ctx.Valid() && ctx.OthersKept()
    ensures ctx.Entries() == []
  {
    while ctx.len > 0
      invariant ctx.Valid() && ctx.OthersKept()
      decreases ctx.len
    {
      var name := ctx.keychain[0].name.value;
      assert ctx.Entries()[0].name == Some(name);
      assert IndexOf(ctx.Entries(), name) == 0;
      var removed := ctx.RemoveKeychain(name);
      assert removed;
    }
  }

  /** The users' keys are complete, and the public ones are held by somebody other than the snapshot. */
  ghost predicate Usable(ctx: Context, us: seq<User>)
    reads ctx, ctx.keychain, ctx.store
    requires ctx.len <= ctx.keychain.Length
  {
    && (forall i :: 0 <= i < |us| && us[i].enabled ==> us[i].pubkey.Some?)
    && (forall i :: 0 <= i < |us| && us[i].pubkey.Some? ==> ctx.Others(us[i].pubkey.value) > 0)
    && (forall i :: 0 <= i < |us| ==> |us[i].hmacKey| == 32)
  }

  /** The name of the user may be added after the entries of the users before. */
  predicate Nameable(us: seq<User>, i: nat)
    requires i < |us|
  {
    us[i].name != "" && IndexOf(Index(us[..i]), us[i].name) == |Index(us[..i])|
  }

  /** There is room for one more entry after the users before, or it is granted. */
  predicate Roomy(us: seq<User>, g: nat -> AddGrants, capacity: nat, i: nat)
    requires i < |us|
  {
    |Index(us[..i])| < Grown(capacity, |Index(us[..i])|) || g(i).grow
  }

  /** The user passes the loop of a rebuild: it is skipped, or it can be added and every call for it is granted. */
  predicate Admitted(us: seq<User>, g: nat -> AddGrants, capacity: nat, i: nat)
    requires i < |us|
  {
    us[i].enabled ==> Nameable(us, i) && Roomy(us, g, capacity, i) && CopyGranted(g(i).copy)
  }

  /** How far the loop gets from user `i` on: the first user that is not admitted, or the end. */
  function TakenOver(us: seq<User>, g: nat -> AddGrants, capacity: nat, i: nat): (n: nat)
    requires i <= |us|
    ensures i <= n <= |us|
    ensures forall j :: i <= j < n ==> Admitted(us, g, capacity, j)
    ensures n < |us| ==> !Admitted(us, g, capacity, n)
    decreases |us| - i
  {
    if i < |us| && Admitted(us, g, capacity, i) then TakenOver(us, g, capacity, i + 1) else i
  }

  /** The room left when the loop ends at user `n`: a refused copy may come after a growth. */
  function CapacityLeft(us: seq<User>, g: nat -> AddGrants, capacity: nat, n: nat): (r: nat)
    requires n <= |us|
  {
    var count := |Index(us[..n])|;
    if n < |us| && us[n].enabled && Nameable(us, n) && Roomy(us, g, capacity, n) then Grown(capacity, count + 1)
    else Grown(capacity, count)
  }

  /** The loop gets to the end exactly when the names are usable and what is really asked for is granted. */
  lemma CompletesExactly(us: seq<User>, g: nat -> AddGrants, capacity: nat)
    ensures TakenOver(us, g, capacity, 0) == |us| <==>
            && Indexable(us)
            && forall i :: 0 <= i < |us| && us[i].enabled ==> Roomy(us, g, capacity, i) && CopyGranted(g(i).copy)
  {
    hide Roomy, CopyGranted;
    var n := TakenOver(us, g, capacity, 0);
    if n == |us| {
      assert forall i :: 0 <= i < |us| ==> Admitted(us, g, capacity, i);
      forall i | 0 <= i < |us| && us[i].enabled
        ensures Nameable(us, i) && Roomy(us, g, capacity, i) && CopyGranted(g(i).copy)
      {
        assert Admitted(us, g, capacity, i);
      }
      NameableAll(us);
    } else if Indexable(us) {
      FreshName(us[..n], us[n].name);
      assert Nameable(us, n);
    }
  }

  lemma NameableAll(us: seq<User>)
    requires forall i :: 0 <= i < |us| && us[i].enabled ==> Nameable(us, i)
    ensures Indexable(us)
  {
    forall i, j | 0 <= i < j < |us| && us[i].enabled && us[j].enabled ensures us[i].name != us[j].name {
      FreshName(us[..j], us[j].name);
      assert us[..j][i] == us[i];
      assert Nameable(us, j);
    }
    assert forall i :: 0 <= i < |us| && us[i].enabled ==> Nameable(us, i);
  }

  /** Keys play no part in how far the loop gets. */
  lemma {:induction false} SameUsersSameEnd(us: seq<User>, vs: seq<User>, g: nat -> AddGrants, capacity: nat, i: nat)
    requires |us| == |vs| && (forall j :: 0 <= j < |us| ==> SameUser(us[j], vs[j])) && i <= |us|
    ensures TakenOver(us, g, capacity, i) == TakenOver(vs, g, capacity, i)
    decreases |us| - i
  {
    if i < |us| {
      SameUsersSameEnd(us, vs, g, capacity, i + 1);
      SameNumber(us[..i], vs[..i]);
      FreshName(us[..i], us[i].name);
      FreshName(vs[..i], us[i].name);
      assert SameUser(us[i], vs[i]);
      assert forall j :: 0 <= j < i ==> SameUser(us[..i][j], vs[..i][j]);
      assert Nameable(us, i) <==> Nameable(vs, i);
    }
  }

  lemma {:induction false} SameNumber(us: seq<User>, vs: seq<User>)
    requires |us| == |vs| && forall j :: 0 <= j < |us| ==> SameUser(us[j], vs[j])
    ensures |Index(us)| == |Index(vs)|
  {
    if us != [] {
      assert SameUser(us[0], vs[0]);
      SameNumber(us[1..], vs[1..]);
    }
  }

  /** Adds the enabled users in order, up to the first that cannot be added. */
  method FillKeychain(ctx: Context, us: seq<User>, g: nat -> AddGrants) returns (ok: bool)
    requires ctx.Valid() && ctx.Entries() == [] && Usable(ctx, us)
    modifies ctx`keychain, ctx`len, ctx.keychain, ctx.store
    ensures ctx.Valid() && ctx.OthersKept()
    ensures ctx.keychain == old(ctx.keychain) || fresh(ctx.keychain)
    ensures var n := TakenOver(us, g, old(ctx.keychain.Length), 0);
            && (ok <==> n == |us|)
            && ctx.Entries() == Index(us[..n])
            && ctx.keychain.Length == CapacityLeft(us, g, old(ctx.keychain.Length), n)
  {
    hide Admitted, CapacityLeft, Grown, Index, Usable;
    ghost var cap := ctx.keychain.Length;
    NothingAdded(us, cap);
    for i := 0 to |us|
      invariant ctx.Valid() && ctx.OthersKept() && Usable(ctx, us)
      invariant ctx.keychain == old(ctx.keychain) || fresh(ctx.keychain)
      invariant ctx.Entries() == Index(us[..i]) && ctx.keychain.Length == Grown(cap, |Index(us[..i])|)
      invariant TakenOver(us, g, cap, 0) == TakenOver(us, g, cap, i)
    {
      var passed := TakeUser(ctx, us, g, i, cap);
      if !passed {
        return false;
      }
    }
    AllAdded(us, g, cap);
    return true;
  }

  lemma NothingAdded(us: seq<User>, capacity: nat)
    ensures Index(us[..0]) == [] && Grown(capacity, 0) == capacity
  {
  }

  lemma AllAdded(us: seq<User>, g: nat -> AddGrants, capacity: nat)
    ensures us[..|us|] == us && CapacityLeft(us, g, capacity, |us|) == Grown(capacity, |Index(us)|)
  {
    assert us[..|us|] == us;
  }

  /** One pass of the loop, after the users before this one. */
  method TakeUser(ctx: Context, us: seq<User>, g: nat -> AddGrants, i: nat, ghost capacity: nat) returns (ok: bool)
    requires ctx.Valid() && i < |us| && Usable(ctx, us)
    requires ctx.Entries() == Index(us[..i]) && ctx.keychain.Length == Grown(capacity, |Index(us[..i])|)
    modifies ctx`keychain, ctx`len, ctx.keychain, ctx.store
    ensures ctx.Valid() && ctx.OthersKept() && Usable(ctx, us)
    ensures ctx.keychain == old(ctx.keychain) || fresh(ctx.keychain)
    ensures ok <==> Admitted(us, g, capacity, i)
    ensures ctx.Entries() == if ok then Index(us[..i + 1]) else Index(us[..i])
    ensures ctx.keychain.Length ==
              if ok then Grown(capacity, |Index(us[..i + 1])|) else CapacityLeft(us, g, capacity, i)
  {
    hide Index, CopyGranted, Grown;
    assert us[..i + 1] == us[..i] + [us[i]];
    IndexAppend(us[..i], us[i]);
    if !us[i].enabled {
      return true;
    }
    GrownInSteps(capacity, |Index(us[..i])|, |Index(us[..i])| + 1);
    ok := AddUser(ctx, us[i], g(i), Others(ctx, us[i].pubkey));
  }

  ghost function Others(ctx: Context, k: Option<KeyId>): (r: int)
    reads ctx, ctx.keychain, ctx.store
    requires ctx.len <= ctx.keychain.Length
  {
    if k.Some? then ctx.Others(k.value) else 1
  }

  method AddUser(ctx: Context, u: User, g: AddGrants, ghost others: int) returns (ok: bool)
    requires ctx.Valid() && Others(ctx, u.pubkey) == others > 0 && |u.hmacKey| == 32 && u.pubkey.Some?
    modifies ctx`keychain, ctx`len, ctx.keychain, ctx.store
    ensures ctx.Valid() && ctx.OthersKept()
    ensures ctx.keychain == old(ctx.keychain) || fresh(ctx.keychain)
    ensures ctx.Entries() == old(ctx.Entries()) + if ok then [EntryOf(u)] else []
    ensures var es, cap := old(ctx.Entries()), old(ctx.keychain.Length);
            var added := u.name != "" && IndexOf(es, u.name) == |es| && (|es| < cap || g.grow);
            && (ok <==> added && CopyGranted(g.copy))
            && ctx.keychain.Length == if added then Grown(cap, |es| + 1) else cap
  {
    assert u.hmacKey[..|u.hmacKey|] == u.hmacKey;
    ok := ctx.AddKeychain(EntryOf(u), g);
  }

  // ---- the whole rebuild ----

  const WINDOW_MS := NONCE_TTL_SECONDS * 1000

  function KeyOf(s: Server): (r: KeyEntry) {
    if InstallsKey(s) then ServerEntry(s) else EMPTY
  }

  /** Installing the server's key fails. */
  predicate KeyRefused(installs: bool, name: string, g: CopyGrants) {
    installs && !(name != "" && KeyGranted(g))
  }

  /** Exactly when a rebuild for a server of this name reaches its end. */
  predicate Completes(us: seq<User>, name: string, installs: bool, g: SyncGrants, capacity: nat) {
    !KeyRefused(installs, name, g.server) && TakenOver(us, g.users, capacity, 0) == |us|
  }

  /** What a rebuild makes of a snapshot, whether or not it reaches its end: only the room in the old one matters. */
  function Rebuilt(us: seq<User>, s: Server, g: SyncGrants, capacity: nat): (r: Snapshot) {
    if KeyRefused(InstallsKey(s), s.name, g.server) then
      Snapshot([], EMPTY, s.secure, WINDOW_MS, capacity)
    else
      var n := TakenOver(us, g.users, capacity, 0);
      Snapshot(Index(us[..n]), KeyOf(s), s.secure, WINDOW_MS, CapacityLeft(us, g.users, capacity, n))
  }

  /** Empties the snapshot for a server. The array stays. */
  method Clear(ctx: Context, secure: bool)
    requires ctx.Valid()
    modifies ctx, ctx.keychain, ctx.store
    ensures ctx.Valid() && ctx.OthersKept() && ctx.keychain == old(ctx.keychain)
    ensures ctx.Snap() == Snapshot([], EMPTY, secure, WINDOW_MS, ctx.keychain.Length)
  {
    ctx.ClearServerKey();
    ctx.serverSecure := secure;
    ctx.nonceWindowMs := WINDOW_MS;
    ClearKeychain(ctx);
  }

  /** The part of a codec sync that rewrites the snapshot; a failure leaves it partly rewritten. */
  method Rebuild(ctx: Context, us: seq<User>, s: Server, g: SyncGrants) returns (ok: bool)
    requires ctx.Valid() && Usable(ctx, us)
    requires s.privKey.Some? ==> ctx.Others(s.privKey.value) > 0
    modifies ctx, ctx.keychain, ctx.store
    ensures ctx.Valid() && ctx.OthersKept()
    ensures ctx.keychain == old(ctx.keychain) || fresh(ctx.keychain)
    ensures ok <==> Completes(us, s.name, InstallsKey(s), g, old(ctx.keychain.Length))
    ensures ctx.Snap() == Rebuilt(us, s, g, old(ctx.keychain.Length))
  {
    hide TakenOver, CapacityLeft, Index;
    Clear(ctx, s.secure);
    if InstallsKey(s) {
      assert ctx.Others(s.privKey.value) > 0;
      ok := ctx.SetServerKey(ServerEntry(s), g.server);
      if !ok {
        return;
      }
    }
    ok := FillKeychain(ctx, us, g.users);
  }

  /** The snapshot shows exactly this config and server. */
  predicate Shows(snap: Snapshot, us: seq<User>, s: Server) {
    snap.entries == Index(us) && snap.serverKey == KeyOf(s) && snap.serverSecure == s.secure && snap.window == WINDOW_MS
  }

  /** A rebuild that reaches its end shows everything; one that does not shows a front part of the users. */
  lemma RebuiltShows(us: seq<User>, s: Server, g: SyncGrants, capacity: nat)
    ensures Completes(us, s.name, InstallsKey(s), g, capacity) ==> Shows(Rebuilt(us, s, g, capacity), us, s)
    ensures exists n :: 0 <= n <= |us| && Rebuilt(us, s, g, capacity).entries == Index(us[..n])
  {
    hide TakenOver;
    var n := TakenOver(us, g.users, capacity, 0);
    assert us[..|us|] == us;
    if KeyRefused(InstallsKey(s), s.name, g.server) {
      assert Index(us[..0]) == [];
    } else {
      assert Rebuilt(us, s, g, capacity).entries == Index(us[..n]);
    }
  }
}
