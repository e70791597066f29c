/**
 * Config objects: the servers and users of one configuration file together with the keys loaded for them.
 * A config owns its master key, its users' keys and those server keys that carry the owned flag;
 * a server without a key file of its own points at the master key instead.
 */
module Config {
  import opened Common
  import opened KeyStore

  const MAX_NAME := 64
  const DEFAULT_PORT := 50000

  datatype Server = Server(
    name: string,
    bindIp: string,
    port: int,
    keyPath: string,
    enabled: bool,
    secure: bool,
    keyOwned: bool,
    privKey: Option<KeyId>,
    enforceDecode: bool,
    enforceAuth: bool)

  datatype User = User(id: u32, name: string, enabled: bool, pubkey: Option<KeyId>, hmacKey: seq<byte>)

  datatype Config = Config(keyPath: string, masterKey: Option<KeyId>, users: seq<User>, servers: seq<Server>)

  /** What reading one key file comes to. */
  datatype KeyFile = Unreadable | Malformed | NotRsa | Rsa

  predicate IsKey(f: KeyFile) {
    f == NotRsa || f == Rsa
  }

  /** Everything outside the program that building a config depends on. */
  datatype Inputs = Inputs(
    path: string,
    document: Option<Config>,
    actionsValid: bool,
    addressesValid: bool,
    masterFile: KeyFile,
    userFiles: seq<KeyFile>,
    serverFiles: seq<KeyFile>,
    hmacFiles: seq<Option<seq<byte>>>)

  // ---- ownership ----

  function ServerUses(s: Server, k: KeyId): (r: nat) {
    if s.keyOwned then Is(s.privKey, k) else 0
  }

  function ServersUse(ss: seq<Server>, k: KeyId): (r: nat) {
    if ss == [] then 0 else ServersUse(ss[..|ss| - 1], k) + ServerUses(ss[|ss| - 1], k)
  }

  function UsersUse(us: seq<User>, k: KeyId): (r: nat) {
    if us == [] then 0 else UsersUse(us[..|us| - 1], k) + Is(us[|us| - 1].pubkey, k)
  }

  /** How many references to key `k` the config owns. */
  function Owned(c: Config, k: KeyId): (r: nat) {
    Is(c.masterKey, k) + UsersUse(c.users, k) + ServersUse(c.servers, k)
  }

  // ---- what a loaded config looks like ----

  ghost predicate UniqueServers(ss: seq<Server>) {
    && (forall i :: 0 <= i < |ss| ==> ss[i].name != "")
    && (forall i, j :: 0 <= i < j < |ss| ==> ss[i].name != ss[j].name)
  }

  ghost predicate WellFormed(c: Config) {
    && UniqueServers(c.servers)
    && (forall i :: 0 <= i < |c.servers| ==> |c.servers[i].name| < MAX_NAME)
    && (forall i :: 0 <= i < |c.servers| && !c.servers[i].keyOwned ==>
          c.servers[i].privKey == None || c.servers[i].privKey == c.masterKey)
    && (forall i :: 0 <= i < |c.users| ==> |c.users[i].hmacKey| == 32)
    && (forall i :: 0 <= i < |c.users| && c.users[i].enabled ==> c.users[i].pubkey.Some?)
  }

  /** As the parser leaves it: names clipped to their slots, no key loaded, HMAC bytes zero. */
  ghost predicate Blank(c: Config) {
    && c.masterKey == None
    && (forall i :: 0 <= i < |c.servers| ==>
          !c.servers[i].keyOwned && c.servers[i].privKey == None && |c.servers[i].name| < MAX_NAME)
    && (forall i :: 0 <= i < |c.users| ==> c.users[i].pubkey == None && |c.users[i].hmacKey| == 32)
  }

  predicate SameUser(u: User, v: User) {
    u.id == v.id && u.name == v.name && u.enabled == v.enabled
  }

  predicate SameServer(s: Server, t: Server) {
    t.(keyOwned := s.keyOwned, privKey := s.privKey, port := s.port) == s
  }

  /**
   * The loaded config says what the document said, apart from the default port and the keys:
   * enabled users have theirs, and an enabled secure server has one unless no key file names one.
   */
  ghost predicate Reflects(doc: Config, c: Config) {
    && |c.users| == |doc.users| && |c.servers| == |doc.servers|
    && (forall i :: 0 <= i < |c.users| ==> SameUser(doc.users[i], c.users[i]))
    && (forall i :: 0 <= i < |c.servers| ==> SameServer(doc.servers[i], c.servers[i]))
    && (forall i :: 0 <= i < |c.servers| ==>
          c.servers[i].port == if doc.servers[i].port == 0 then DEFAULT_PORT else doc.servers[i].port)
    && (forall i :: 0 <= i < |c.users| && c.users[i].enabled ==> c.users[i].pubkey.Some?)
    && (forall i :: 0 <= i < |c.servers| ==>
          (c.servers[i].privKey.Some? <==> doc.servers[i].enabled && HasKeyFile(doc, doc.servers[i])))
    && (forall i :: 0 <= i < |c.servers| ==> (c.servers[i].keyOwned <==> NeedsKeyFile(doc.servers[i])))
    && (c.masterKey.Some? <==> doc.keyPath != "") && c.keyPath == doc.keyPath
  }

  /** Enabled users have the bytes of their HMAC files. */
  ghost predicate HmacLoaded(inp: Inputs, c: Config) {
    |inp.hmacFiles| == |c.users| &&
    forall i :: 0 <= i < |c.users| && c.users[i].enabled ==> inp.hmacFiles[i] == Some(c.users[i].hmacKey)
  }

  predicate HasKeyFile(doc: Config, s: Server) {
    s.secure && (s.keyPath != "" || doc.keyPath != "")
  }

  /** The server has a key file of its own, which is read. */
  predicate NeedsKeyFile(s: Server) {
    s.secure && s.enabled && s.keyPath != ""
  }

  // ---- lookups ----

  /** The position of the first server with this name, or the number of servers. */
  function ServerIndex(ss: seq<Server>, name: string): (i: nat)
    ensures i <= |ss|
    ensures i < |ss| ==> ss[i].name == name
    ensures forall j :: 0 <= j < i ==> ss[j].name != name
  {
    if ss == [] || ss[0].name == name then 0 else 1 + ServerIndex(ss[1..], name)
  }

  method ServerByName(c: Config, name: string) returns (i: nat)
    ensures i == ServerIndex(c.servers, name)
  {
    i := 0;
    while i < |c.servers|
      invariant 0 <= i <= |c.servers|
      invariant forall j :: 0 <= j < i ==> c.servers[j].name != name
    {
      if c.servers[i].name == name {
        return;
      }
      i := i + 1;
    }
  }

  /** With unique names, looking a server up by its own name finds that very server. */
  lemma {:induction false} LookupFindsItself(ss: seq<Server>, i: nat)
    requires UniqueServers(ss) && i < |ss|
    ensures ServerIndex(ss, ss[i].name) == i
  {
    var j := ServerIndex(ss, ss[i].name);
    assert j <= i;
  }

  /** The position of the first enabled user with this id, or the number of users. */
  function UserIndex(us: seq<User>, id: u32): (i: nat)
    ensures i <= |us|
    ensures i < |us| ==> us[i].enabled && us[i].id == id
    ensures forall j :: 0 <= j < i ==> !(us[j].enabled && us[j].id == id)
  {
    if us == [] || (us[0].enabled && us[0].id == id) then 0 else 1 + UserIndex(us[1..], id)
  }

  // ---- key sharing ----

  /** Some slot of the config, owned or not, points to the key. */
  ghost predicate PointsTo(c: Config, k: KeyId) {
    || c.masterKey == Some(k)
    || (exists i :: 0 <= i < |c.users| && c.users[i].pubkey == Some(k))
    || (exists i :: 0 <= i < |c.servers| && c.servers[i].privKey == Some(k))
  }

  lemma {:induction false} UserUseAt(us: seq<User>, i: nat, k: KeyId)
    requires i < |us|
    ensures Is(us[i].pubkey, k) <= UsersUse(us, k)
  {
    if i < |us| - 1 {
      UserUseAt(us[..|us| - 1], i, k);
    }
  }

  lemma {:induction false} ServerUseAt(ss: seq<Server>, i: nat, k: KeyId)
    requires i < |ss|
    ensures ServerUses(ss[i], k) <= ServersUse(ss, k)
  {
    if i < |ss| - 1 {
      ServerUseAt(ss[..|ss| - 1], i, k);
    }
  }

  /** A well-formed config never points to a key it does not own, the aliased master key included. */
  lemma PointedIsOwned(c: Config, k: KeyId)
    requires WellFormed(c) && PointsTo(c, k)
    ensures Owned(c, k) > 0
  {
    if i :| 0 <= i < |c.users| && c.users[i].pubkey == Some(k) {
      UserUseAt(c.users, i, k);
    } else if i :| 0 <= i < |c.servers| && c.servers[i].privKey == Some(k) {
      ServerUseAt(c.servers, i, k);
    }
  }

  // ---- validation ----

  method ValidateUniqueServerNames(c: Config) returns (ok: bool)
    ensures ok <==> UniqueServers(c.servers)
  {
    for i := 0 to |c.servers|
      invariant forall a :: 0 <= a < i ==> c.servers[a].name != ""
      invariant forall a, b :: 0 <= a < i && a < b < |c.servers| ==> c.servers[a].name != c.servers[b].name
    {
      if c.servers[i].name == "" {
        return false;
      }
      for j := i + 1 to |c.servers|
        invariant forall b :: i < b < j ==> c.servers[i].name != c.servers[b].name
      {
        if c.servers[i].name == c.servers[j].name {
          return false;
        }
      }
    }
    return true;
  }

  method ApplyDefaults(ss: seq<Server>) returns (r: seq<Server>)
    ensures |r| == |ss|
    ensures forall i :: 0 <= i < |ss| ==> r[i] == ss[i].(port := if ss[i].port == 0 then DEFAULT_PORT else ss[i].port)
  {
    r := ss;
    for i := 0 to |ss|
      invariant |r| == |ss|
      invariant forall j :: 0 <= j < i ==> r[j] == ss[j].(port := if ss[j].port == 0 then DEFAULT_PORT else ss[j].port)
      invariant forall j :: i <= j < |ss| ==> r[j] == ss[j]
    {
      if r[i].port == 0 {
        r := r[i := r[i].(port := DEFAULT_PORT)];
      }
    }
  }

  // ---- key loading ----

  lemma {:induction false} UsersUseBlank(us: seq<User>, k: KeyId)
    requires forall i :: 0 <= i < |us| ==> us[i].pubkey == None
    ensures UsersUse(us, k) == 0
  {
    if us != [] {
      UsersUseBlank(us[..|us| - 1], k);
    }
  }

  lemma {:induction false} ServersUseBlank(ss: seq<Server>, k: KeyId)
    requires forall i :: 0 <= i < |ss| ==> !ss[i].keyOwned
    ensures ServersUse(ss, k) == 0
  {
    if ss != [] {
      ServersUseBlank(ss[..|ss| - 1], k);
    }
  }

  lemma {:induction false} UsersUseUpdate(us: seq<User>, i: nat, u: User, k: KeyId)
    requires i < |us|
    ensures UsersUse(us[i := u], k) == UsersUse(us, k) - Is(us[i].pubkey, k) + Is(u.pubkey, k)
  {
    var last := |us| - 1;
    if i == last {
      assert us[i := u][..last] == us[..last];
    } else {
      assert us[i := u][..last] == us[..last][i := u];
      UsersUseUpdate(us[..last], i, u, k);
    }
  }

  lemma {:induction false} ServersUseUpdate(ss: seq<Server>, i: nat, s: Server, k: KeyId)
    requires i < |ss|
    ensures ServersUse(ss[i := s], k) == ServersUse(ss, k) - ServerUses(ss[i], k) + ServerUses(s, k)
  {
    var last := |ss| - 1;
    if i == last {
      assert ss[i := s][..last] == ss[..last];
    } else {
      assert ss[i := s][..last] == ss[..last][i := s];
      ServersUseUpdate(ss[..last], i, s, k);
    }
  }

  method LoadMasterKey(c: Config, store: Store, file: KeyFile) returns (r: Config, ok: bool)
    requires c.masterKey == None
    modifies store
    ensures ok <==> c.keyPath == "" || file.NotRsa? || file.Rsa?
    ensures r == c.(masterKey := r.masterKey)
    ensures ok ==> (r.masterKey.Some? <==> c.keyPath != "")
    ensures forall k: KeyId :: store.Count(k) == old(store.Count(k)) + Is(r.masterKey, k)
    ensures |store.counts| >= |old(store.counts)|
              && forall k: KeyId :: k < |old(store.counts)| ==> Is(r.masterKey, k) == 0
  {
    r := c;
    if c.keyPath == "" {
      return r, true;
    }
    if !IsKey(file) {
      return r, false;
    }
    var k := store.Create();
    return r.(masterKey := Some(k)), true;
  }

  /** Loads a public key for each enabled user, in order; keys loaded before a failure stay in the config. */
  method LoadUserKeys(us: seq<User>, store: Store, files: seq<KeyFile>) returns (r: seq<User>, ok: bool)
    requires |files| == |us|
    requires forall i :: 0 <= i < |us| ==> us[i].pubkey == None
    modifies store
    ensures |r| == |us|
    ensures ok <==> forall i :: 0 <= i < |us| && us[i].enabled ==> files[i] == Rsa
    ensures forall i :: 0 <= i < |us| ==> r[i] == us[i].(pubkey := r[i].pubkey)
    ensures ok ==> forall i :: 0 <= i < |us| ==> (r[i].pubkey.Some? <==> us[i].enabled)
    ensures forall k: KeyId :: store.Count(k) == old(store.Count(k)) + UsersUse(r, k)
    ensures |store.counts| >= |old(store.counts)| && forall k: KeyId :: k < |old(store.counts)| ==> UsersUse(r, k) == 0
  {
    r := us;
    forall k: KeyId ensures UsersUse(us, k) == 0 { UsersUseBlank(us, k); }
    for i := 0 to |us|
      invariant |r| == |us|
      invariant forall j :: 0 <= j < i && us[j].enabled ==> files[j] == Rsa
      invariant forall j :: 0 <= j < |us| ==> r[j] == us[j].(pubkey := r[j].pubkey)
      invariant forall j :: 0 <= j < i ==> (r[j].pubkey.Some? <==> us[j].enabled)
      invariant forall j :: i <= j < |us| ==> r[j].pubkey == None
      invariant forall k: KeyId :: store.Count(k) == old(store.Count(k)) + UsersUse(r, k)
      invariant |store.counts| >= |old(store.counts)|
                  && forall k: KeyId :: k < |old(store.counts)| ==> UsersUse(r, k) == 0
    {
      if !r[i].enabled {
        continue;
      }
      if !IsKey(files[i]) {
        return r, false;
      }
      var key := store.Create();
      if files[i] != Rsa {
        store.Release(Some(key));
        return r, false;
      }
      var u := r[i].(pubkey := Some(key));
      forall k: KeyId ensures UsersUse(r[i := u], k) == UsersUse(r, k) + Is(Some(key), k) {
        UsersUseUpdate(r, i, u, k);
      }
      r := r[i := u];
    }
    return r, true;
  }

  /** A server's key after a successful load: none, its own, or the master key. */
  ghost predicate KeyedAs(s: Server, t: Server, master: Option<KeyId>) {
    && t == s.(keyOwned := t.keyOwned, privKey := t.privKey)
    && (!(s.secure && s.enabled) ==> !t.keyOwned && t.privKey == None)
    && (s.secure && s.enabled && s.keyPath == "" ==> !t.keyOwned && t.privKey == master)
    && (s.secure && s.enabled && s.keyPath != "" ==> t.keyOwned && t.privKey.Some?)
  }

  method LoadServerKeys(ss: seq<Server>, master: Option<KeyId>, store: Store, files: seq<KeyFile>)
    returns (r: seq<Server>, ok: bool)
    requires |files| == |ss|
    requires forall i :: 0 <= i < |ss| ==> !ss[i].keyOwned && ss[i].privKey == None
    modifies store
    ensures |r| == |ss|
    ensures ok <==>
              forall i :: 0 <= i < |ss| && NeedsKeyFile(ss[i]) ==> files[i].NotRsa? || files[i].Rsa?
    ensures ok ==> forall i :: 0 <= i < |ss| ==> KeyedAs(ss[i], r[i], master)
    ensures forall k: KeyId :: store.Count(k) == old(store.Count(k)) + ServersUse(r, k)
    ensures |store.counts| >= |old(store.counts)|
              && forall k: KeyId :: k < |old(store.counts)| ==> ServersUse(r, k) == 0
  {
    r := ss;
    forall k: KeyId ensures ServersUse(ss, k) == 0 { ServersUseBlank(ss, k); }
    for i := 0 to |ss|
      invariant |r| == |ss|
      invariant forall j :: 0 <= j < i && NeedsKeyFile(ss[j]) ==> IsKey(files[j])
      invariant forall j :: 0 <= j < i ==> KeyedAs(ss[j], r[j], master)
      invariant forall j :: i <= j < |ss| ==> r[j] == ss[j]
      invariant forall k: KeyId :: store.Count(k) == old(store.Count(k)) + ServersUse(r, k)
      invariant |store.counts| >= |old(store.counts)|
                  && forall k: KeyId :: k < |old(store.counts)| ==> ServersUse(r, k) == 0
    {
      if !r[i].secure {
        continue;
      }
      if !r[i].enabled {
        continue;
      }
      var s;
      if r[i].keyPath == "" {
        s := r[i].(keyOwned := false, privKey := master);
      } else {
        if !IsKey(files[i]) {
          return r, false;
        }
        var key := store.Create();
        s := r[i].(privKey := Some(key), keyOwned := true);
      }
      forall k: KeyId ensures ServersUse(r[i := s], k) == ServersUse(r, k) + ServerUses(s, k) {
        ServersUseUpdate(r, i, s, k);
      }
      r := r[i := s];
    }
    return r, true;
  }

  method LoadHmacKeys(us: seq<User>, files: seq<Option<seq<byte>>>) returns (r: seq<User>, ok: bool)
    requires |files| == |us|
    requires forall i :: 0 <= i < |files| && files[i].Some? ==> |files[i].value| == 32
    requires forall i :: 0 <= i < |us| ==> |us[i].hmacKey| == 32
    ensures |r| == |us|
    ensures ok <==> forall i :: 0 <= i < |us| && us[i].enabled ==> files[i].Some?
    ensures forall i :: 0 <= i < |us| ==> r[i] == us[i].(hmacKey := r[i].hmacKey) && |r[i].hmacKey| == 32
    ensures ok ==> forall i :: 0 <= i < |us| && us[i].enabled ==> Some(r[i].hmacKey) == files[i]
  {
    r := us;
    for i := 0 to |us|
      invariant |r| == |us|
      invariant forall j :: 0 <= j < i && us[j].enabled ==> files[j].Some? && r[j].hmacKey == files[j].value
      invariant forall j :: 0 <= j < |us| ==> r[j] == us[j].(hmacKey := r[j].hmacKey) && |r[j].hmacKey| == 32
    {
      if r[i].enabled {
        if files[i].None? {
          return r, false;
        }
        r := r[i := r[i].(hmacKey := files[i].value)];
      }
    }
    return r, true;
  }

  lemma {:induction false} UsersUseSameKeys(us: seq<User>, vs: seq<User>, k: KeyId)
    requires |us| == |vs| && forall i :: 0 <= i < |us| ==> us[i].pubkey == vs[i].pubkey
    ensures UsersUse(us, k) == UsersUse(vs, k)
  {
    if us != [] {
      UsersUseSameKeys(us[..|us| - 1], vs[..|vs| - 1], k);
    }
  }

  // ---- freeing ----

  /** Releases every owned reference; the aliased master key is released once, through the master slot. */
  method Free(c: Config, store: Store)
    requires forall k: KeyId :: Owned(c, k) <= store.Count(k)
    modifies store
    ensures forall k: KeyId :: store.Count(k) == old(store.Count(k)) - Owned(c, k)
  {
    assert c.masterKey.Some? ==> Owned(c, c.masterKey.value) > 0;
    store.Release(c.masterKey);
    FreeUserKeys(c.users, store);
    FreeServerKeys(c.servers, store);
  }

  lemma {:induction false} UsersUseFirst(us: seq<User>, i: nat, k: KeyId)
    requires i < |us|
    ensures UsersUse(us[i..], k) == Is(us[i].pubkey, k) + UsersUse(us[i + 1..], k)
  {
    if i + 1 < |us| {
      var last := |us| - 1;
      UsersUseFirst(us[..last], i, k);
      assert us[i..][..last - i] == us[..last][i..];
      assert us[i + 1..][..last - i - 1] == us[..last][i + 1..];
    }
  }

  lemma {:induction false} ServersUseFirst(ss: seq<Server>, i: nat, k: KeyId)
    requires i < |ss|
    ensures ServersUse(ss[i..], k) == ServerUses(ss[i], k) + ServersUse(ss[i + 1..], k)
  {
    if i + 1 < |ss| {
      var last := |ss| - 1;
      ServersUseFirst(ss[..last], i, k);
      assert ss[i..][..last - i] == ss[..last][i..];
      assert ss[i + 1..][..last - i - 1] == ss[..last][i + 1..];
    }
  }

  method FreeUserKeys(us: seq<User>, store: Store)
    requires forall k: KeyId :: UsersUse(us, k) <= store.Count(k)
    modifies store
    ensures forall k: KeyId :: store.Count(k) == old(store.Count(k)) - UsersUse(us, k)
  {
    assert us[0..] == us;
    for i := 0 to |us|
      invariant forall k: KeyId :: UsersUse(us[i..], k) <= store.Count(k)
      invariant forall k: KeyId :: store.Count(k) - UsersUse(us[i..], k) == old(store.Count(k)) - UsersUse(us, k)
    {
      forall k: KeyId ensures UsersUse(us[i..], k) == Is(us[i].pubkey, k) + UsersUse(us[i + 1..], k) {
        UsersUseFirst(us, i, k);
      }
      assert us[i].pubkey.Some? ==> UsersUse(us[i..], us[i].pubkey.value) > 0;
      store.Release(us[i].pubkey);
    }
    assert us[|us|..] == [];
  }

  method FreeServerKeys(ss: seq<Server>, store: Store)
    requires forall k: KeyId :: ServersUse(ss, k) <= store.Count(k)
    modifies store
    ensures forall k: KeyId :: store.Count(k) == old(store.Count(k)) - ServersUse(ss, k)
  {
    assert ss[0..] == ss;
    for i := 0 to |ss|
      invariant forall k: KeyId :: ServersUse(ss[i..], k) <= store.Count(k)
      invariant forall k: KeyId :: store.Count(k) - ServersUse(ss[i..], k) == old(store.Count(k)) - ServersUse(ss, k)
    {
      forall k: KeyId ensures ServersUse(ss[i..], k) == ServerUses(ss[i], k) + ServersUse(ss[i + 1..], k) {
        ServersUseFirst(ss, i, k);
      }
      if ss[i].keyOwned {
        assert ss[i].privKey.Some? ==> ServersUse(ss[i..], ss[i].privKey.value) > 0;
        store.Release(ss[i].privKey);
      }
    }
    assert ss[|ss|..] == [];
  }

  // ---- building a config from a file ----

  ghost predicate UsableInputs(inp: Inputs) {
    inp.document.Some? ==>
      && Blank(inp.document.value)
      && |inp.userFiles| == |inp.hmacFiles| == |inp.document.value.users|
      && |inp.serverFiles| == |inp.document.value.servers|
      && forall i :: 0 <= i < |inp.hmacFiles| && inp.hmacFiles[i].Some? ==> |inp.hmacFiles[i].value| == 32
  }

  /** Exactly the inputs from which a config can be built. */
  ghost predicate Loadable(inp: Inputs)
    requires UsableInputs(inp)
  {
    && inp.path != "" && inp.document.Some?
    && var d := inp.document.value;
    && UniqueServers(d.servers) && inp.actionsValid && inp.addressesValid
    && (d.keyPath == "" || IsKey(inp.masterFile))
    && (forall i :: 0 <= i < |d.users| && d.users[i].enabled ==> inp.userFiles[i] == Rsa && inp.hmacFiles[i].Some?)
    && (forall i :: 0 <= i < |d.servers| && NeedsKeyFile(d.servers[i]) ==> IsKey(inp.serverFiles[i]))
  }

  /**
   * Builds a config, or nothing. A build that fails half way gives back every key it had loaded.
   */
  method BuildFromPath(inp: Inputs, store: Store) returns (r: Option<Config>)
    requires UsableInputs(inp)
    modifies store
    ensures r.Some? <==> Loadable(inp)
    ensures r.Some? ==> WellFormed(r.value) && Reflects(inp.document.value, r.value) && HmacLoaded(inp, r.value)
    ensures forall k: KeyId :: store.Count(k) == old(store.Count(k)) + if r.Some? then Owned(r.value, k) else 0
    ensures r.Some? ==> forall k: KeyId :: k < |old(store.counts)| ==> Owned(r.value, k) == 0
  {
    hide Owned, UniqueServers;
    if inp.path == "" || inp.document.None? {
      return None;
    }
    var doc := inp.document.value;
    var unique := ValidateUniqueServerNames(doc);
    if !unique || !inp.actionsValid || !inp.addressesValid {
      BlankOwnsNothing(doc);
      Free(doc, store);
      return None;
    }
    var servers := ApplyDefaults(doc.servers);
    var c, ok := LoadKeys(doc.(servers := servers), inp, store);
    if !ok {
      Free(c, store);
      return None;
    }
    SameNamesStayUnique(doc.servers, c.servers);
    return Some(c);
  }

  lemma SameNamesStayUnique(ss: seq<Server>, ts: seq<Server>)
    requires UniqueServers(ss) && |ss| == |ts| && forall i :: 0 <= i < |ss| ==> ss[i].name == ts[i].name
    ensures UniqueServers(ts)
  {
  }

  lemma BlankOwnsNothing(c: Config)
    requires Blank(c)
    ensures forall k: KeyId :: Owned(c, k) == 0
  {
    forall k: KeyId ensures Owned(c, k) == 0 {
      UsersUseBlank(c.users, k);
      ServersUseBlank(c.servers, k);
    }
  }

  /** Master, user, server and HMAC keys in that order, stopping at the first failure. */
  method LoadKeys(d: Config, inp: Inputs, store: Store) returns (c: Config, ok: bool)
    requires Blank(d)
    requires |inp.userFiles| == |inp.hmacFiles| == |d.users| && |inp.serverFiles| == |d.servers|
    requires forall i :: 0 <= i < |inp.hmacFiles| && inp.hmacFiles[i].Some? ==> |inp.hmacFiles[i].value| == 32
    modifies store
    ensures ok <==>
            && (d.keyPath == "" || IsKey(inp.masterFile))
            && (forall i :: 0 <= i < |d.users| && d.users[i].enabled ==>
                  inp.userFiles[i] == Rsa && inp.hmacFiles[i].Some?)
            && (forall i :: 0 <= i < |d.servers| && NeedsKeyFile(d.servers[i]) ==> IsKey(inp.serverFiles[i]))
    ensures ok ==> |c.users| == |d.users| && |c.servers| == |d.servers|
    ensures ok ==> (c.masterKey.Some? <==> d.keyPath != "")
    ensures ok ==> forall i :: 0 <= i < |d.users| ==> SameUser(d.users[i], c.users[i]) && |c.users[i].hmacKey| == 32
    ensures ok ==> forall i :: 0 <= i < |d.users| && d.users[i].enabled ==> c.users[i].pubkey.Some?
    ensures ok ==> HmacLoaded(inp, c) && c.keyPath == d.keyPath
    ensures ok ==> forall i :: 0 <= i < |d.servers| ==> KeyedAs(d.servers[i], c.servers[i], c.masterKey)
    ensures forall k: KeyId :: store.Count(k) == old(store.Count(k)) + Owned(c, k)
    ensures forall k: KeyId :: k < |old(store.counts)| ==> Owned(c, k) == 0
  {
    forall k: KeyId ensures UsersUse(d.users, k) == 0 && ServersUse(d.servers, k) == 0 {
      UsersUseBlank(d.users, k);
      ServersUseBlank(d.servers, k);
    }
    c, ok := LoadMasterKey(d, store, inp.masterFile);
    if !ok {
      return;
    }
    var users;
    users, ok := LoadUserKeys(c.users, store, inp.userFiles);
    c := c.(users := users);
    if !ok {
      return;
    }
    var servers;
    servers, ok := LoadServerKeys(c.servers, c.masterKey, store, inp.serverFiles);
    c := c.(servers := servers);
    if !ok {
      return;
    }
    users, ok := LoadHmacKeys(c.users, inp.hmacFiles);
    forall k: KeyId ensures UsersUse(users, k) == UsersUse(c.users, k) {
      UsersUseSameKeys(users, c.users, k);
    }
    c := c.(users := users);
  }
}
