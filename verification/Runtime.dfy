/**
 * The running daemon: an explicit heap of config objects, the listener and session that borrow from the attached one,
 * and the codec snapshot with references of its own.
 *
 * A config pointer is a position in `cells`; freeing the object leaves `None` there for good, so a
 * dangling pointer is a position that holds `None`.
 */
module Runtime {
  import opened Common
  import opened KeyStore
  import opened CodecContext
  import opened Config
  import opened CodecSync
  import opened Reload

  /** Points the session at the server's key. The other fields are not touched. */
  method InitSession(s: Server, session: Session, library: bool) returns (r: Session, ok: bool)
    ensures ok <==> SessionReady(s, library)
    ensures r == if ok then session.(privateKey := SessionKey(s)) else session
    ensures ok && s.secure ==> r.privateKey.Some? && r.privateKey == s.privKey
    ensures ok && !s.secure ==> r.privateKey == None
    ensures r.publicKey == session.publicKey && r.hmacKey == session.hmacKey
    ensures ok <==> library && (s.secure ==> s.privKey.Some?)
  {
    if !library {
      return session, false;
    }
    if s.secure {
      if s.privKey.None? {
        return session, false;
      }
      return session.(privateKey := s.privKey), true;
    }
    return session.(privateKey := None), true;
  }

  class Daemon {
    const store: Store
    var cells: seq<Option<Config>>
    var attached: Option<nat>
    var owned: bool
    var listener: Listener
    var session: Session
    var codec: Context?
    var mux: Policy

    constructor (store: Store)
      requires store.counts == []
      ensures Quiet() && this.store == store && attached == None && codec == null
      ensures listener == Listener(-1, 0, "", None) && session == NO_BORROWS
    {
      this.store := store;
      cells, attached, owned := [], None, false;
      listener, session := Listener(-1, 0, "", None), NO_BORROWS;
      codec, mux := null, Policy(false, false);
    }

    /** References to key `k` held by the codec snapshot. */
    ghost function CodecHeld(k: KeyId): (r: nat)
      reads this`codec, codec, if codec == null then {} else {codec.keychain}
      requires codec != null ==> codec.len <= codec.keychain.Length
    {
      if codec == null then 0 else codec.Held(k)
    }

    /** Every reference is accounted for: live configs and the snapshot hold exactly what the counts say. */
    ghost predicate Conserved()
      reads this`cells, this`codec, store, codec, if codec == null then {} else {codec.keychain}
      requires codec != null ==> codec.len <= codec.keychain.Length
    {
      forall k: KeyId :: store.Count(k) == CellsUse(cells, k) + CodecHeld(k)
    }

    ghost predicate Sound()
      reads this`cells, this`codec, store, codec, if codec == null then {} else {codec.keychain}
    {
      && (codec != null ==> codec.store == store && codec.Valid())
      && (forall i :: 0 <= i < |cells| && cells[i].Some? ==> WellFormed(cells[i].value))
      && Conserved()
    }

    predicate IsLive(c: nat)
      reads this`cells
    {
      c < |cells| && cells[c].Some?
    }

    /** The heap invariant together with the single owning pointer to the attached config. */
    ghost predicate Valid()
      reads this, store, codec, if codec == null then {} else {codec.keychain}
    {
      && Sound()
      && (attached.Some? ==> IsLive(attached.value))
      && (owned <==> attached.Some?)
    }

    /** A borrowed key belongs to the attached config. */
    ghost predicate Borrowed(k: Option<KeyId>)
      reads this`cells, this`attached
    {
      k.Some? ==> attached.Some? && IsLive(attached.value) && PointsTo(cells[attached.value].value, k.value)
    }

    predicate RefOk(r: ServerRef)
      reads this`cells
    {
      IsLive(r.cfg) && r.index < |cells[r.cfg].value.servers|
    }

    /** Borrowed pointers are null or lead into the attached config. */
    ghost predicate BorrowsOk()
      reads this`cells, this`attached, this`listener, this`session
    {
      && (listener.server.Some? ==> attached == Some(listener.server.value.cfg) && RefOk(listener.server.value))
      && Borrowed(session.publicKey)
      && Borrowed(session.privateKey)
    }

    /** What holds between calls: besides the above, the attached config is the only live one. */
    ghost predicate Quiet()
      reads this, store, codec, if codec == null then {} else {codec.keychain}
    {
      && Valid() && BorrowsOk()
      && forall i: nat :: IsLive(i) ==> attached == Some(i)
    }

    lemma QuietIsSane()
      requires Quiet()
      ensures Sane(Now())
    {
      forall c: nat | LiveIn(Now(), c) ensures attached == Some(c) {
        assert IsLive(c);
      }
    }

    function ServerAt(r: ServerRef): (result: Server)
      reads this`cells
      requires RefOk(r)
    {
      cells[r.cfg].value.servers[r.index]
    }

    /** What the key snapshot shows, if there is one. */
    ghost function Shown(): (r: Option<Snapshot>)
      reads this`codec, codec, if codec == null then {} else {codec.keychain}
    {
      if codec != null && codec.len <= codec.keychain.Length then Some(codec.Snap()) else None
    }

    /** The plain state, without the key counts. */
    ghost function Now(): (r: State)
      reads this, codec, if codec == null then {} else {codec.keychain}
    {
      State(cells, attached, listener, session, mux, Shown())
    }

    /** The running listener's server and its port, when there is one. */
    function CurrentName(): (r: string)
      reads this
      requires listener.server.Some? ==> RefOk(listener.server.value)
    {
      if listener.server.Some? then ServerAt(listener.server.value).name else ""
    }

    function CurrentPort(): (r: Option<int>)
      reads this
      requires listener.server.Some? ==> RefOk(listener.server.value)
    {
      if listener.server.Some? then Some(ServerAt(listener.server.value).port) else None
    }

    // ---- owning pointers ----

    method Detach() returns (c: Option<nat>)
      requires Valid()
      modifies this`attached, this`owned
      ensures Valid() && c == old(attached) && attached == None
    {
      c := attached;
      attached, owned := None, false;
    }

    /** Frees one config object. Freeing it twice, or while it is attached, is excluded. */
    method Destroy(c: nat)
      requires Sound() && IsLive(c)
      modifies this`cells, store
      ensures Sound() && cells == old(cells)[c := None]
    {
      forall k: KeyId
        ensures CellsUse(cells[c := None], k) == CellsUse(cells, k) - Owned(cells[c].value, k)
        ensures Owned(cells[c].value, k) <= store.Count(k)
      {
        CellsUseUpdate(cells, c, None, k);
        assert store.Count(k) == CellsUse(cells, k) + CodecHeld(k);
      }
      Free(cells[c].value, store);
      cells := cells[c := None];
    }

    method Attach(c: Option<nat>)
      requires Valid() && (c.Some? ==> IsLive(c.value) && attached != c)
      modifies this`cells, this`attached, this`owned, store
      ensures Valid() && attached == if c.Some? then c else old(attached)
      ensures cells == if c.Some? && old(attached).Some? then old(cells)[old(attached).value := None] else old(cells)
      ensures old(attached).None? ==> unchanged(store)
    {
      if c.None? {
        return;
      }
      if owned && attached.Some? {
        Destroy(attached.value);
      }
      attached, owned := c, true;
    }

    method LoadDetached(inp: Inputs) returns (c: Option<nat>)
      requires Valid() && BorrowsOk() && UsableInputs(inp)
      modifies this`cells, store
      ensures Valid() && BorrowsOk() && CurrentPort() == old(CurrentPort())
      ensures c.Some? <==> Loadable(inp)
      ensures c.None? ==> cells == old(cells) && SameCounts()
      ensures c.Some? ==> c.value == |old(cells)| && IsLive(c.value) && inp.document.Some?
      ensures c.Some? ==>
                cells == old(cells) + [cells[c.value]] && Built(old(Now()), inp.document.value, cells[c.value].value)
      ensures c.Some? ==> HmacLoaded(inp, cells[c.value].value)
      ensures c.Some? ==> forall k: KeyId :: store.Count(k) == old(store.Count(k)) + Owned(cells[c.value].value, k)
    {
      var built := BuildFromPath(inp, store);
      if built.None? {
        return None;
      }
      forall k: KeyId ensures CellsUse(cells + [built], k) == CellsUse(cells, k) + Owned(built.value, k) {
        CellsUseAppend(cells, built, k);
      }
      forall k: KeyId | Owned(built.value, k) > 0 ensures CellsUse(cells, k) == 0 {
        assert old(store.Count(k)) == CellsUse(cells, k) + CodecHeld(k);
      }
      c := Some(|cells|);
      cells := cells + [built];
    }

    /**
     * Loads and attaches in one step, as at start-up. The previous config is destroyed without a look at what was
     * lent from it: the borrowed pointers still lead somewhere exactly when there were none.
     */
    method Load(inp: Inputs) returns (ok: bool)
      requires Quiet() && UsableInputs(inp)
      modifies this`cells, this`attached, this`owned, store
      ensures Valid() && forall i: nat :: IsLive(i) ==> attached == Some(i)
      ensures ok <==> Loadable(inp)
      ensures ok ==> attached == Some(|old(cells)|) && Reflects(inp.document.value, cells[attached.value].value)
      ensures ok ==> HmacLoaded(inp, cells[attached.value].value)
      ensures ok ==>
                (BorrowsOk() <==> listener.server == None && session.publicKey == None && session.privateKey == None)
      ensures !ok ==> BorrowsOk() && attached == old(attached) && cells == old(cells)
    {
      ghost var before := cells;
      var c := LoadDetached(inp);
      if c.Some? {
        NothingBorrowed(before, cells[c.value].value, session.publicKey);
        NothingBorrowed(before, cells[c.value].value, session.privateKey);
      }
      Attach(c);
      return c.Some?;
    }

    /** A key borrowed from the attached config is none of a newly loaded one. */
    lemma NothingBorrowed(before: seq<Option<Config>>, c: Config, k: Option<KeyId>)
      requires FreshKeys(before, c) && WellFormed(c)
      requires k.Some? ==> attached.Some? && attached.value < |before| && before[attached.value].Some?
      requires k.Some? ==> WellFormed(before[attached.value].value) && PointsTo(before[attached.value].value, k.value)
      ensures k.Some? ==> !PointsTo(c, k.value)
    {
      if k.Some? && PointsTo(c, k.value) {
        PointedIsOwned(c, k.value);
        PointedIsOwned(before[attached.value].value, k.value);
        CellsUseUpdate(before, attached.value, None, k.value);
      }
    }

    /** Selects an enabled server of the attached config for the listener, or none. */
    method SelectServer(name: string) returns (ok: bool)
      requires Quiet()
      modifies this`listener
      ensures Quiet()
      ensures var r := Previous(old(Now()), name);
              && (ok <==> r.Some? && ServerIn(old(Now()), r.value).enabled)
              && listener == old(listener).(server := if ok then r else None)
    {
      listener := listener.(server := None);
      if attached.None? || name == "" {
        return false;
      }
      var i := ServerByName(cells[attached.value].value, name);
      if i == |cells[attached.value].value.servers| || !cells[attached.value].value.servers[i].enabled {
        return false;
      }
      listener := listener.(server := Some(ServerRef(attached.value, i)));
      return true;
    }

    /** Binds the socket of the server in use. */
    method StartListener(bound: Option<Socket>) returns (ok: bool)
      requires Quiet()
      modifies this`listener
      ensures Quiet()
      ensures ok <==> Lent(old(Now())).Some? && bound.Some?
      ensures listener == if ok then Rebound(old(listener), Lent(old(Now())).value, bound.value) else old(listener)
    {
      if listener.server.None? || bound.None? {
        return false;
      }
      listener := Rebound(listener, ServerAt(listener.server.value), bound.value);
      return true;
    }

    /** Sets up the session for the server in use. */
    method StartSession(library: bool) returns (ok: bool)
      requires Quiet() && session == NO_BORROWS
      modifies this`session
      ensures Quiet()
      ensures ok <==> LentAgain(old(Now()), library)
      ensures ok ==> session == NO_BORROWS.(privateKey := SessionKey(Lent(old(Now())).value))
      ensures ok ==> SessionAgrees(Now()) && session.publicKey == None && session.hmacKey == []
    {
      if listener.server.None? {
        return false;
      }
      session, ok := InitSession(ServerAt(listener.server.value), session, library);
    }

    twostate predicate SameCounts()
      reads this, store
    {
      forall k: KeyId :: store.Count(k) == old(store.Count(k))
    }

    method InvalidateBorrows()
      modifies this`listener, this`session
      ensures listener == old(listener).(server := None) && session == NO_BORROWS
      ensures session.publicKey == None && session.privateKey == None && session.hmacKey == []
    {
      listener := listener.(server := None);
      session := NO_BORROWS;
    }

    // ---- codec and mux ----

    /**
     * Rebuilds the codec snapshot from a config and pushes the server's wire policy, telling how far it got; the
     * program reports `Committed` as 1. The mux takes the policy over before its own fallible steps, so a refused
     * push has still changed the policy.
     */
    method SyncCodecContext(c: Option<nat>, r: Option<ServerRef>, g: SyncGrants) returns (exit: Exit)
      requires Valid() && (c.Some? ==> IsLive(c.value)) && (r.Some? ==> RefOk(r.value))
      modifies this`codec, this`mux, store, codec, if codec == null then {} else {codec.keychain}
      ensures Valid()
      ensures CodecFramed()
      ensures c.None? || r.None? ==> exit == RebuildFailed && CodecUntouched() && unchanged(this) && unchanged(store)
      ensures c.Some? && r.Some? ==>
                var us, s := cells[c.value].value.users, ServerAt(r.value);
                && exit == SyncExit(old(Shown()), us, s.name, InstallsKey(s), g)
                && Shown() == SyncedCodec(old(Shown()), us, s, g)
                && mux == if exit == RebuildFailed then old(mux) else PolicyOf(s)
    {
      hide Completes, Rebuilt;
      if c.None? || r.None? {
        return RebuildFailed;
      }
      if codec == null {
        if !g.create {
          return RebuildFailed;
        }
        codec := new Context(store);
        assert forall k: KeyId :: codec.Held(k) == 0;
      }
      var ok := RebuildCodec(c.value, r.value, g);
      if !ok {
        return RebuildFailed;
      }
      mux := PolicyOf(ServerAt(r.value));
      return if g.mux then Committed else PushRefused;
    }

    method RebuildCodec(c: nat, r: ServerRef, g: SyncGrants) returns (ok: bool)
      requires Valid() && IsLive(c) && RefOk(r) && codec != null
      modifies store, codec, codec.keychain
      ensures codec.keychain == old(codec.keychain) || fresh(codec.keychain)
      ensures Valid()
      ensures var us, s := cells[c].value.users, ServerAt(r);
              && (ok <==> Completes(us, s.name, InstallsKey(s), g, old(codec.keychain.Length)))
              && codec.Snap() == Rebuilt(us, s, g, old(codec.keychain.Length))
    {
      hide Completes, Rebuilt;
      UsersAreHeld(c);
      ServerKeyIsHeld(r);
      ok := Rebuild(codec, cells[c].value.users, ServerAt(r), g);
      forall k: KeyId ensures store.Count(k) == CellsUse(cells, k) + CodecHeld(k) {
        assert codec.Others(k) == old(codec.Others(k));
        assert old(store.Count(k)) == CellsUse(cells, k) + old(CodecHeld(k));
      }
    }

    /** The snapshot and its array are the old ones or new ones. */
    twostate predicate CodecFramed()
      reads this, codec
    {
      && (codec == old(codec) || fresh(codec))
      && (codec != null ==>
            || (codec == old(codec) && codec.keychain == old(if codec == null then null else codec.keychain))
            || fresh(codec.keychain))
    }

    twostate predicate CodecUntouched()
      reads this, codec, if codec == null then {} else {codec.keychain}
    {
      && codec == old(codec)
      && (codec != null ==> unchanged(codec) && unchanged(codec.keychain))
    }

    lemma UsersAreHeld(c: nat)
      requires Sound() && codec != null && IsLive(c)
      ensures Usable(codec, cells[c].value.users)
    {
      var cfg := cells[c].value;
      forall i | 0 <= i < |cfg.users| && cfg.users[i].pubkey.Some? ensures codec.Others(cfg.users[i].pubkey.value) > 0 {
        var k := cfg.users[i].pubkey.value;
        PointedIsOwned(cfg, k);
        CellsUseUpdate(cells, c, None, k);
        assert store.Count(k) == CellsUse(cells, k) + CodecHeld(k);
      }
    }

    lemma ServerKeyIsHeld(r: ServerRef)
      requires Sound() && codec != null && RefOk(r)
      ensures ServerAt(r).privKey.Some? ==> codec.Others(ServerAt(r).privKey.value) > 0
    {
      if ServerAt(r).privKey.Some? {
        var k := ServerAt(r).privKey.value;
        PointedIsOwned(cells[r.cfg].value, k);
        CellsUseUpdate(cells, r.cfg, None, k);
        assert store.Count(k) == CellsUse(cells, k) + CodecHeld(k);
      }
    }

    // ---- reload ----

    /**
     * Stages the next config and runs every check that needs no change to the running state.
     * A staged config that fails a check is destroyed again.
     */
    method Stage(inp: Inputs, target: string, env: Externals) returns (exit: Exit, c: Option<nat>, changed: bool)
      requires Quiet() && UsableInputs(inp) && target != ""
      modifies this`cells, store
      ensures Valid() && BorrowsOk()
      ensures exit == StageExit(inp, target, listener, old(PortOf(Now())), env)
      ensures c == if exit == Committed then Some(|old(cells)|) else None
      ensures c.None? ==> SameCounts() && cells == if exit == LoadFailed then old(cells) else old(cells) + [None]
      ensures c.Some? ==> IsLive(c.value) && cells == old(cells) + [cells[c.value]]
      ensures c.Some? ==> Built(old(Now()), inp.document.value, cells[c.value].value)
      ensures c.Some? ==> HmacLoaded(inp, cells[c.value].value)
      ensures c.Some? ==> Offers(cells[c.value].value, inp.document.value, target)
      ensures c.Some? ==> changed == Moves(old(Now()), Offered(inp.document.value, target).value)
    {
      hide Loadable, Reflects, HmacLoaded, FreshKeys, WellFormed, Offers, SessionWorks, Bindable, BindingChanged;
      c := LoadDetached(inp);
      if c.None? {
        return LoadFailed, None, false;
      }
      exit, changed := Select(c.value, inp.document.value, target, env);
      if exit != Committed {
        c := None;
      }
    }

    /** Looks the target up in the staged config and examines it, destroying the config when it fails. */
    method Select(c: nat, ghost doc: Config, target: string, env: Externals) returns (exit: Exit, changed: bool)
      requires Valid() && BorrowsOk() && IsLive(c) && c == |cells| - 1 && attached != Some(c)
      requires Reflects(doc, cells[c].value)
      modifies this`cells, store
      ensures Valid() && BorrowsOk()
      ensures exit == NoServer || exit == SessionRejected || exit == BindingRejected || exit == Committed
      ensures exit == NoServer <==> Unusable(Offered(doc, target))
      ensures exit == SessionRejected <==>
                !Unusable(Offered(doc, target)) && !SessionWorks(doc, Offered(doc, target).value, env.stagedSession)
      ensures exit == Committed <==> Suitable(doc, Offered(doc, target), listener, old(CurrentPort()), env)
      ensures exit == Committed ==> cells == old(cells) && SameCounts() && Offers(cells[c].value, doc, target)
      ensures exit == Committed ==> changed == BindingChanged(listener, old(CurrentPort()), Offered(doc, target).value)
      ensures exit != Committed ==> cells == old(cells)[..c] + [None]
      ensures exit != Committed ==>
                forall k: KeyId :: store.Count(k) == old(store.Count(k)) - Owned(old(cells)[c].value, k)
    {
      hide Sound, Suitable, SessionWorks, Offers, Offered, Reflects, BindingChanged;
      exit, changed := Inspect(cells[c].value, doc, target, CurrentPort(), env);
      if exit != Committed {
        DestroyStaged(c);
      }
    }

    method Inspect(c: Config, ghost doc: Config, target: string, fallback: Option<int>, env: Externals)
      returns (exit: Exit, changed: bool)
      requires Reflects(doc, c)
      ensures exit == NoServer || exit == SessionRejected || exit == BindingRejected || exit == Committed
      ensures exit == NoServer <==> Unusable(Offered(doc, target))
      ensures exit == SessionRejected <==>
                !Unusable(Offered(doc, target)) && !SessionWorks(doc, Offered(doc, target).value, env.stagedSession)
      ensures exit == Committed <==> Suitable(doc, Offered(doc, target), listener, fallback, env)
      ensures exit == Committed ==> Offers(c, doc, target)
      ensures exit == Committed ==> changed == BindingChanged(listener, fallback, Offered(doc, target).value)
    {
      SelectedIsOffered(doc, c, target);
      var i := ServerByName(c, target);
      if i == |c.servers| {
        return NoServer, false;
      }
      exit, changed := Examine(c.servers[i], fallback, env);
    }

    /** The checks on the selected server of a staged config, in the program's order. */
    method Examine(s: Server, fallback: Option<int>, env: Externals) returns (exit: Exit, changed: bool)
      ensures exit == Committed <==>
              s.enabled && SessionReady(s, env.stagedSession) && Bindable(listener, fallback, s, env.probe)
      ensures exit == NoServer <==> !s.enabled
      ensures exit == SessionRejected <==> s.enabled && !SessionReady(s, env.stagedSession)
      ensures exit == NoServer || exit == SessionRejected || exit == BindingRejected || exit == Committed
      ensures exit == Committed ==> changed == BindingChanged(listener, fallback, s)
    {
      if !s.enabled {
        return NoServer, false;
      }
      var staged, ready := InitSession(s, NO_BORROWS, env.stagedSession);
      if !ready {
        return SessionRejected, false;
      }
      changed := BindingChanged(listener, fallback, s);
      if changed {
        if SamePortIpChange(listener, fallback, s) {
          return BindingRejected, changed;
        }
        var bindable := ProbeBind(s, env.probe);
        if !bindable {
          return BindingRejected, changed;
        }
      }
      return Committed, changed;
    }

    /** Destroys the object allocated last, which nothing points to. */
    method DestroyStaged(c: nat)
      requires Valid() && BorrowsOk() && IsLive(c) && c == |cells| - 1 && attached != Some(c)
      modifies this`cells, store
      ensures Valid() && BorrowsOk() && cells == old(cells)[..c] + [None]
      ensures forall k: KeyId :: store.Count(k) == old(store.Count(k)) - Owned(old(cells)[c].value, k)
    {
      forall k: KeyId ensures CellsUse(cells[c := None], k) == CellsUse(cells, k) - Owned(cells[c].value, k) {
        CellsUseUpdate(cells, c, None, k);
      }
      Destroy(c);
      forall k: KeyId ensures store.Count(k) == old(store.Count(k)) - Owned(old(cells)[c].value, k) {
        assert store.Count(k) == CellsUse(cells, k) + CodecHeld(k);
        assert old(store.Count(k)) == CellsUse(old(cells), k) + old(CodecHeld(k));
      }
    }

    /** A trial bind, skipped when the live socket already has the binding. */
    method ProbeBind(s: Server, bound: Option<Socket>) returns (ok: bool)
      ensures ok <==>
                (listener.sock >= 0 && listener.boundPort == s.port && listener.boundIp == s.bindIp) || bound.Some?
    {
      if SameBinding(listener, s) {
        return true;
      }
      return bound.Some?;
    }

    /** Moves the listener to the server's binding, keeping everything else of it. */
    method RebindListener(s: Server, bound: Option<Socket>) returns (ok: bool)
      modifies this`listener
      ensures ok <==> old(SameBinding(listener, s)) || bound.Some?
      ensures listener ==
                if ok && !old(SameBinding(listener, s)) then Rebound(old(listener), s, bound.value) else old(listener)
      ensures var same := old(listener.sock >= 0 && listener.boundPort == s.port && listener.boundIp == s.bindIp);
              && (ok <==> same || bound.Some?)
              && (same || !ok ==> listener == old(listener))
              && (ok && !same ==>
                    && listener.server == old(listener.server) && listener.sock == bound.value.fd
                    && listener.boundIp == s.bindIp
                    && listener.boundPort == if bound.value.port > 0 then bound.value.port else s.port)
    {
      if SameBinding(listener, s) {
        return true;
      }
      if bound.None? {
        return false;
      }
      listener := Rebound(listener, s, bound.value);
      return true;
    }

    // ---- rollback ----

    /** Puts the previous config back in place of the new one, which is destroyed. */
    method SwapBack(previous: Option<nat>, name: string) returns (restored: Option<ServerRef>)
      requires Valid() && attached.Some? && (previous.Some? ==> IsLive(previous.value) && previous != attached)
      modifies this`cells, this`attached, this`owned, this`listener, this`session, store
      ensures Valid() && attached == previous
      ensures cells == old(cells)[old(attached).value := None]
      ensures listener == old(listener).(server := None) && session == NO_BORROWS
      ensures restored == Previous(Now(), name)
    {
      InvalidateBorrows();
      var failed := Detach();
      Attach(previous);
      if failed.Some? {
        Destroy(failed.value);
      }
      restored := None;
      if name != "" && attached.Some? {
        var i := ServerByName(cells[attached.value].value, name);
        if i < |cells[attached.value].value.servers| {
          restored := Some(ServerRef(attached.value, i));
        }
      }
    }

    /** Lends the restored server to the listener if a session can be set up for it, else leaves both empty. */
    method RestoreSession(restored: Option<ServerRef>, library: bool)
      requires Valid() && (restored.Some? ==> RefOk(restored.value) && attached == Some(restored.value.cfg))
      requires session == NO_BORROWS && listener.server == None
      modifies this`listener, this`session
      ensures Valid() && BorrowsOk()
      ensures Now() == WithServer(old(Now()), restored, library)
    {
      if restored.Some? {
        var ready;
        session, ready := InitSession(ServerAt(restored.value), session, library);
        if ready {
          listener := listener.(server := restored);
          return;
        }
      }
      InvalidateBorrows();
    }

    // ---- commit ----

    /** Swaps the new config in and lends its server to the listener. Nothing is freed here. */
    method Install(c: nat, target: string) returns (previous: Option<nat>)
      requires Valid() && IsLive(c) && attached != Some(c)
      requires ServerIndex(cells[c].value.servers, target) < |cells[c].value.servers|
      modifies this`cells, this`attached, this`owned, this`listener, this`session, store
      ensures Valid() && previous == old(attached) && attached == Some(c) && cells == old(cells)
      ensures unchanged(store) && session == NO_BORROWS
      ensures listener == old(listener).(server := Some(ServerRef(c, ServerIndex(cells[c].value.servers, target))))
    {
      hide Sound;
      previous := Detach();
      InvalidateBorrows();
      Attach(Some(c));
      var i := ServerByName(cells[c].value, target);
      listener := listener.(server := Some(ServerRef(c, i)));
    }

    /** Session and socket for the newly attached server. */
    method Connect(changed: bool, env: Externals) returns (exit: Exit)
      requires listener.server.Some? && RefOk(listener.server.value) && session == NO_BORROWS
      requires SessionReady(ServerAt(listener.server.value), true)
      modifies this`session, this`listener
      ensures exit == SessionFailed <==> !env.liveSession
      ensures exit == RebindFailed <==>
                env.liveSession && !Movable(old(listener), old(ServerAt(listener.server.value)), changed, env)
      ensures exit == SessionFailed || exit == RebindFailed || exit == Committed
      ensures listener ==
                if exit == Committed then Moved(old(listener), old(ServerAt(listener.server.value)), changed, env)
                          else old(listener)
      ensures session == if exit == SessionFailed then NO_BORROWS
                         else NO_BORROWS.(privateKey := SessionKey(old(ServerAt(listener.server.value))))
    {
      var s := ServerAt(listener.server.value);
      var ok;
      session, ok := InitSession(s, session, env.liveSession);
      if !ok {
        return SessionFailed;
      }
      if changed {
        ok := RebindListener(s, env.bind);
        if !ok {
          return RebindFailed;
        }
      }
      return Committed;
    }

    /** The part of a reload that follows the swap, in the program's order, for the server `s` just lent. */
    method Activate(changed: bool, env: Externals, ghost s: Server, ghost us: seq<User>) returns (exit: Exit)
      requires Valid() && listener.server.Some? && RefOk(listener.server.value)
      requires attached == Some(listener.server.value.cfg) && session == NO_BORROWS
      requires s == ServerAt(listener.server.value) && us == cells[attached.value].value.users && SessionReady(s, true)
      modifies this`session, this`listener, this`codec, this`mux, store, codec, if codec == null then {}
        else {codec.keychain}
      ensures Valid() && listener.server == old(listener.server)
      ensures CodecFramed()
      ensures exit == CommitExit(old(listener), old(Shown()), us, s, InstallsKey(s), changed, env)
      ensures listener == if Reached(exit) then Moved(old(listener), s, changed, env) else old(listener)
      ensures session == if exit == SessionFailed then NO_BORROWS else NO_BORROWS.(privateKey := SessionKey(s))
      ensures mux == if exit == PushRefused || exit == Committed then PolicyOf(s) else old(mux)
      ensures Shown() == if Reached(exit) then SyncedCodec(old(Shown()), us, s, env.sync) else old(Shown())
      ensures !Reached(exit) ==> CodecUntouched() && unchanged(store)
    {
      hide SyncExit, SyncedCodec, Sound;
      exit := Connect(changed, env);
      if exit == Committed {
        exit := SyncCodecContext(attached, listener.server, env.sync);
      }
    }

    /** The position of the target's server in a config that is known to have one. */
    ghost predicate Selects(c: nat, target: string)
      reads this
    {
      && IsLive(c)
      && ServerIndex(cells[c].value.servers, target) < |cells[c].value.servers|
      && SessionReady(cells[c].value.servers[ServerIndex(cells[c].value.servers, target)], true)
    }

    function Selected(c: nat, target: string): (r: ServerRef)
      reads this
      requires IsLive(c)
    {
      ServerRef(c, ServerIndex(cells[c].value.servers, target))
    }

    /**
     * Commits a staged config, or rolls back. A rollback after a codec failure asks for the old snapshot
     * with a config pointer that is already null, so that request does nothing.
     */
    method Commit(c: nat, target: string, name: string, changed: bool, env: Externals) returns (exit: Exit)
      requires Valid() && Selects(c, target) && attached != Some(c)
      requires forall i: nat :: IsLive(i) ==> i == c || attached == Some(i)
      modifies this, store, codec, if codec == null then {} else {codec.keychain}
      ensures Quiet()
      ensures CodecFramed()
      ensures exit == old(ExitOfCommit(c, target, changed, env))
      ensures Now() == old(SettledTo(AdvancedTo(Now(), c, target, changed, env, exit), c, attached, name, env, exit))
      ensures !Reached(exit) ==> CodecUntouched()
    {
      hide Sound, BorrowsOk, AdvancedTo, SettledTo, Selects, CommitExit;
      var previous;
      previous, exit := Advance(c, target, changed, env);
      Settle(c, previous, name, exit, env);
    }

    ghost function ExitOfCommit(c: nat, target: string, changed: bool, env: Externals): (r: Exit)
      reads this, codec, if codec == null then {} else {codec.keychain}
      requires Selects(c, target)
    {
      var s := ServerAt(Selected(c, target));
      CommitExit(listener, Shown(), cells[c].value.users, s, InstallsKey(s), changed, env)
    }

    /** Stays with the new config, or goes back. */
    method Settle(c: nat, previous: Option<nat>, name: string, exit: Exit, env: Externals)
      requires Valid() && BorrowsOk() && attached == Some(c)
                 && (previous.Some? ==> IsLive(previous.value) && previous != attached)
      requires forall i: nat :: IsLive(i) ==> attached == Some(i) || previous == Some(i)
      modifies this, store, codec, if codec == null then {} else {codec.keychain}
      ensures Quiet() && CodecUntouched()
      ensures Now() == SettledTo(old(Now()), c, previous, name, env, exit)
    {
      hide Sound, BorrowsOk, RolledBack;
      if exit == Committed {
        Retire(previous);
      } else {
        Rollback(previous, name, InCodec(exit), env);
      }
    }

    /** The swap and what follows it, up to the point where the reload either stays or goes back. */
    method Advance(c: nat, target: string, changed: bool, env: Externals) returns (previous: Option<nat>, exit: Exit)
      requires Valid() && Selects(c, target) && attached != Some(c)
      modifies this, store, codec, if codec == null then {} else {codec.keychain}
      ensures Valid() && BorrowsOk() && previous == old(attached) && attached == Some(c) && cells == old(cells)
      ensures CodecFramed()
      ensures exit == old(ExitOfCommit(c, target, changed, env))
      ensures Now() == AdvancedTo(old(Now()), c, target, changed, env, exit)
      ensures !Reached(exit) ==> CodecUntouched()
    {
      hide Sound, SyncExit, SyncedCodec;
      ghost var s, us := ServerAt(Selected(c, target)), cells[c].value.users;
      previous := Install(c, target);
      exit := Activate(changed, env, s, us);
    }

    /** Frees the previous config once the new one is in use. */
    method Retire(previous: Option<nat>)
      requires Valid() && BorrowsOk() && (previous.Some? ==> IsLive(previous.value) && previous != attached)
      requires forall i: nat :: IsLive(i) ==> attached == Some(i) || previous == Some(i)
      modifies this`cells, store
      ensures Quiet() && cells == FreedIn(old(cells), previous)
    {
      if previous.Some? {
        Destroy(previous.value);
      }
    }

    /** Goes back to the previous config; `resync` is set after a codec failure. */
    method Rollback(previous: Option<nat>, name: string, resync: bool, env: Externals)
      requires Valid() && attached.Some? && (previous.Some? ==> IsLive(previous.value) && previous != attached)
      requires forall i: nat :: IsLive(i) ==> attached == Some(i) || previous == Some(i)
      modifies this, store, codec, if codec == null then {} else {codec.keychain}
      ensures Quiet() && CodecUntouched()
      ensures Now() == old(RolledBack(Now(), attached.value, previous, name, env.restoredSession))
    {
      hide Sound, SessionReady, Previous;
      var restored := SwapBack(previous, name);
      if resync && restored.Some? {
        RequestPreviousSnapshot(restored, env.sync);
      }
      RestoreSession(restored, env.restoredSession);
    }

    /** The sync asked for after a codec failure: its config pointer is null, so nothing happens. */
    method RequestPreviousSnapshot(r: Option<ServerRef>, g: SyncGrants)
      requires Valid() && (r.Some? ==> RefOk(r.value))
      modifies this`codec, this`mux, store, codec, if codec == null then {} else {codec.keychain}
      ensures Valid() && CodecUntouched() && unchanged(store) && unchanged(this)
    {
      var again := SyncCodecContext(None, r, g);
    }

    // ---- the whole reload ----

    /**
     * Reloads the configuration, telling at which exit the program returns. `Step` says which exit that is and
     * what state it leaves; the codec snapshot is only touched when its sync is reached.
     */
    method ReloadConfig(inp: Inputs, requested: string, env: Externals) returns (exit: Exit)
      requires Quiet() && UsableInputs(inp)
      modifies this, store, codec, if codec == null then {} else {codec.keychain}
      ensures Quiet()
      ensures CodecFramed()
      ensures Step(old(Now()), Request(inp, requested, env), exit, Now())
      ensures !Reached(exit) ==> CodecUntouched()
      ensures BeforeCommit(exit) ==> SameCounts()
    {
      hide StageExit, CommitExit, Sound;
      var name := CurrentName();
      var target := if requested != "" then Clip(requested, MAX_NAME) else name;
      if inp.path == "" || target == "" {
        return Refused;
      }
      exit := ReloadTarget(inp, requested, target, name, env);
    }

    method ReloadTarget(inp: Inputs, ghost requested: string, target: string, name: string, env: Externals)
      returns (exit: Exit)
      requires Quiet() && UsableInputs(inp) && inp.path != "" && target == Target(Now(), requested) != ""
                 && name == NameOf(Now())
      modifies this, store, codec, if codec == null then {} else {codec.keychain}
      ensures Quiet()
      ensures CodecFramed()
      ensures Step(old(Now()), Request(inp, requested, env), exit, Now())
      ensures !Reached(exit) ==> CodecUntouched()
      ensures BeforeCommit(exit) ==> SameCounts()
    {
      hide StageExit, CommitExit, Sound, Reflects, HmacLoaded, FreshKeys, WellFormed, After, Suitable, Moves, BorrowsOk;
      ghost var b := Now();
      QuietIsSane();
      ghost var q := Request(inp, requested, env);
      var c, changed;
      exit, c, changed := Stage(inp, target, env);
      if c.Some? {
        ghost var cfg := cells[c.value].value;
        exit := CommitStaged(c.value, inp.document.value, target, name, changed, env, b);
        StepLeads(b, q, exit, Now(), cfg);
      }
    }

    /** Committing a staged config, told in terms of the state before it was staged. */
    method CommitStaged(c: nat, ghost doc: Config, target: string, name: string, changed: bool, env: Externals,
                        ghost b: State)
      returns (exit: Exit)
      requires Valid() && BorrowsOk() && Sane(b) && name == NameOf(b) && attached != Some(c)
      requires IsLive(c) && c == |b.cells| && Now() == b.(cells := b.cells + [cells[c]])
      requires Reflects(doc, cells[c].value) && Offers(cells[c].value, doc, target)
      requires Suitable(doc, Offered(doc, target), b.listener, PortOf(b), env)
      requires changed == Moves(b, Offered(doc, target).value)
      modifies this, store, codec, if codec == null then {} else {codec.keychain}
      ensures Quiet()
      ensures CodecFramed()
      ensures var o := Offered(doc, target).value;
              exit == CommitExit(b.listener, b.codec, doc.users, o, o.secure, Moves(b, o), env)
      ensures Now() == After(b, old(cells[c].value), target, env, exit)
      ensures !Reached(exit) ==> CodecUntouched()
    {
      hide Sound, Reflects, CommitExit, AdvancedTo, SettledTo, After, BorrowsOk, Moves;
      ghost var cfg := cells[c].value;
      SelectedDecidesAlike(b, doc, cfg, target, ServerAt(Selected(c, target)), changed, env);
      exit := Commit(c, target, name, changed, env);
      SettledIsAfter(b, cfg, target, env, exit);
    }

    // ---- start-up ----

    /**
     * From nothing to service: the config, the server asked for, the key snapshot and the policy, the socket, and
     * the session, in the program's order. A start that fails ends the program.
     */
    method StartUp(inp: Inputs, name: string, env: Externals) returns (ok: bool)
      requires Quiet() && UsableInputs(inp) && attached == None && codec == null && session == NO_BORROWS
      modifies this, store
      ensures Quiet() && (codec == null || (fresh(codec) && fresh(codec.keychain)))
      ensures ok <==> Loadable(inp) && Startable(inp.document.value, name, env)
      ensures ok ==> Lent(Now()).Some? && Lent(Now()).value.name == name && PolicyAgrees(Now()) && CodecAgrees(Now())
      ensures ok && AsAsked(env.bind, Lent(Now()).value) ==> Consistent(Now())
      ensures ok ==>
                attached.Some? && IsLive(attached.value) && Reflects(inp.document.value, cells[attached.value].value)
      ensures ok ==> HmacLoaded(inp, cells[attached.value].value)
      ensures ok ==> session == NO_BORROWS.(privateKey := SessionKey(Lent(Now()).value))
      ensures ok ==> SessionAgrees(Now()) && session.publicKey == None && session.hmacKey == []
    {
      hide Sound, BorrowsOk, Loadable, Reflects, HmacLoaded, SyncExit, SyncedCodec, PolicyAgrees, CodecAgrees,
        Consistent, Startable;
      ok := LoadAndSelect(inp, name);
      if !ok {
        NotSelected(inp, name, env);
        return;
      }
      ghost var b := Now();
      ghost var exit;
      ok, exit := GoIntoService(env);
      StartsFrom(b, inp.document.value, name, env, ok, exit, Now());
    }

    /** Snapshot and policy, socket and session for the server selected. */
    method GoIntoService(env: Externals) returns (ok: bool, ghost exit: Exit)
      requires Quiet() && Lent(Now()).Some? && codec == null && session == NO_BORROWS
      modifies this`listener, this`session, this`codec, this`mux, store
      ensures Quiet() && (codec == null || (fresh(codec) && fresh(codec.keychain)))
      ensures var s, us := Lent(old(Now())).value, cells[attached.value].value.users;
              && exit == SyncExit(None, us, s.name, InstallsKey(s), env.sync)
              && (ok <==> exit == Committed && env.bind.Some? && SessionReady(s, env.liveSession))
              && (ok ==> listener == Rebound(old(listener), s, env.bind.value) && mux == PolicyOf(s)
                         && Shown() == SyncedCodec(None, us, s, env.sync)
                         && session == NO_BORROWS.(privateKey := SessionKey(s)) && SessionAgrees(Now()))
    {
      hide Sound, BorrowsOk, SyncExit, SyncedCodec;
      var e := SyncCodecContext(attached, listener.server, env.sync);
      exit := e;
      if e != Committed {
        return false, exit;
      }
      ok := StartListener(env.bind);
      if ok {
        ok := StartSession(env.liveSession);
      }
    }

    /** Loads the config and lends the server of this name. */
    method LoadAndSelect(inp: Inputs, name: string) returns (ok: bool)
      requires Quiet() && UsableInputs(inp) && attached == None && session == NO_BORROWS
      modifies this`cells, this`attached, this`owned, this`listener, store
      ensures Quiet() && (ok <==> Loadable(inp) && name != "" && !Unusable(Offered(inp.document.value, name)))
      ensures ok ==> inp.document.Some? && Attends(Now(), inp.document.value, name)
      ensures ok ==> HmacLoaded(inp, cells[attached.value].value)
    {
      hide Sound, WellFormed, Reflects, HmacLoaded;
      ok := Load(inp);
      if ok {
        StartsAlike(inp.document.value, cells[attached.value].value, name);
        ok := SelectServer(name);
        QuietIsSane();
      }
    }

    // ---- changing a wire flag at run time ----

    /** Stores a wire flag of the named server of the attached config. */
    method SetServerFlag(name: string, flag: WireFlag, enabled: bool) returns (ok: bool)
      requires Quiet()
      modifies this`cells
      ensures Quiet()
      ensures ok <==> Previous(old(Now()), name).Some?
      ensures ok ==>
                var r := Previous(old(Now()), name).value;
                var was := ServerIn(old(Now()), r);
                && was.name == name && RefOk(r)
                && (flag == EnforceDecode ==> ServerAt(r) == was.(enforceDecode := enabled))
                && (flag == EnforceAuth ==> ServerAt(r) == was.(enforceAuth := enabled))
      ensures cells == if ok then WithFlag(old(cells), Previous(old(Now()), name).value, flag, enabled) else old(cells)
    {
      if attached.None? || name == "" {
        return false;
      }
      var cfg := cells[attached.value].value;
      var i := ServerByName(cfg, name);
      if i == |cfg.servers| {
        return false;
      }
      FlagKeepsConfig(cells, ServerRef(attached.value, i), flag, enabled);
      cells := WithFlag(cells, ServerRef(attached.value, i), flag, enabled);
      return true;
    }

    /** Pushes a policy to the mux, which takes it over whether or not it then reports success. */
    method PushPolicy(p: Policy, granted: bool) returns (ok: bool)
      requires Quiet()
      modifies this`mux
      ensures Quiet() && mux == p && ok == granted
    {
      mux := p;
      return granted;
    }

    /**
     * Sets a wire flag of the running server and pushes the policy, undoing both when the push is refused.
     * Either way the mux ends up with exactly the policy stored for the server.
     */
    method SetServerWireFlag(flag: Option<WireFlag>, enabled: bool, first: bool, second: bool)
      returns (reply: WireReply)
      requires Quiet()
      modifies this`cells, this`mux
      ensures Quiet()
      ensures reply == FlagReply(old(Now()), flag, first) && Now() == AfterFlag(old(Now()), flag, enabled, reply)
      ensures reply == InvalidContext <==> old(listener.server).None?
      ensures reply == Done <==> listener.server.Some? && codec != null && flag.Some? && first
      ensures reply == RefreshFailed <==> listener.server.Some? && codec != null && flag.Some? && !first
      ensures reply == Done ==> cells == WithFlag(old(cells), listener.server.value, flag.value, enabled)
      ensures reply != Done ==> cells == old(cells)
      ensures reply == Done || reply == RefreshFailed ==> mux == PolicyOf(ServerAt(listener.server.value))
      ensures reply != Done && reply != RefreshFailed ==> mux == old(mux)
      ensures reply == Done ==>
                var was, s := old(ServerAt(listener.server.value)), ServerAt(listener.server.value);
                && (flag == Some(EnforceDecode) ==> s == was.(enforceDecode := enabled))
                && (flag == Some(EnforceAuth) ==> s == was.(enforceAuth := enabled))
      ensures reply == Done || reply == RefreshFailed ==>
                var s := ServerAt(listener.server.value);
                mux.decode == s.enforceDecode && mux.auth == s.enforceAuth
    {
      if listener.server.None? {
        return InvalidContext;
      }
      if codec == null {
        return WorkspaceUnavailable;
      }
      if flag.None? {
        return UnsupportedKey;
      }
      var ok := ChangeFlag(flag.value, enabled, first, second);
      return if ok then Done else RefreshFailed;
    }

    /** Stores the flag and pushes the policy; if that is refused, stores and pushes the old ones. */
    method ChangeFlag(flag: WireFlag, enabled: bool, first: bool, second: bool) returns (ok: bool)
      requires Quiet() && listener.server.Some?
      modifies this`cells, this`mux
      ensures Quiet() && ok == first
      ensures cells == if ok then WithFlag(old(cells), listener.server.value, flag, enabled) else old(cells)
      ensures mux == PolicyOf(ServerAt(listener.server.value))
    {
      var before := ServerAt(listener.server.value);
      FlagRoundTrip(cells, listener.server.value, flag, enabled);
      ok := StoreAndPush(flag, enabled, PolicyOf(Flagged(before, flag, enabled)), first);
      if !ok {
        var again := StoreAndPush(flag, FlagOf(before, flag), PolicyOf(before), second);
      }
    }

    method StoreAndPush(flag: WireFlag, enabled: bool, p: Policy, granted: bool) returns (ok: bool)
      requires Quiet() && listener.server.Some?
                 && p == PolicyOf(Flagged(ServerAt(listener.server.value), flag, enabled))
      modifies this`cells, this`mux
      ensures Quiet() && ok == granted && cells == WithFlag(old(cells), listener.server.value, flag, enabled)
      ensures mux == p == PolicyOf(ServerAt(listener.server.value))
    {
      SetLentFlag(flag, enabled);
      ok := PushPolicy(p, granted);
    }

    /** The store addresses the running server by name and finds it. */
    method SetLentFlag(flag: WireFlag, enabled: bool)
      requires Quiet() && listener.server.Some?
      modifies this`cells
      ensures Quiet() && cells == WithFlag(old(cells), listener.server.value, flag, enabled)
    {
      var r := listener.server.value;
      LookupFindsItself(cells[r.cfg].value.servers, r.index);
      var stored := SetServerFlag(ServerAt(r).name, flag, enabled);
      assert stored;
    }

    /** Lends a user's public key and HMAC bytes to the session. */
    method AssignSessionToUser(i: nat)
      requires Quiet() && attached.Some? && i < |cells[attached.value].value.users|
      modifies this`session
      ensures Quiet()
      ensures var u := cells[attached.value].value.users[i];
              session == Session(u.pubkey, old(session).privateKey, u.hmacKey)
    {
      var u := cells[attached.value].value.users[i];
      session := session.(publicKey := u.pubkey, hmacKey := u.hmacKey);
    }
  }
}
