/**
 * What a hot reload does, told on plain values: the state it starts in, the document it reads and the outcomes of
 * the calls it makes determine at which exit it returns and, but for the numbers of the keys loaded, the state it
 * leaves.
 */
module Reload {
  import opened Common
  import opened KeyStore
  import opened CodecContext
  import opened Config
  import opened CodecSync

  /** A pointer to one server of one config object. */
  datatype ServerRef = ServerRef(cfg: nat, index: nat)

  datatype Listener = Listener(sock: int, boundPort: int, boundIp: string, server: Option<ServerRef>)

  /** The borrowed part of the crypto session. */
  datatype Session = Session(publicKey: Option<KeyId>, privateKey: Option<KeyId>, hmacKey: seq<byte>)

  const NO_BORROWS := Session(None, None, [])

  datatype Policy = Policy(decode: bool, auth: bool)

  /** A socket and the port it was bound to, zero when the system does not tell. */
  datatype Socket = Socket(fd: nat, port: nat)

  /** Outcomes of the calls into the outside world that one reload may make. */
  datatype Externals = Externals(
    stagedSession: bool,
    probe: Option<Socket>,
    liveSession: bool,
    bind: Option<Socket>,
    sync: SyncGrants,
    restoredSession: bool)

  /** One call of reload: the files it finds, the server asked for, and how the outside world behaves. */
  datatype Request = Request(inp: Inputs, requested: string, env: Externals)

  /** Where a reload returned. The program reports `Committed` as 1 and every other exit as 0. */
  datatype Exit =
    | Refused | LoadFailed | NoServer | SessionRejected | BindingRejected
    | SessionFailed | RebindFailed | RebuildFailed | PushRefused
    | Committed

  predicate BeforeCommit(e: Exit) {
    e == Refused || e == LoadFailed || e == NoServer || e == SessionRejected || e == BindingRejected
  }

  /** The codec sync failed: before the policy push, or because of it. */
  predicate InCodec(e: Exit) {
    e == RebuildFailed || e == PushRefused
  }

  /** The codec sync was begun. */
  predicate Reached(e: Exit) {
    InCodec(e) || e == Committed
  }

  // ---- reference counts over the config heap ----

  function CellUses(c: Option<Config>, k: KeyId): (r: nat) {
    if c.Some? then Owned(c.value, k) else 0
  }

  function CellsUse(cs: seq<Option<Config>>, k: KeyId): (r: nat) {
    if cs == [] then 0 else CellsUse(cs[..|cs| - 1], k) + CellUses(cs[|cs| - 1], k)
  }

  lemma {:induction false} CellsUseUpdate(cs: seq<Option<Config>>, i: nat, c: Option<Config>, k: KeyId)
    requires i < |cs|
    ensures CellsUse(cs[i := c], k) == CellsUse(cs, k) - CellUses(cs[i], k) + CellUses(c, k)
    ensures CellUses(cs[i], k) <= CellsUse(cs, k)
  {
    var last := |cs| - 1;
    if i == last {
      assert cs[i := c][..last] == cs[..last];
    } else {
      assert cs[i := c][..last] == cs[..last][i := c];
      CellsUseUpdate(cs[..last], i, c, k);
    }
  }

  lemma CellsUseAppend(cs: seq<Option<Config>>, c: Option<Config>, k: KeyId)
    ensures CellsUse(cs + [c], k) == CellsUse(cs, k) + CellUses(c, k)
  {
    assert (cs + [c])[..|cs|] == cs;
  }

  // ---- binding comparison ----

  /** The port the listener counts as bound to; `fallback` is its server's configured port, if it has one. */
  function BoundPort(l: Listener, fallback: Option<int>): (r: int) {
    if l.boundPort > 0 then l.boundPort else if fallback.Some? then fallback.value else 0
  }

  predicate BindingChanged(l: Listener, fallback: Option<int>, s: Server) {
    BoundPort(l, fallback) != s.port || l.boundIp != s.bindIp
  }

  predicate SamePortIpChange(l: Listener, fallback: Option<int>, s: Server) {
    BoundPort(l, fallback) == s.port && l.boundIp != s.bindIp
  }

  predicate SameBinding(l: Listener, s: Server) {
    l.sock >= 0 && l.boundPort == s.port && l.boundIp == s.bindIp
  }

  /** Whether a session can be set up for this server when the library itself cooperates. */
  predicate SessionReady(s: Server, library: bool) {
    library && (s.secure ==> s.privKey.Some?)
  }

  function SessionKey(s: Server): (r: Option<KeyId>) {
    if s.secure then s.privKey else None
  }

  function PolicyOf(s: Server): (r: Policy) {
    Policy(s.enforceDecode, s.enforceAuth)
  }

  function Rebound(l: Listener, s: Server, bound: Socket): (r: Listener) {
    l.(sock := bound.fd, boundPort := if bound.port > 0 then bound.port else s.port, boundIp := s.bindIp)
  }

  /** The listener that binding to this server leads to, when a change of binding is called for. */
  function Moved(l: Listener, s: Server, changed: bool, env: Externals): (r: Listener) {
    if changed && !SameBinding(l, s) && env.bind.Some? then Rebound(l, s, env.bind.value) else l
  }

  predicate Movable(l: Listener, s: Server, changed: bool, env: Externals) {
    !changed || SameBinding(l, s) || env.bind.Some?
  }

  // ---- plain state ----

  /** The state of the daemon without the key counts; `codec` is what the key snapshot shows, if there is one. */
  datatype State = State(
    cells: seq<Option<Config>>,
    attached: Option<nat>,
    listener: Listener,
    session: Session,
    mux: Policy,
    codec: Option<Snapshot>)

  predicate RefIn(st: State, r: ServerRef) {
    r.cfg < |st.cells| && st.cells[r.cfg].Some? && r.index < |st.cells[r.cfg].value.servers|
  }

  function ServerIn(st: State, r: ServerRef): (result: Server)
    requires RefIn(st, r)
  {
    st.cells[r.cfg].value.servers[r.index]
  }

  /** The server the listener borrows, if any. */
  function Lent(st: State): (r: Option<Server>) {
    if st.listener.server.Some? && RefIn(st, st.listener.server.value) then Some(ServerIn(st, st.listener.server.value))
    else None
  }

  function NameOf(st: State): (r: string) {
    if Lent(st).Some? then Lent(st).value.name else ""
  }

  function PortOf(st: State): (r: Option<int>) {
    if Lent(st).Some? then Some(Lent(st).value.port) else None
  }

  /** The server asked for, or by default the one in use. */
  function Target(st: State, requested: string): (r: string) {
    if requested != "" then Clip(requested, MAX_NAME) else NameOf(st)
  }

  /** The server a document offers under this name, with the default port filled in. */
  function Offered(doc: Config, name: string): (r: Option<Server>) {
    var i := ServerIndex(doc.servers, name);
    if i < |doc.servers| then
      Some(doc.servers[i].(port := if doc.servers[i].port == 0 then DEFAULT_PORT else doc.servers[i].port))
    else None
  }

  function FreedIn(cs: seq<Option<Config>>, c: Option<nat>): (r: seq<Option<Config>>) {
    if c.Some? && c.value < |cs| then cs[c.value := None] else cs
  }

  predicate Moves(b: State, s: Server) {
    BindingChanged(b.listener, PortOf(b), s)
  }

  lemma {:induction false} SameNamesSameIndex(ss: seq<Server>, ts: seq<Server>, name: string)
    requires |ss| == |ts| && forall i :: 0 <= i < |ss| ==> ss[i].name == ts[i].name
    ensures ServerIndex(ss, name) == ServerIndex(ts, name)
  {
    if ss != [] {
      SameNamesSameIndex(ss[1..], ts[1..], name);
    }
  }


  /** The server the attached config offers under this name. */
  function Previous(st: State, name: string): (r: Option<ServerRef>)
    ensures r.Some? ==> RefIn(st, r.value) && st.attached == Some(r.value.cfg)
  {
    if name != "" && st.attached.Some? && st.attached.value < |st.cells| && st.cells[st.attached.value].Some? then
      var ss := st.cells[st.attached.value].value.servers;
      if ServerIndex(ss, name) < |ss| then Some(ServerRef(st.attached.value, ServerIndex(ss, name))) else None
    else None
  }

  // ---- which exit is taken ----

  predicate Unusable(s: Option<Server>) {
    s.None? || !s.value.enabled
  }

  /** A session could be set up for the offered server once its key is loaded. */
  predicate SessionWorks(doc: Config, s: Server, library: bool) {
    library && (s.secure ==> HasKeyFile(doc, s))
  }

  /** The listener keeps its binding, or moves to another port that can be bound. */
  predicate Bindable(l: Listener, fallback: Option<int>, s: Server, probe: Option<Socket>) {
    BindingChanged(l, fallback, s) ==> !SamePortIpChange(l, fallback, s) && (SameBinding(l, s) || probe.Some?)
  }

  /** The server passes every check made before the running config is touched. */
  predicate Suitable(doc: Config, s: Option<Server>, l: Listener, fallback: Option<int>, env: Externals) {
    s.Some? && s.value.enabled && SessionWorks(doc, s.value, env.stagedSession)
      && Bindable(l, fallback, s.value, env.probe)
  }

  ghost predicate Acceptable(inp: Inputs, target: string, l: Listener, fallback: Option<int>, env: Externals)
    requires UsableInputs(inp)
  {
    Loadable(inp) && Suitable(inp.document.value, Offered(inp.document.value, target), l, fallback, env)
  }

  /** The exit of the checks, in the program's order; `Committed` stands for having passed them. */
  ghost function StageExit(inp: Inputs, target: string, l: Listener, fallback: Option<int>, env: Externals): (e: Exit)
    requires UsableInputs(inp)
    ensures e == Committed <==> Acceptable(inp, target, l, fallback, env)
    ensures e == Committed || (BeforeCommit(e) && e != Refused)
  {
    if !Loadable(inp) then LoadFailed
    else
      var s := Offered(inp.document.value, target);
      if Unusable(s) then NoServer
      else if !SessionWorks(inp.document.value, s.value, env.stagedSession) then SessionRejected
      else if !Bindable(l, fallback, s.value, env.probe) then BindingRejected
      else Committed
  }

  /** The entries there is room for in the snapshot, none while it does not exist. */
  function Room(codec: Option<Snapshot>): (r: nat) {
    if codec.Some? then codec.value.capacity else 0
  }

  /** The exit of a codec sync for a server of this name, whose key is to be installed or not. */
  function SyncExit(codec: Option<Snapshot>, us: seq<User>, name: string, installs: bool, g: SyncGrants): (e: Exit)
    ensures Reached(e)
  {
    if !((codec.Some? || g.create) && Completes(us, name, installs, g, Room(codec))) then RebuildFailed
    else if g.mux then Committed
    else PushRefused
  }

  /** The snapshot a codec sync leaves, wherever it ends. */
  function SyncedCodec(codec: Option<Snapshot>, us: seq<User>, s: Server, g: SyncGrants): (r: Option<Snapshot>) {
    if codec.Some? || g.create then Some(Rebuilt(us, s, g, Room(codec))) else None
  }

  /** The exit of what follows the swap. */
  function CommitExit(l: Listener, codec: Option<Snapshot>, us: seq<User>, s: Server, installs: bool, changed: bool,
                      env: Externals)
    : (e: Exit)
    ensures !BeforeCommit(e)
  {
    if !env.liveSession then SessionFailed
    else if !Movable(l, s, changed, env) then RebindFailed
    else SyncExit(codec, us, s.name, installs, env.sync)
  }

  /** The exit a reload takes. */
  ghost function ExitFor(b: State, q: Request): (r: Exit)
    requires UsableInputs(q.inp)
  {
    var target := Target(b, q.requested);
    if q.inp.path == "" || target == "" then Refused
    else
      var e := StageExit(q.inp, target, b.listener, PortOf(b), q.env);
      if e != Committed then e
      else
        var doc, s := q.inp.document.value, Offered(q.inp.document.value, target).value;
        CommitExit(b.listener, b.codec, doc.users, s, s.secure, Moves(b, s), q.env)
  }

  /** The exit is past the checks exactly when the document is acceptable. */
  lemma PastChecks(b: State, q: Request)
    requires UsableInputs(q.inp)
    ensures !BeforeCommit(ExitFor(b, q)) <==>
            && q.inp.path != "" && Target(b, q.requested) != ""
            && Acceptable(q.inp, Target(b, q.requested), b.listener, PortOf(b), q.env)
    ensures Acceptable(q.inp, Target(b, q.requested), b.listener, PortOf(b), q.env) ==>
              q.inp.document.Some? && Offered(q.inp.document.value, Target(b, q.requested)).Some?
  {
  }

  /** The port the listener counts as bound to: its own, or that of the server in use. */
  lemma BoundPortIs(b: State)
    ensures b.listener.boundPort > 0 ==> BoundPort(b.listener, PortOf(b)) == b.listener.boundPort
    ensures b.listener.boundPort <= 0 ==>
              BoundPort(b.listener, PortOf(b)) == if Lent(b).Some? then Lent(b).value.port else 0
  {
  }

  /** The exits before the codec sync, in the program's order, from the fields of document, listener and outcomes. */
  lemma ExitsInOrder(b: State, q: Request)
    requires UsableInputs(q.inp)
    ensures var l, env, e := b.listener, q.env, ExitFor(b, q);
            var name := if q.requested != "" then Clip(q.requested, 64)
                        else if Lent(b).Some? then Lent(b).value.name else "";
            if q.inp.path == "" || name == "" then e == Refused
            else if !Loadable(q.inp) then e == LoadFailed
            else
              var doc := q.inp.document.value;
              var i := ServerIndex(doc.servers, name);
              if i == |doc.servers| || !doc.servers[i].enabled then e == NoServer
              else
                var s := doc.servers[i];
                var port := if s.port == 0 then 50000 else s.port;
                var bound := if l.boundPort > 0 then l.boundPort else if Lent(b).Some? then Lent(b).value.port else 0;
                var same := l.sock >= 0 && l.boundPort == port && l.boundIp == s.bindIp;
                var moves := bound != port || l.boundIp != s.bindIp;
                if !env.stagedSession || (s.secure && s.keyPath == "" && doc.keyPath == "") then e == SessionRejected
                else if moves && (bound == port || !(same || env.probe.Some?)) then e == BindingRejected
                else if !env.liveSession then e == SessionFailed
                else if moves && !same && env.bind.None? then e == RebindFailed
                else e == RebuildFailed || e == PushRefused || e == Committed
  {
    hide Loadable;
    BoundPortIs(b);
  }

  // ---- what state is left ----

  /** The loaded config has the offered server under that name, with its key in place. */
  ghost predicate Offers(c: Config, doc: Config, name: string) {
    && var i := ServerIndex(c.servers, name);
    && var s := Offered(doc, name);
    && i < |c.servers| && s.Some?
    && c.servers[i] == s.value.(keyOwned := c.servers[i].keyOwned, privKey := c.servers[i].privKey)
    && (s.value.enabled && s.value.secure ==> (c.servers[i].privKey.Some? <==> HasKeyFile(doc, s.value)))
  }

  lemma SelectedIsOffered(doc: Config, c: Config, name: string)
    requires Reflects(doc, c)
    ensures ServerIndex(c.servers, name) < |c.servers| <==> Offered(doc, name).Some?
    ensures Offered(doc, name).Some? ==> Offers(c, doc, name)
  {
    SameNamesSameIndex(c.servers, doc.servers, name);
    var i := ServerIndex(c.servers, name);
    if i < |c.servers| {
      assert SameServer(doc.servers[i], c.servers[i]);
    }
  }

  /** No object on the heap owns a key that this config owns. */
  ghost predicate FreshKeys(cs: seq<Option<Config>>, c: Config) {
    forall k: KeyId :: Owned(c, k) > 0 ==> CellsUse(cs, k) == 0
  }

  /** An object that a load of this document may come to. */
  ghost predicate Built(b: State, doc: Config, c: Config) {
    Reflects(doc, c) && WellFormed(c) && FreshKeys(b.cells, c)
  }

  /** What the checks leave: a config that was staged before one failed has been destroyed. */
  function Kept(b: State, e: Exit): (r: State) {
    if e == Refused || e == LoadFailed then b else b.(cells := b.cells + [None])
  }

  /** A staged config `c` attached, its server lent, and every step up to exit `e` carried out. */
  function AdvancedTo(m: State, c: nat, target: string, changed: bool, env: Externals, e: Exit): (r: State)
    requires c < |m.cells| && m.cells[c].Some?
    requires ServerIndex(m.cells[c].value.servers, target) < |m.cells[c].value.servers|
  {
    var cfg := m.cells[c].value;
    var i := ServerIndex(cfg.servers, target);
    var s := cfg.servers[i];
    State(
      m.cells,
      Some(c),
      (if Reached(e) then Moved(m.listener, s, changed, env) else m.listener).(server := Some(ServerRef(c, i))),
      if e == SessionFailed then NO_BORROWS else NO_BORROWS.(privateKey := SessionKey(s)),
      if e == PushRefused || e == Committed then PolicyOf(s) else m.mux,
      if Reached(e) then SyncedCodec(m.codec, cfg.users, s, env.sync) else m.codec)
  }

  /** Config `c` destroyed and the previous one back, its server of this name lent again if a session can be set up. */
  function RolledBack(m: State, c: nat, previous: Option<nat>, name: string, library: bool): (r: State)
    requires c < |m.cells|
  {
    var st := m.(cells := m.cells[c := None], attached := previous, listener := m.listener.(server := None),
                 session := NO_BORROWS);
    WithServer(st, Previous(st, name), library)
  }

  function WithServer(st: State, r: Option<ServerRef>, library: bool): (result: State)
    requires r.Some? ==> RefIn(st, r.value)
  {
    if r.Some? && SessionReady(ServerIn(st, r.value), library) then
      st.(listener := st.listener.(server := r),
          session := NO_BORROWS.(privateKey := SessionKey(ServerIn(st, r.value))))
    else st
  }

  /** The new config kept and the previous one destroyed, or the other way round. */
  function SettledTo(m: State, c: nat, previous: Option<nat>, name: string, env: Externals, e: Exit): (r: State)
    requires c < |m.cells|
  {
    if e == Committed then m.(cells := FreedIn(m.cells, previous))
    else RolledBack(m, c, previous, name, env.restoredSession)
  }

  /** The server the listener had can be lent to it again. */
  predicate LentAgain(b: State, library: bool) {
    Lent(b).Some? && SessionReady(Lent(b).value, library)
  }

  /**
   * What a reload that got past its checks leaves of `b`, when it had loaded `cfg` and selected `s` of it. A commit
   * takes over everything; any other exit goes back to the old config and server, or to no server at all. Policy and
   * snapshot stay as the codec sync left them, and so does the binding.
   */
  function After(b: State, cfg: Config, target: string, env: Externals, e: Exit): (r: State)
    requires ServerIndex(cfg.servers, target) < |cfg.servers|
  {
    var i := ServerIndex(cfg.servers, target);
    var s := cfg.servers[i];
    var listener := if Reached(e) then Moved(b.listener, s, Moves(b, s), env) else b.listener;
    var mux := if e == PushRefused || e == Committed then PolicyOf(s) else b.mux;
    var codec := if Reached(e) then SyncedCodec(b.codec, cfg.users, s, env.sync) else b.codec;
    if e == Committed then
      State(
        FreedIn(b.cells, b.attached) + [Some(cfg)],
        Some(|b.cells|),
        listener.(server := Some(ServerRef(|b.cells|, i))),
        NO_BORROWS.(privateKey := SessionKey(s)),
        mux,
        codec)
    else if LentAgain(b, env.restoredSession) then
      State(
        b.cells + [None],
        b.attached,
        listener.(server := b.listener.server),
        NO_BORROWS.(privateKey := SessionKey(Lent(b).value)),
        mux,
        codec)
    else
      State(b.cells + [None], b.attached, listener.(server := None), NO_BORROWS, mux, codec)
  }

  /** One reload takes the state from `b` to `a`. */
  ghost predicate Step(b: State, q: Request, e: Exit, a: State) {
    && UsableInputs(q.inp) && e == ExitFor(b, q)
    && if BeforeCommit(e) then a == Kept(b, e)
       else exists cfg :: Built(b, q.inp.document.value, cfg) && HmacLoaded(q.inp, cfg) && Leads(b, q, e, a, cfg)
  }

  ghost predicate Leads(b: State, q: Request, e: Exit, a: State, cfg: Config) {
    && ServerIndex(cfg.servers, Target(b, q.requested)) < |cfg.servers|
    && a == After(b, cfg, Target(b, q.requested), q.env, e)
  }

  /** Past the checks, the exit is that of the commit and the state the one told from the object loaded. */
  lemma StepLeads(b: State, q: Request, e: Exit, a: State, cfg: Config)
    requires UsableInputs(q.inp) && q.inp.path != "" && Target(b, q.requested) != ""
    requires Acceptable(q.inp, Target(b, q.requested), b.listener, PortOf(b), q.env)
    requires var doc, o := q.inp.document.value, Offered(q.inp.document.value, Target(b, q.requested)).value;
             && Offers(cfg, doc, Target(b, q.requested)) && Built(b, doc, cfg) && HmacLoaded(q.inp, cfg)
             && e == CommitExit(b.listener, b.codec, doc.users, o, o.secure, Moves(b, o), q.env)
    requires a == After(b, cfg, Target(b, q.requested), q.env, e)
    ensures Step(b, q, e, a)
  {
    assert Leads(b, q, e, a, cfg);
  }

  // ---- the states between calls ----

  predicate LiveIn(st: State, c: nat) {
    c < |st.cells| && st.cells[c].Some?
  }

  /** The live config objects are exactly the attached one, if there is one. */
  ghost predicate Single(st: State) {
    && (st.attached.Some? ==> LiveIn(st, st.attached.value))
    && forall c: nat :: LiveIn(st, c) ==> st.attached == Some(c)
  }

  /** Besides, the attached config is a loaded one, and the listener borrows one of its servers or none. */
  ghost predicate Sane(st: State) {
    && Single(st)
    && (st.attached.Some? ==> WellFormed(st.cells[st.attached.value].value))
    && (st.listener.server.Some? ==>
      RefIn(st, st.listener.server.value) && st.attached == Some(st.listener.server.value.cfg))
  }

  /** Looking the previous server up again by name finds the object the listener had. */
  lemma PreviousIsLent(b: State, a: State)
    requires Sane(b) && a.attached == b.attached && a.cells == b.cells + [None]
    ensures Previous(a, NameOf(b)) == b.listener.server
  {
    if b.listener.server.Some? {
      LookupFindsItself(b.cells[b.attached.value].value.servers, b.listener.server.value.index);
    }
  }

  /** The server selected in the loaded config decides like the one the document offers. */
  lemma SelectedDecidesAlike(b: State, doc: Config, cfg: Config, target: string, s: Server, changed: bool,
                             env: Externals)
    requires Reflects(doc, cfg) && Offers(cfg, doc, target) && s == cfg.servers[ServerIndex(cfg.servers, target)]
    requires SessionReady(s, true)
    ensures var o := Offered(doc, target).value;
            && CommitExit(b.listener, b.codec, cfg.users, s, InstallsKey(s), changed, env)
               == CommitExit(b.listener, b.codec, doc.users, o, o.secure, changed, env)
            && Moves(b, s) == Moves(b, o)
  {
    SameUsersSameEnd(doc.users, cfg.users, env.sync.users, Room(b.codec), 0);
  }

  /** Attaching what was staged and then staying or going back leaves what the reload as a whole is said to leave. */
  lemma SettledIsAfter(b: State, cfg: Config, target: string, env: Externals, e: Exit)
    requires Sane(b) && !BeforeCommit(e) && ServerIndex(cfg.servers, target) < |cfg.servers|
    ensures var m := b.(cells := b.cells + [Some(cfg)]);
            var s := cfg.servers[ServerIndex(cfg.servers, target)];
            SettledTo(AdvancedTo(m, |b.cells|, target, Moves(b, s), env, e), |b.cells|, b.attached, NameOf(b), env, e)
            == After(b, cfg, target, env, e)
  {
    hide SyncedCodec, Moved, SessionReady, Moves;
    var c := |b.cells|;
    var s := cfg.servers[ServerIndex(cfg.servers, target)];
    var m := AdvancedTo(b.(cells := b.cells + [Some(cfg)]), c, target, Moves(b, s), env, e);
    if e == Committed {
      assert FreedIn(m.cells, b.attached) == FreedIn(b.cells, b.attached) + [Some(cfg)];
    } else {
      assert m.cells[c := None] == b.cells + [None];
      PreviousIsLent(b, m.(cells := m.cells[c := None], attached := b.attached));
    }
  }

  // ---- policy, key snapshot and binding belong to the server in use ----

  /** The mux applies exactly the flags stored for the server in use. */
  predicate PolicyAgrees(st: State) {
    Lent(st).Some? ==> st.mux.decode == Lent(st).value.enforceDecode && st.mux.auth == Lent(st).value.enforceAuth
  }

  /** The session borrows the private key of the server in use if that is secure, which it then has, and else none. */
  predicate SessionAgrees(st: State) {
    Lent(st).Some? ==>
      if Lent(st).value.secure then st.session.privateKey.Some? && st.session.privateKey == Lent(st).value.privKey
      else st.session.privateKey == None
  }

  /** The key snapshot shows the attached config and the server in use. */
  predicate CodecAgrees(st: State) {
    Lent(st).Some? ==>
      && st.codec.Some? && st.attached.Some? && LiveIn(st, st.attached.value)
      && Shows(st.codec.value, st.cells[st.attached.value].value.users, Lent(st).value)
  }

  /** The socket is bound as the server in use asks. */
  predicate BindingAgrees(st: State) {
    Lent(st).Some? ==>
      && st.listener.boundIp == Lent(st).value.bindIp
      && (st.listener.boundPort > 0 ==> st.listener.boundPort == Lent(st).value.port)
  }

  /**
   * The keys a codec finds in the snapshot, field by field: the private key of the server in use if it is secure and
   * has one, and for every user id the keys of the first enabled user of the attached config who has it, or nothing.
   */
  ghost predicate KeysInForce(st: State) {
    Lent(st).Some? ==>
      && st.codec.Some? && st.attached.Some? && LiveIn(st, st.attached.value)
      && var s, us, snap := Lent(st).value, st.cells[st.attached.value].value.users, st.codec.value;
      && snap.serverSecure == s.secure && snap.window == 60000
      && (if s.secure && s.privKey.Some? then
            snap.serverKey.name == Some(s.name) && snap.serverKey.privateKey == s.privKey
          else snap.serverKey.name == None && snap.serverKey.privateKey == None)
      && snap.serverKey.publicKey == None && snap.serverKey.hmac == None
      && snap.serverKey.userId == 0 && snap.serverKey.hmacLen == 0 && snap.serverKey.flags == 0
      && forall id: u32 :: UserKeysInForce(us, snap.entries, id)
  }

  ghost predicate UserKeysInForce(us: seq<User>, es: seq<KeyEntry>, id: u32) {
    var i, k := UserIndex(us, id), EntryIndex(es, id);
    && (i < |us| <==> k < |es|)
    && (i < |us| ==>
          && es[k].name == Some(us[i].name) && es[k].publicKey == us[i].pubkey && es[k].publicKey.Some?
          && es[k].privateKey == None && es[k].hmac == Some(us[i].hmacKey) && es[k].hmacLen == 32 && es[k].flags == 0)
  }

  lemma AgreementMeans(st: State)
    requires Sane(st) && CodecAgrees(st)
    ensures KeysInForce(st)
  {
    if Lent(st).Some? {
      var us := st.cells[st.attached.value].value.users;
      forall id: u32 ensures UserKeysInForce(us, Index(us), id) {
        LookupAgrees(us, id);
        if UserIndex(us, id) < |us| {
          LookupGives(us, id);
        }
      }
    }
  }

  predicate Consistent(st: State) {
    PolicyAgrees(st) && CodecAgrees(st) && BindingAgrees(st)
  }

  // ---- start-up ----

  /** The port bound is the one asked for, as far as the system tells. */
  predicate AsAsked(bound: Option<Socket>, s: Server) {
    bound.Some? ==> bound.value.port == 0 || bound.value.port == s.port
  }

  /** A daemon can be started from a loadable document with the server of this name. */
  predicate Startable(doc: Config, name: string, env: Externals) {
    && name != "" && !Unusable(Offered(doc, name))
    && var s := Offered(doc, name).value;
    && SyncExit(None, doc.users, name, InstalledBy(doc, s), env.sync) == Committed
    && env.bind.Some? && SessionWorks(doc, s, env.liveSession)
  }

  lemma StartsAlike(doc: Config, cfg: Config, name: string)
    requires Reflects(doc, cfg)
    ensures ServerIndex(cfg.servers, name) < |cfg.servers| <==> Offered(doc, name).Some?
    ensures Offered(doc, name).Some? ==>
              cfg.servers[ServerIndex(cfg.servers, name)].enabled == Offered(doc, name).value.enabled
  {
    SelectedIsOffered(doc, cfg, name);
  }

  lemma NotSelected(inp: Inputs, name: string, env: Externals)
    requires UsableInputs(inp) && !(Loadable(inp) && name != "" && !Unusable(Offered(inp.document.value, name)))
    ensures !(Loadable(inp) && Startable(inp.document.value, name, env))
  {
  }

  /** The config loaded from the document is attached, and its enabled server of this name is lent. */
  ghost predicate Attends(st: State, doc: Config, name: string) {
    && Sane(st) && st.attached.Some? && Reflects(doc, st.cells[st.attached.value].value)
    && name != "" && Previous(st, name).Some? && st.listener.server == Previous(st, name)
      && !Unusable(Offered(doc, name))
  }

  /** What a start leaves when it has got past the selection of the server. */
  lemma StartsFrom(b: State, doc: Config, name: string, env: Externals, ok: bool, e: Exit, a: State)
    requires Attends(b, doc, name) && b.codec == None && a.cells == b.cells && a.attached == b.attached
    requires var s, us := Lent(b).value, b.cells[b.attached.value].value.users;
             && e == SyncExit(None, us, s.name, InstallsKey(s), env.sync)
             && (ok <==> e == Committed && env.bind.Some? && SessionReady(s, env.liveSession))
             && (ok ==> a.listener == Rebound(b.listener, s, env.bind.value) && a.mux == PolicyOf(s)
                        && a.codec == SyncedCodec(None, us, s, env.sync))
    ensures ok <==> Startable(doc, name, env)
    ensures ok ==> Lent(a) == Lent(b) && Lent(a).value.name == name && PolicyAgrees(a) && CodecAgrees(a)
    ensures ok && AsAsked(env.bind, Lent(a).value) ==> Consistent(a)
  {
    var cfg, s := b.cells[b.attached.value].value, Lent(b).value;
    SelectedIsOffered(doc, cfg, name);
    SameUsersSameEnd(doc.users, cfg.users, env.sync.users, 0, 0);
    if ok {
      RebuiltShows(cfg.users, s, env.sync, 0);
    }
  }

  /** The server's key will be there to be installed. */
  predicate InstalledBy(doc: Config, s: Server) {
    s.secure && HasKeyFile(doc, s)
  }

  // ---- wire flags ----

  datatype WireFlag = EnforceDecode | EnforceAuth

  datatype WireReply = InvalidContext | WorkspaceUnavailable | UnsupportedKey | RefreshFailed | Done

  function FlagOf(s: Server, f: WireFlag): (r: bool) {
    if f == EnforceDecode then s.enforceDecode else s.enforceAuth
  }

  function Flagged(s: Server, f: WireFlag, v: bool): (r: Server) {
    if f == EnforceDecode then s.(enforceDecode := v) else s.(enforceAuth := v)
  }

  /** The config heap with one flag of one server set. */
  function WithFlag(cs: seq<Option<Config>>, r: ServerRef, f: WireFlag, v: bool): (result: seq<Option<Config>>)
    requires r.cfg < |cs| && cs[r.cfg].Some? && r.index < |cs[r.cfg].value.servers|
  {
    var c := cs[r.cfg].value;
    cs[r.cfg := Some(c.(servers := c.servers[r.index := Flagged(c.servers[r.index], f, v)]))]
  }

  /** A flag affects neither names nor keys. */
  lemma FlagKeepsConfig(cs: seq<Option<Config>>, r: ServerRef, f: WireFlag, v: bool)
    requires r.cfg < |cs| && cs[r.cfg].Some? && r.index < |cs[r.cfg].value.servers| && WellFormed(cs[r.cfg].value)
    ensures WellFormed(WithFlag(cs, r, f, v)[r.cfg].value)
    ensures forall k: KeyId :: CellsUse(WithFlag(cs, r, f, v), k) == CellsUse(cs, k)
    ensures forall k: KeyId :: PointsTo(cs[r.cfg].value, k) ==> PointsTo(WithFlag(cs, r, f, v)[r.cfg].value, k)
  {
    var c := cs[r.cfg].value;
    var d := WithFlag(cs, r, f, v)[r.cfg].value;
    forall k: KeyId ensures CellsUse(WithFlag(cs, r, f, v), k) == CellsUse(cs, k) {
      ServersUseUpdate(c.servers, r.index, d.servers[r.index], k);
      CellsUseUpdate(cs, r.cfg, Some(d), k);
    }
    forall i | 0 <= i < |c.servers|
      ensures d.servers[i].name == c.servers[i].name && d.servers[i].privKey == c.servers[i].privKey
    {
    }
    forall k: KeyId | PointsTo(c, k) ensures PointsTo(d, k) {
      if i :| 0 <= i < |c.servers| && c.servers[i].privKey == Some(k) {
        assert d.servers[i].privKey == Some(k);
      }
    }
  }

  /** Setting a flag and then its old value again restores the heap. */
  lemma FlagRoundTrip(cs: seq<Option<Config>>, r: ServerRef, f: WireFlag, v: bool)
    requires r.cfg < |cs| && cs[r.cfg].Some? && r.index < |cs[r.cfg].value.servers|
    ensures WithFlag(WithFlag(cs, r, f, v), r, f, FlagOf(cs[r.cfg].value.servers[r.index], f)) == cs
  {
    var c := cs[r.cfg].value;
    assert c.servers[r.index := Flagged(c.servers[r.index], f, v)][r.index := c.servers[r.index]] == c.servers;
  }

  /** What a flag change answers; the store itself cannot fail, since the server in use is found by its name. */
  function FlagReply(b: State, flag: Option<WireFlag>, first: bool): (r: WireReply) {
    if b.listener.server.None? then InvalidContext
    else if b.codec.None? then WorkspaceUnavailable
    else if flag.None? then UnsupportedKey
    else if first then Done
    else RefreshFailed
  }

  /** The state it leaves: the flag stored and its policy in force, or the old flag's policy in force, or no change. */
  function AfterFlag(b: State, flag: Option<WireFlag>, enabled: bool, reply: WireReply): (a: State) {
    if Lent(b).None? || flag.None? then b
    else if reply == Done then
      b.(cells := WithFlag(b.cells, b.listener.server.value, flag.value, enabled),
         mux := PolicyOf(Flagged(Lent(b).value, flag.value, enabled)))
    else if reply == RefreshFailed then b.(mux := PolicyOf(Lent(b).value))
    else b
  }
}
