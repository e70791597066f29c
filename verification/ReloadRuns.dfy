/** What holds over whole runs of reloads and flag changes, for every pattern of failing steps. */
module ReloadRuns {
  import opened Common
  import opened CodecContext
  import opened Config
  import opened CodecSync
  import opened Reload
  import opened Runtime

  /** What can happen to the running daemon's configuration, with the outcomes of the calls made. */
  datatype Event =
    | Reloading(q: Request)
    | Flagging(flag: Option<WireFlag>, enabled: bool, first: bool, second: bool)

  datatype Answer = Exited(exit: Exit) | Replied(reply: WireReply)

  /** One event took the state from `b` to `a`; the daemon's methods establish this for each call. */
  ghost predicate Move(b: State, ev: Event, ans: Answer, a: State) {
    match ev
    case Reloading(q) => ans.Exited? && Step(b, q, ans.exit, a)
    case Flagging(flag, enabled, first, _) =>
      ans == Replied(FlagReply(b, flag, first)) && a == AfterFlag(b, flag, enabled, ans.reply)
  }

  ghost predicate Run(sts: seq<State>, evs: seq<Event>, anss: seq<Answer>) {
    && |sts| == |evs| + 1 == |anss| + 1
    && forall i :: 0 <= i < |evs| ==> Move(sts[i], evs[i], anss[i], sts[i + 1])
  }

  ghost predicate Usable(ev: Event) {
    ev.Reloading? ==> UsableInputs(ev.q.inp)
  }

  /**
   * Any number of reloads and flag changes, each with its own failing steps: the daemon ends each one in order, with
   * every key reference accounted for and every borrowed pointer leading into the attached config. The states it goes
   * through form a run, and in each of them exactly the attached config is live.
   */
  method HandleAll(d: Daemon, evs: seq<Event>) returns (anss: seq<Answer>, ghost sts: seq<State>)
    requires d.Quiet() && forall i :: 0 <= i < |evs| ==> Usable(evs[i])
    modifies d, d.store, d.codec, if d.codec == null then {} else {d.codec.keychain}
    ensures d.Quiet() && Run(sts, evs, anss) && sts[0] == old(d.Now()) && sts[|evs|] == d.Now()
    ensures forall n: nat :: n <= |evs| ==> Sane(sts[n]) && OnlyAttached(sts[n])
    ensures old(d.attached).Some? ==> forall n: nat :: n <= |evs| ==> sts[n].attached.Some?
  {
    hide Move, Sane, OnlyAttached, Usable;
    anss, sts := [], [d.Now()];
    d.QuietIsSane();
    for i := 0 to |evs|
      invariant d.Quiet() && d.CodecFramed()
      invariant |sts| == i + 1 == |anss| + 1 && sts[0] == old(d.Now()) && sts[i] == d.Now()
      invariant forall k :: 0 <= k < i ==> Move(sts[k], evs[k], anss[k], sts[k + 1])
    {
      var ans := Handle(d, evs[i]);
      anss, sts := anss + [ans], sts + [d.Now()];
    }
    EveryState(sts, evs, anss);
  }

  method Handle(d: Daemon, ev: Event) returns (ans: Answer)
    requires d.Quiet() && Usable(ev)
    modifies d, d.store, d.codec, if d.codec == null then {} else {d.codec.keychain}
    ensures d.Quiet() && d.CodecFramed() && Move(old(d.Now()), ev, ans, d.Now())
  {
    hide Step, FlagReply, AfterFlag;
    match ev
    case Reloading(q) =>
      var e := d.ReloadConfig(q.inp, q.requested, q.env);
      ans := Exited(e);
    case Flagging(flag, enabled, first, second) =>
      var r := d.SetServerWireFlag(flag, enabled, first, second);
      ans := Replied(r);
  }

  lemma EveryState(sts: seq<State>, evs: seq<Event>, anss: seq<Answer>)
    requires Run(sts, evs, anss) && Sane(sts[0])
    ensures forall n: nat :: n <= |evs| ==> Sane(sts[n]) && OnlyAttached(sts[n])
    ensures sts[0].attached.Some? ==> forall n: nat :: n <= |evs| ==> sts[n].attached.Some?
  {
    hide Move, OnlyAttached;
    forall n: nat | n <= |evs|
      ensures Sane(sts[n]) && OnlyAttached(sts[n]) && (sts[0].attached.Some? ==> sts[n].attached.Some?)
    {
      RunKeepsSane(sts, evs, anss, n);
      RunKeepsSingle(sts, evs, anss, n);
    }
  }

  /**
   * A daemon started and then kept in service: from the first state to the last everything belongs to the server in
   * use.
   */
  method StartAndHandle(d: Daemon, inp: Inputs, name: string, env: Externals, evs: seq<Event>)
    returns (ok: bool, anss: seq<Answer>, ghost sts: seq<State>)
    requires d.Quiet() && d.attached == None && d.codec == null && d.session == NO_BORROWS
    requires UsableInputs(inp) && forall i :: 0 <= i < |evs| ==> Usable(evs[i])
    modifies d, d.store
    ensures d.Quiet() && (ok <==> Loadable(inp) && Startable(inp.document.value, name, env))
    ensures ok ==> Run(sts, evs, anss) && sts[|evs|] == d.Now() && Sane(sts[0]) && Lent(sts[0]).Some?
    ensures ok && AsAsked(env.bind, Lent(sts[0]).value) ==>
              forall n: nat :: n <= |evs| && Smooth(sts, evs, anss, 0, n) ==> Consistent(sts[n]) && KeysInForce(sts[n])
    ensures ok ==> forall n: nat :: n <= |evs| ==> SessionAgrees(sts[n])
  {
    hide Move, Sane, Loadable, Startable, Usable, OnlyAttached, PolicyAgrees, CodecAgrees, BindingAgrees, Smooth,
      AsAsked;
    hide SessionAgrees, KeysInForce;
    anss, sts := [], [d.Now()];
    ok := d.StartUp(inp, name, env);
    if ok {
      anss, sts := HandleAll(d, evs);
      forall n: nat | n <= |evs| && Consistent(sts[0]) && Smooth(sts, evs, anss, 0, n)
        ensures Consistent(sts[n]) && KeysInForce(sts[n])
      {
        RunIsConsistent(sts, evs, anss, 0, n);
        RunKeepsSane(sts, evs, anss, n);
        AgreementMeans(sts[n]);
      }
      forall n: nat | n <= |evs| ensures SessionAgrees(sts[n]) {
        RunKeepsSession(sts, evs, anss, n);
      }
    }
  }

  // ---- one step past the checks ----

  /** The object a step past the checks has loaded, and the server it selected there. */
  lemma Selection(b: State, q: Request, e: Exit, a: State) returns (cfg: Config, s: Server)
    requires Step(b, q, e, a) && !BeforeCommit(e)
    ensures Target(b, q.requested) != "" && q.inp.document.Some? && Built(b, q.inp.document.value, cfg)
    ensures HmacLoaded(q.inp, cfg)
    ensures Leads(b, q, e, a, cfg) && Offers(cfg, q.inp.document.value, Target(b, q.requested))
    ensures !Unusable(Offered(q.inp.document.value, Target(b, q.requested)))
    ensures s == cfg.servers[ServerIndex(cfg.servers, Target(b, q.requested))] && SessionReady(s, true)
    ensures e == CommitExit(b.listener, b.codec, cfg.users, s, InstallsKey(s), Moves(b, s), q.env)
  {
    hide Built, Moves, After, CommitExit, Reflects, Loadable;
    PastChecks(b, q);
    var doc, target := q.inp.document.value, Target(b, q.requested);
    cfg :| Built(b, doc, cfg) && HmacLoaded(q.inp, cfg) && Leads(b, q, e, a, cfg);
    s := cfg.servers[ServerIndex(cfg.servers, target)];
    Chosen(b, doc, cfg, target, s, q.env, e);
  }

  lemma Chosen(b: State, doc: Config, cfg: Config, target: string, s: Server, env: Externals, e: Exit)
    requires Built(b, doc, cfg) && Suitable(doc, Offered(doc, target), b.listener, PortOf(b), env)
    requires ServerIndex(cfg.servers, target) < |cfg.servers| && s == cfg.servers[ServerIndex(cfg.servers, target)]
    requires var o := Offered(doc, target).value;
             e == CommitExit(b.listener, b.codec, doc.users, o, o.secure, Moves(b, o), env)
    ensures Offers(cfg, doc, target) && SessionReady(s, true)
    ensures e == CommitExit(b.listener, b.codec, cfg.users, s, InstallsKey(s), Moves(b, s), env)
  {
    hide CommitExit, Moves;
    SelectedIsOffered(doc, cfg, target);
    SelectedDecidesAlike(b, doc, cfg, target, s, Moves(b, s), env);
  }

  // ---- ownership ----

  /** A cell emptied or added by one reload: the others are untouched, and at most the new one is filled. */
  ghost predicate CellsGrow(b: State, a: State) {
    && |b.cells| <= |a.cells| <= |b.cells| + 1
    && forall c: nat :: c < |b.cells| ==> a.cells[c] == b.cells[c] || a.cells[c].None?
  }

  /** The live objects are the attached one. */
  predicate OnlyAttached(st: State) {
    forall c: nat :: c < |st.cells| ==> (st.cells[c].Some? <==> st.attached == Some(c))
  }

  lemma StepGrows(b: State, q: Request, e: Exit, a: State)
    requires Step(b, q, e, a)
    ensures CellsGrow(b, a)
    ensures e != Committed ==> a.attached == b.attached && (forall c: nat :: c < |b.cells| ==> a.cells[c] == b.cells[c])
    ensures e != Committed && |a.cells| > |b.cells| ==> a.cells[|b.cells|].None?
    ensures e == Committed ==>
              && a.attached == Some(|b.cells|) && LiveIn(a, |b.cells|)
              && forall c: nat :: c < |b.cells| ==> a.cells[c] == FreedIn(b.cells, b.attached)[c]
  {
    hide ExitFor, Built, UsableInputs, Target, SyncedCodec, Moved, Moves;
  }

  lemma StepKeepsSingle(b: State, q: Request, e: Exit, a: State)
    requires Single(b) && Step(b, q, e, a)
    ensures Single(a) && (b.attached.Some? ==> a.attached.Some?)
    ensures |b.cells| <= |a.cells| <= |b.cells| + 1
    ensures forall c: nat :: c < |b.cells| && b.cells[c].None? ==> a.cells[c].None?
    ensures forall c: nat :: c < |b.cells| && a.attached == Some(c) ==>
              a.cells[c] == b.cells[c] && b.attached == Some(c)
  {
    hide Step;
    StepGrows(b, q, e, a);
    forall c: nat | LiveIn(a, c) ensures a.attached == Some(c) {
      if c < |b.cells| && b.cells[c].Some? {
        assert LiveIn(b, c);
      }
    }
  }

  /** A flag change touches the flags of one server of the attached config, and the policy. */
  lemma FlagKeepsShape(b: State, flag: Option<WireFlag>, enabled: bool, r: WireReply, a: State)
    requires a == AfterFlag(b, flag, enabled, r)
    ensures a.attached == b.attached && |a.cells| == |b.cells| && a.listener == b.listener && a.codec == b.codec
    ensures forall c: nat :: c < |b.cells| ==> a.cells[c].Some? == b.cells[c].Some?
    ensures forall c: nat :: c < |b.cells| && b.cells[c].Some? ==>
              Unflagged(a.cells[c].value) == Unflagged(b.cells[c].value)
    ensures r != Done ==> a.cells == b.cells
  {
    if r == Done && Lent(b).Some? && flag.Some? {
      UnflaggedSame(b.cells, b.listener.server.value, flag.value, enabled);
    }
  }

  /** The config without regard to its servers' flags. */
  function Unflagged(c: Config): (r: Config) {
    c.(servers := seq(|c.servers|, i requires 0 <= i < |c.servers| => Plain(c.servers[i])))
  }

  function Plain(s: Server): (r: Server) {
    s.(enforceDecode := false, enforceAuth := false)
  }

  lemma UnflaggedSame(cs: seq<Option<Config>>, r: ServerRef, f: WireFlag, v: bool)
    requires r.cfg < |cs| && cs[r.cfg].Some? && r.index < |cs[r.cfg].value.servers|
    ensures Unflagged(WithFlag(cs, r, f, v)[r.cfg].value) == Unflagged(cs[r.cfg].value)
  {
    var c, d := cs[r.cfg].value, WithFlag(cs, r, f, v)[r.cfg].value;
    assert Unflagged(c).servers == Unflagged(d).servers;
  }

  lemma MoveKeepsSingle(b: State, ev: Event, ans: Answer, a: State)
    requires Single(b) && Move(b, ev, ans, a)
    ensures Single(a) && (b.attached.Some? ==> a.attached.Some?) && |b.cells| <= |a.cells| <= |b.cells| + 1
    ensures forall c: nat :: c < |b.cells| && b.cells[c].None? ==> a.cells[c].None?
    ensures a.attached == if ans == Exited(Committed) then Some(|b.cells|) else b.attached
  {
    hide Step, AfterFlag, FlagReply;
    match ev
    case Reloading(q) =>
      StepKeepsSingle(b, q, ans.exit, a);
      StepGrows(b, q, ans.exit, a);
    case Flagging(flag, enabled, _, _) =>
      FlagKeepsShape(b, flag, enabled, ans.reply, a);
      assert forall c: nat :: LiveIn(a, c) <==> LiveIn(b, c);
  }

  /**
   * Exactly one config is live and attached after each call, if one was before the run; every other
   * object ever loaded has been destroyed.
   */
  lemma {:induction false} RunKeepsSingle(sts: seq<State>, evs: seq<Event>, anss: seq<Answer>, n: nat)
    requires Run(sts, evs, anss) && Single(sts[0]) && n <= |evs|
    ensures Single(sts[n]) && |sts[0].cells| <= |sts[n].cells|
    ensures sts[0].attached.Some? ==> sts[n].attached.Some?
    ensures OnlyAttached(sts[n])
  {
    hide Move;
    if n > 0 {
      RunKeepsSingle(sts, evs, anss, n - 1);
      MoveKeepsSingle(sts[n - 1], evs[n - 1], anss[n - 1], sts[n]);
    }
    forall c: nat | c < |sts[n].cells| ensures sts[n].cells[c].Some? <==> sts[n].attached == Some(c) {
      assert LiveIn(sts[n], c) <==> sts[n].cells[c].Some?;
    }
  }

  /** A destroyed object is never live, attached or destroyed again: freeing happens once per object. */
  lemma {:induction false} DestroyedStaysDestroyed(sts: seq<State>, evs: seq<Event>, anss: seq<Answer>, m: nat,
                                                   n: nat, c: nat)
    requires Run(sts, evs, anss) && Single(sts[0]) && m <= n <= |evs| && c < |sts[m].cells| && sts[m].cells[c].None?
    ensures c < |sts[n].cells| && sts[n].cells[c].None? && sts[n].attached != Some(c)
  {
    hide Move, Single;
    RunKeepsSingle(sts, evs, anss, n);
    if m < n {
      DestroyedStaysDestroyed(sts, evs, anss, m, n - 1, c);
      RunKeepsSingle(sts, evs, anss, n - 1);
      MoveKeepsSingle(sts[n - 1], evs[n - 1], anss[n - 1], sts[n]);
    }
  }

  /** The object loaded by the last committed reload among the first `n` events, or the one attached at the start. */
  function LastCommitted(sts: seq<State>, anss: seq<Answer>, n: nat): (r: Option<nat>)
    requires n <= |anss| < |sts|
  {
    if n == 0 then sts[0].attached
    else if anss[n - 1] == Exited(Committed) then Some(|sts[n - 1].cells|)
    else LastCommitted(sts, anss, n - 1)
  }

  lemma {:induction false} AttachedIsLastCommitted(sts: seq<State>, evs: seq<Event>, anss: seq<Answer>, n: nat)
    requires Run(sts, evs, anss) && Single(sts[0]) && n <= |evs|
    ensures sts[n].attached == LastCommitted(sts, anss, n)
  {
    hide Move, Single;
    if n > 0 {
      AttachedIsLastCommitted(sts, evs, anss, n - 1);
      RunKeepsSingle(sts, evs, anss, n - 1);
      MoveKeepsSingle(sts[n - 1], evs[n - 1], anss[n - 1], sts[n]);
    }
  }

  // ---- rollback ----

  /** The config in force and the server in use are the very same objects, flags apart. */
  predicate SameObjects(b: State, a: State) {
    && a.attached == b.attached && a.listener.server == b.listener.server
    && (b.attached.Some? && b.attached.value < |b.cells| && b.cells[b.attached.value].Some? ==>
          && b.attached.value < |a.cells| && a.cells[b.attached.value].Some?
          && Unflagged(a.cells[b.attached.value].value) == Unflagged(b.cells[b.attached.value].value))
    && Lent(a).Some? == Lent(b).Some?
    && (Lent(b).Some? ==> Plain(Lent(a).value) == Plain(Lent(b).value))
  }

  /** What a user of the running daemon can tell apart: the config in force and the server in use. */
  predicate SameService(b: State, a: State) {
    && a.attached == b.attached
    && (b.attached.Some? && b.attached.value < |b.cells| ==>
          b.attached.value < |a.cells| && a.cells[b.attached.value] == b.cells[b.attached.value])
    && a.listener.server == b.listener.server && Lent(a) == Lent(b)
  }

  /** The event is no commit, and a reload lets the old session be set up again. */
  predicate Failing(ev: Event, ans: Answer) {
    ans != Exited(Committed) && (ev.Reloading? ==> ev.q.env.restoredSession)
  }

  lemma FailingMoveKeeps(b: State, ev: Event, ans: Answer, a: State)
    requires Sane(b) && Move(b, ev, ans, a) && Failing(ev, ans) && LentAgain(b, true)
    ensures SameObjects(b, a) && LentAgain(a, true) && |b.cells| <= |a.cells|
    ensures ans != Replied(Done) ==> SameService(b, a)
  {
    hide Step, AfterFlag, FlagReply, Single;
    match ev
    case Reloading(q) =>
      StepGrows(b, q, ans.exit, a);
      StepKeepsBorrow(b, q, ans.exit, a);
    case Flagging(flag, enabled, _, _) =>
      FlagKeepsShape(b, flag, enabled, ans.reply, a);
      var r := b.listener.server.value;
      assert Unflagged(a.cells[r.cfg].value).servers[r.index] == Unflagged(b.cells[r.cfg].value).servers[r.index];
  }

  /**
   * However many reloads fail, and wherever they fail, the daemon goes on with the very same config object and
   * the very same server object, provided the library lets it set up the old session again. Flag changes in
   * between change the flags they set and nothing else; without any, config and server are as before.
   */
  lemma {:induction false} FailedRunKeepsService(sts: seq<State>, evs: seq<Event>, anss: seq<Answer>, n: nat)
    requires Run(sts, evs, anss) && Sane(sts[0]) && n <= |evs| && LentAgain(sts[0], true)
    requires forall i :: 0 <= i < n ==> Failing(evs[i], anss[i])
    ensures SameObjects(sts[0], sts[n]) && LentAgain(sts[n], true) && |sts[0].cells| <= |sts[n].cells|
    ensures (forall i :: 0 <= i < n ==> anss[i] != Replied(Done)) ==> SameService(sts[0], sts[n])
  {
    hide Move, LentAgain, Failing, Sane, Unflagged, Plain;
    if n > 0 {
      FailedRunKeepsService(sts, evs, anss, n - 1);
      RunKeepsSane(sts, evs, anss, n - 1);
      FailingMoveKeeps(sts[n - 1], evs[n - 1], anss[n - 1], sts[n]);
    }
  }

  lemma StepKeepsSane(b: State, q: Request, e: Exit, a: State)
    requires Sane(b) && Step(b, q, e, a)
    ensures Sane(a)
  {
    hide Step;
    StepKeepsSingle(b, q, e, a);
    StepKeepsBorrow(b, q, e, a);
  }

  lemma StepKeepsBorrow(b: State, q: Request, e: Exit, a: State)
    requires Sane(b) && Step(b, q, e, a)
    ensures a.attached.Some? && LiveIn(a, a.attached.value) ==> WellFormed(a.cells[a.attached.value].value)
    ensures a.listener.server.Some? ==>
              RefIn(a, a.listener.server.value) && a.attached == Some(a.listener.server.value.cfg)
    ensures e != Committed ==>
              || (Lent(a) == None && a.listener.server == None)
              || (Lent(a) == Lent(b) && a.listener.server == b.listener.server)
    ensures e != Committed ==>
              (Lent(a).Some? <==> Lent(b).Some? && (BeforeCommit(e) || LentAgain(b, q.env.restoredSession)))
  {
    hide ExitFor, Reflects, UsableInputs, Target, SyncedCodec, Moves, FreshKeys, WellFormed;
  }

  lemma FlagKeepsSane(b: State, flag: Option<WireFlag>, enabled: bool, r: WireReply, a: State)
    requires Sane(b) && a == AfterFlag(b, flag, enabled, r)
    ensures Sane(a)
  {
    if r == Done && Lent(b).Some? && flag.Some? {
      FlagKeepsConfig(b.cells, b.listener.server.value, flag.value, enabled);
      assert forall c: nat :: LiveIn(a, c) <==> LiveIn(b, c);
    }
  }

  lemma {:induction false} RunKeepsSane(sts: seq<State>, evs: seq<Event>, anss: seq<Answer>, n: nat)
    requires Run(sts, evs, anss) && Sane(sts[0]) && n <= |evs|
    ensures Sane(sts[n])
  {
    hide Step, AfterFlag, FlagReply, Sane;
    if n > 0 {
      RunKeepsSane(sts, evs, anss, n - 1);
      assert Move(sts[n - 1], evs[n - 1], anss[n - 1], sts[n]);
      match evs[n - 1]
      case Reloading(q) => StepKeepsSane(sts[n - 1], q, anss[n - 1].exit, sts[n]);
      case Flagging(flag, enabled, _, _) => FlagKeepsSane(sts[n - 1], flag, enabled, anss[n - 1].reply, sts[n]);
    }
  }

  // ---- agreement with the server in use ----

  /** A socket bound for the new server has the port that was asked for, as far as the system tells. */
  ghost predicate BindsAsAsked(b: State, q: Request) {
    q.inp.document.Some? && q.env.bind.Some? ==>
      var s := Offered(q.inp.document.value, Target(b, q.requested));
      s.Some? ==> AsAsked(q.env.bind, s.value)
  }

  lemma MovedAgrees(l: Listener, fallback: Option<int>, s: Server, env: Externals)
    requires Movable(l, s, BindingChanged(l, fallback, s), env)
    requires env.bind.Some? ==> env.bind.value.port == 0 || env.bind.value.port == s.port
    ensures !BindingChanged(Moved(l, s, BindingChanged(l, fallback, s), env), Some(s.port), s)
  {
  }

  /** A commit makes everything belong to the new server, whatever was the case before. */
  lemma CommitEstablishes(b: State, q: Request, a: State)
    requires Step(b, q, Committed, a)
    ensures a.attached == Some(|b.cells|) && Lent(a).Some? && Lent(a).value.name == Target(b, q.requested)
    ensures SessionAgrees(a) && a.session.publicKey == None && a.session.hmacKey == []
    ensures PolicyAgrees(a) && CodecAgrees(a) && (BindsAsAsked(b, q) ==> BindingAgrees(a))
  {
    hide Step, Built, Completes, Rebuilt, Loadable, Shows;
    var cfg, s := Selection(b, q, Committed, a);
    assert a.cells[|b.cells|] == Some(cfg);
    if BindsAsAsked(b, q) {
      MovedAgrees(b.listener, PortOf(b), s, q.env);
    }
    RebuiltShows(cfg.users, s, q.env.sync, Room(b.codec));
  }

  /** The server and the users taken over are those of the document, field by field. */
  lemma CommitTakesOver(b: State, q: Request, a: State)
    requires Step(b, q, Committed, a)
    ensures q.inp.document.Some? && a.attached == Some(|b.cells|) && LiveIn(a, |b.cells|) && Lent(a).Some?
    ensures var doc, s := q.inp.document.value, Lent(a).value;
            && (if q.requested == "" then Lent(b).Some? && s.name == Lent(b).value.name
                else if |q.requested| < 64 then s.name == q.requested else s.name == q.requested[..63])
            && exists i :: 0 <= i < |doc.servers| && TakenFrom(doc.servers, i, s)
    ensures var doc, cfg := q.inp.document.value, a.cells[|b.cells|].value;
            && |cfg.users| == |doc.users| == |q.inp.hmacFiles|
            && (forall i :: 0 <= i < |doc.users| && doc.users[i].enabled ==>
                  q.inp.hmacFiles[i] == Some(cfg.users[i].hmacKey))
            && forall i :: 0 <= i < |doc.users| ==>
                 && cfg.users[i].id == doc.users[i].id && cfg.users[i].name == doc.users[i].name
                 && cfg.users[i].enabled == doc.users[i].enabled && (doc.users[i].enabled ==> cfg.users[i].pubkey.Some?)
  {
    hide Step, Moves, SyncedCodec, Loadable, CommitExit, FreshKeys, WellFormed, Reflects, Offers, Target, TakenFrom;
    var cfg, s := Selection(b, q, Committed, a);
    assert a.cells[|b.cells|] == Some(cfg) && Lent(a) == Some(s);
    TargetIs(b, q.requested);
    OfferedIsTaken(q.inp.document.value, cfg, Target(b, q.requested), s);
    SameUsers(q.inp.document.value, cfg);
  }

  lemma TargetIs(b: State, requested: string)
    ensures requested == "" && Target(b, requested) != "" ==>
              Lent(b).Some? && Target(b, requested) == Lent(b).value.name
    ensures requested != "" ==>
              Target(b, requested) == if |requested| < 64 then requested else requested[..63]
  {
  }

  lemma OfferedIsTaken(doc: Config, cfg: Config, target: string, s: Server)
    requires Offers(cfg, doc, target) && !Unusable(Offered(doc, target))
               && s == cfg.servers[ServerIndex(cfg.servers, target)]
    ensures exists i :: 0 <= i < |doc.servers| && TakenFrom(doc.servers, i, s)
    ensures s.name == target
  {
    assert TakenFrom(doc.servers, ServerIndex(doc.servers, target), s);
  }

  lemma SameUsers(doc: Config, cfg: Config)
    requires Reflects(doc, cfg)
    ensures |cfg.users| == |doc.users|
    ensures forall i :: 0 <= i < |doc.users| ==>
              && cfg.users[i].id == doc.users[i].id && cfg.users[i].name == doc.users[i].name
              && cfg.users[i].enabled == doc.users[i].enabled && (doc.users[i].enabled ==> cfg.users[i].pubkey.Some?)
  {
    assert forall i :: 0 <= i < |doc.users| ==> SameUser(doc.users[i], cfg.users[i]);
  }

  /** The server is the enabled one at this place of the document, the first of its name, with its port filled in. */
  predicate TakenFrom(ss: seq<Server>, i: nat, s: Server)
    requires i < |ss|
  {
    && ss[i].enabled && s.enabled && s.name == ss[i].name && (forall j :: 0 <= j < i ==> ss[j].name != s.name)
    && s.bindIp == ss[i].bindIp && s.port == (if ss[i].port == 0 then 50000 else ss[i].port)
    && s.keyPath == ss[i].keyPath && s.secure == ss[i].secure
    && s.enforceDecode == ss[i].enforceDecode && s.enforceAuth == ss[i].enforceAuth
  }

  /**
   * Past the checks the session is set anew, whatever happens: it borrows the key of the server in use, the new one or
   * the old one lent again, and nothing else; with no server in use it borrows nothing.
   */
  lemma StepSetsSession(b: State, q: Request, e: Exit, a: State)
    requires Step(b, q, e, a)
    ensures BeforeCommit(e) ==> a.session == b.session && a.listener == b.listener
    ensures !BeforeCommit(e) ==> SessionAgrees(a) && a.session.publicKey == None && a.session.hmacKey == []
    ensures !BeforeCommit(e) && a.listener.server == None ==> a.session.privateKey == None
  {
    hide Step, Built, Completes, Rebuilt, Loadable, Shows, Moves, SyncedCodec;
    if e == Committed {
      CommitEstablishes(b, q, a);
    } else {
      RollbackSetsSession(b, q, e, a);
    }
  }

  lemma RollbackSetsSession(b: State, q: Request, e: Exit, a: State)
    requires Step(b, q, e, a) && e != Committed
    ensures BeforeCommit(e) ==> a.session == b.session && a.listener == b.listener
    ensures !BeforeCommit(e) ==> SessionAgrees(a) && a.session.publicKey == None && a.session.hmacKey == []
    ensures !BeforeCommit(e) && a.listener.server == None ==> a.session.privateKey == None
  {
    hide ExitFor, Built, UsableInputs, Target, SyncedCodec, Moves, Moved;
  }

  /** What each exit past the checks makes of the socket. */
  lemma StepMovesSocket(b: State, q: Request, e: Exit, a: State)
    requires Step(b, q, e, a) && !BeforeCommit(e)
    ensures q.inp.document.Some? && Offered(q.inp.document.value, Target(b, q.requested)).Some?
    ensures var l, s := b.listener, Offered(q.inp.document.value, Target(b, q.requested)).value;
            var bound := if l.boundPort > 0 then l.boundPort else if Lent(b).Some? then Lent(b).value.port else 0;
            var stays := (bound == s.port && l.boundIp == s.bindIp)
              || (l.sock >= 0 && l.boundPort == s.port && l.boundIp == s.bindIp);
            if e == SessionFailed || e == RebindFailed || stays then
              a.listener.sock == l.sock && a.listener.boundPort == l.boundPort && a.listener.boundIp == l.boundIp
            else
              && q.env.bind.Some? && a.listener.sock == q.env.bind.value.fd && a.listener.boundIp == s.bindIp
              && a.listener.boundPort == if q.env.bind.value.port > 0 then q.env.bind.value.port else s.port
  {
    hide Step, Built, Completes, Rebuilt, Loadable, Shows, SyncedCodec, SyncExit;
    var cfg, s := Selection(b, q, e, a);
    BoundPortIs(b);
  }

  /** Over every run the session borrows the private key of the server in use, however the reloads end. */
  lemma {:induction false} RunKeepsSession(sts: seq<State>, evs: seq<Event>, anss: seq<Answer>, n: nat)
    requires Run(sts, evs, anss) && Sane(sts[0]) && n <= |evs| && SessionAgrees(sts[0])
    ensures SessionAgrees(sts[n])
  {
    hide Step, AfterFlag, FlagReply, Sane, SessionAgrees;
    if n > 0 {
      RunKeepsSession(sts, evs, anss, n - 1);
      RunKeepsSane(sts, evs, anss, n - 1);
      MoveKeepsSession(sts[n - 1], evs[n - 1], anss[n - 1], sts[n]);
    }
  }

  lemma MoveKeepsSession(b: State, ev: Event, ans: Answer, a: State)
    requires Move(b, ev, ans, a) && Sane(b) && SessionAgrees(b)
    ensures SessionAgrees(a)
  {
    hide Step, FlagReply;
    match ev
    case Reloading(q) =>
      StepSetsSession(b, q, ans.exit, a);
      if BeforeCommit(ans.exit) {
        StepGrows(b, q, ans.exit, a);
      }
    case Flagging(flag, enabled, _, _) =>
      FlagOnLent(b, flag, enabled, ans.reply, a);
  }

  /** Every exit but a codec failure keeps what agreed. */
  lemma StepKeepsConsistent(b: State, q: Request, e: Exit, a: State)
    requires Sane(b) && Step(b, q, e, a) && !InCodec(e)
    ensures PolicyAgrees(b) || e == Committed ==> PolicyAgrees(a)
    ensures CodecAgrees(b) || e == Committed ==> CodecAgrees(a)
    ensures (BindingAgrees(b) && e != Committed) || (e == Committed && BindsAsAsked(b, q)) ==> BindingAgrees(a)
  {
    hide ExitFor, Built, UsableInputs, Target, Shows, SyncedCodec, Moves, BindsAsAsked;
    if e == Committed {
      CommitEstablishes(b, q, a);
    }
  }

  /** A flag change, pushed or refused, sets the policy right and keeps key snapshot and binding as they agreed. */
  lemma FlagKeepsConsistent(b: State, flag: Option<WireFlag>, enabled: bool, r: WireReply, a: State)
    requires Sane(b) && a == AfterFlag(b, flag, enabled, r)
    ensures PolicyAgrees(b) || (flag.Some? && (r == Done || r == RefreshFailed)) ==> PolicyAgrees(a)
    ensures (CodecAgrees(a) <==> CodecAgrees(b)) && (BindingAgrees(a) <==> BindingAgrees(b))
  {
    FlagKeepsShape(b, flag, enabled, r, a);
    FlagOnLent(b, flag, enabled, r, a);
    hide AfterFlag, Lent, Shows, Unflagged;
  }

  /** The server in use has the flag then, and is as before but for it. */
  lemma FlagOnLent(b: State, flag: Option<WireFlag>, enabled: bool, r: WireReply, a: State)
    requires Sane(b) && a == AfterFlag(b, flag, enabled, r)
    ensures Lent(a).Some? == Lent(b).Some?
    ensures Lent(b).Some? ==>
              && Lent(a).value == (if r == Done && flag.Some? then Flagged(Lent(b).value, flag.value, enabled)
                                   else Lent(b).value)
              && (flag.Some? && (r == Done || r == RefreshFailed) ==>
                    a.mux.decode == Lent(a).value.enforceDecode && a.mux.auth == Lent(a).value.enforceAuth)
              && Lent(a).value.secure == Lent(b).value.secure && Lent(a).value.privKey == Lent(b).value.privKey
              && a.session == b.session
              && (!(flag.Some? && (r == Done || r == RefreshFailed)) ==> a == b)
              && LiveIn(a, b.attached.value) && LiveIn(b, b.attached.value)
              && a.cells[b.attached.value].value.users == b.cells[b.attached.value].value.users
              && forall snap: Snapshot, us: seq<User> ::
                   Shows(snap, us, Lent(a).value) == Shows(snap, us, Lent(b).value)
  {
  }

  /** The codec sync of the reload does not fail, and the system binds as asked. */
  ghost predicate Clean(b: State, ev: Event, ans: Answer) {
    match ev
    case Reloading(q) => ans.Exited? && !InCodec(ans.exit) && BindsAsAsked(b, q)
    case Flagging(_, _, _, _) => true
  }

  ghost predicate Smooth(sts: seq<State>, evs: seq<Event>, anss: seq<Answer>, m: nat, n: nat)
    requires n <= |evs| == |anss| < |sts|
  {
    forall i :: m <= i < n ==> Clean(sts[i], evs[i], anss[i])
  }

  lemma MoveKeepsConsistent(b: State, ev: Event, ans: Answer, a: State)
    requires Sane(b) && Move(b, ev, ans, a) && Clean(b, ev, ans) && (Consistent(b) || ans == Exited(Committed))
    ensures Consistent(a)
  {
    hide Step, AfterFlag, FlagReply, PolicyAgrees, CodecAgrees, BindingAgrees, BindsAsAsked, Sane;
    match ev
    case Reloading(q) => StepKeepsConsistent(b, q, ans.exit, a);
    case Flagging(flag, enabled, _, _) => FlagKeepsConsistent(b, flag, enabled, ans.reply, a);
  }

  /**
   * From a consistent state, or from any commit on, everything goes on belonging to the server in use as long as
   * no codec sync fails, whatever else does.
   */
  lemma {:induction false} RunIsConsistent(sts: seq<State>, evs: seq<Event>, anss: seq<Answer>, m: nat, n: nat)
    requires Run(sts, evs, anss) && Sane(sts[0]) && m <= n <= |evs|
    requires Consistent(sts[m])
               || (m > 0 && anss[m - 1] == Exited(Committed) && Clean(sts[m - 1], evs[m - 1], anss[m - 1]))
    requires Smooth(sts, evs, anss, m, n)
    ensures Consistent(sts[n])
  {
    hide Move, Consistent, Clean, Sane;
    if m < n {
      RunIsConsistent(sts, evs, anss, m, n - 1);
    }
    if n > 0 && (m < n || !Consistent(sts[n])) {
      RunKeepsSane(sts, evs, anss, n - 1);
      MoveKeepsConsistent(sts[n - 1], evs[n - 1], anss[n - 1], sts[n]);
    }
  }

  // ---- where rollback is not complete: the policy ----

  /**
   * Exactly one exit breaks the policy: the push was refused after the mux had taken the new policy over, the old
   * server is in use again, and it asks for another one. What is in force then is the policy of the server offered.
   */
  lemma StepKeepsPolicy(b: State, q: Request, e: Exit, a: State)
    requires Sane(b) && Step(b, q, e, a) && PolicyAgrees(b)
    ensures !PolicyAgrees(a) <==>
            && e == PushRefused && LentAgain(b, q.env.restoredSession)
            && var o, s := Offered(q.inp.document.value, Target(b, q.requested)).value, Lent(b).value;
            && (o.enforceDecode != s.enforceDecode || o.enforceAuth != s.enforceAuth)
    ensures e == PushRefused ==>
              var o := Offered(q.inp.document.value, Target(b, q.requested)).value;
              a.mux.decode == o.enforceDecode && a.mux.auth == o.enforceAuth
    ensures e != PushRefused && e != Committed ==> a.mux == b.mux
  {
    hide ExitFor, Reflects, UsableInputs, SyncedCodec, Moves, FreshKeys, WellFormed, Completes, Rebuilt, Target;
    StepKeepsBorrow(b, q, e, a);
    if e == Committed {
      CommitEstablishes(b, q, a);
    } else if !BeforeCommit(e) {
      var cfg, s := Selection(b, q, e, a);
      assert PolicyOf(s) == PolicyOf(Offered(q.inp.document.value, Target(b, q.requested)).value);
    }
  }

  /** Over runs without a refused push of a reload the policy in force is the server's own, failed rebuilds included. */
  lemma {:induction false} RunKeepsPolicy(sts: seq<State>, evs: seq<Event>, anss: seq<Answer>, n: nat)
    requires Run(sts, evs, anss) && Sane(sts[0]) && n <= |evs| && PolicyAgrees(sts[0])
    requires forall i :: 0 <= i < n ==> anss[i] != Exited(PushRefused)
    ensures PolicyAgrees(sts[n])
  {
    hide Step, AfterFlag, FlagReply, Sane, PolicyAgrees;
    if n > 0 {
      RunKeepsPolicy(sts, evs, anss, n - 1);
      RunKeepsSane(sts, evs, anss, n - 1);
      assert Move(sts[n - 1], evs[n - 1], anss[n - 1], sts[n]);
      match evs[n - 1]
      case Reloading(q) => StepKeepsPolicy(sts[n - 1], q, anss[n - 1].exit, sts[n]);
      case Flagging(flag, enabled, _, _) => FlagKeepsConsistent(sts[n - 1], flag, enabled, anss[n - 1].reply, sts[n]);
    }
  }

  // ---- where rollback is not complete: the key snapshot ----

  /** How many users of the document a failed sync got to. */
  function UsersReached(b: State, q: Request, doc: Config, o: Server): (n: nat)
    ensures n <= |doc.users|
  {
    if KeyRefused(o.secure, o.name, q.env.sync.server) then 0
    else TakenOver(doc.users, q.env.sync.users, Room(b.codec), 0)
  }

  /**
   * The snapshot a codec failure leaves: the keys of a config that has been destroyed, up to the user at which it
   * stopped. If it was the push that was refused, it shows all of that config and its server.
   */
  lemma CodecFailureLeavesNewKeys(b: State, q: Request, e: Exit, a: State) returns (cfg: Config, s: Server)
    requires Step(b, q, e, a) && InCodec(e)
    ensures q.inp.document.Some? && Built(b, q.inp.document.value, cfg)
              && Offers(cfg, q.inp.document.value, Target(b, q.requested))
    ensures s == cfg.servers[ServerIndex(cfg.servers, Target(b, q.requested))] && SessionReady(s, true)
    ensures a.codec.Some? <==> b.codec.Some? || q.env.sync.create
    ensures a.codec.Some? ==>
              var o := Offered(q.inp.document.value, Target(b, q.requested)).value;
              var n := UsersReached(b, q, q.inp.document.value, o);
              && n <= |cfg.users| && a.codec.value.entries == Index(cfg.users[..n])
              && a.codec.value.serverKey ==
                (if KeyRefused(o.secure, o.name, q.env.sync.server) then EMPTY else KeyOf(s))
              && a.codec.value.serverSecure == s.secure == o.secure && a.codec.value.window == WINDOW_MS
    ensures e == PushRefused ==> a.codec.Some? && Shows(a.codec.value, cfg.users, s)
  {
    hide ExitFor, Reflects, UsableInputs, Moves, FreshKeys, WellFormed, Loadable, Step, TakenOver;
    cfg, s := Selection(b, q, e, a);
    SameEnd(b, q, cfg);
    if e == PushRefused {
      RebuiltShows(cfg.users, s, q.env.sync, Room(b.codec));
    }
    assert cfg.users[..0] == [];
  }

  lemma SameEnd(b: State, q: Request, cfg: Config)
    requires q.inp.document.Some? && Reflects(q.inp.document.value, cfg)
    ensures TakenOver(q.inp.document.value.users, q.env.sync.users, Room(b.codec), 0)
            == TakenOver(cfg.users, q.env.sync.users, Room(b.codec), 0)
  {
    SameUsersSameEnd(q.inp.document.value.users, cfg.users, q.env.sync.users, Room(b.codec), 0);
  }

  /** Once a push was refused, the codec knows exactly the users of the document that was not taken over. */
  lemma RefusedPushKnowsNewUsers(b: State, q: Request, a: State, id: u32)
    requires Step(b, q, PushRefused, a)
    ensures var us := q.inp.document.value.users;
            a.codec.Some?
              && (EntryIndex(a.codec.value.entries, id) < |a.codec.value.entries| <==> UserIndex(us, id) < |us|)
  {
    hide Step, Reflects, WellFormed, FreshKeys, Index;
    var cfg, s := CodecFailureLeavesNewKeys(b, q, PushRefused, a);
    LookupAgrees(cfg.users, id);
    SameIdsFound(q.inp.document.value, cfg, id);
  }

  lemma SameIdsFound(doc: Config, cfg: Config, id: u32)
    requires Reflects(doc, cfg)
    ensures |doc.users| == |cfg.users| && UserIndex(doc.users, id) == UserIndex(cfg.users, id)
  {
    var i, j := UserIndex(doc.users, id), UserIndex(cfg.users, id);
    assert forall k :: 0 <= k < |doc.users| ==> SameUser(doc.users[k], cfg.users[k]);
    assert i < |doc.users| ==> SameUser(doc.users[i], cfg.users[i]);
    assert j < |doc.users| ==> SameUser(doc.users[j], cfg.users[j]);
  }

  predicate NoneEnabled(us: seq<User>) {
    forall i :: 0 <= i < |us| ==> !us[i].enabled
  }

  lemma {:induction false} EmptyIndex(us: seq<User>)
    ensures Index(us) == [] <==> NoneEnabled(us)
  {
    if us != [] {
      EmptyIndex(us[1..]);
      assert NoneEnabled(us) <==> !us[0].enabled && NoneEnabled(us[1..]) by {
        assert us == [us[0]] + us[1..];
      }
    }
  }

  /** Two configs without a key in common have the same index only when both indexes are empty. */
  lemma DisjointIndexes(cs: seq<Option<Config>>, i: nat, cfg: Config, n: nat)
    requires i < |cs| && cs[i].Some? && WellFormed(cs[i].value) && WellFormed(cfg) && FreshKeys(cs, cfg)
               && n <= |cfg.users|
    ensures Index(cs[i].value.users) == Index(cfg.users[..n]) ==>
              NoneEnabled(cs[i].value.users) && NoneEnabled(cfg.users[..n])
  {
    var us, vs := cs[i].value.users, cfg.users[..n];
    EmptyIndex(us);
    EmptyIndex(vs);
    if Index(us) == Index(vs) && Index(us) != [] {
      IndexMembers(us);
      IndexMembers(vs);
      var e := Index(us)[0];
      assert e in Index(us) && e in Index(vs);
      var x :| 0 <= x < |us| && us[x].enabled && e == EntryOf(us[x]);
      var y :| 0 <= y < |vs| && vs[y].enabled && e == EntryOf(vs[y]);
      assert vs[y] == cfg.users[y];
      NoSharedKey(cs, i, cfg, us[x].pubkey.value);
      assert PointsTo(cfg, us[x].pubkey.value);
    }
  }

  /** A key of a config on the heap is none of a freshly loaded one. */
  lemma NoSharedKey(cs: seq<Option<Config>>, i: nat, cfg: Config, k: nat)
    requires i < |cs| && cs[i].Some? && WellFormed(cs[i].value) && WellFormed(cfg) && FreshKeys(cs, cfg)
    ensures !(PointsTo(cs[i].value, k) && PointsTo(cfg, k))
  {
    if PointsTo(cs[i].value, k) && PointsTo(cfg, k) {
      PointedIsOwned(cs[i].value, k);
      PointedIsOwned(cfg, k);
      CellsUseUpdate(cs, i, None, k);
    }
  }

  /**
   * After a codec failure with the old server in use again, the snapshot shows it and the attached config exactly
   * when there was nothing to show: no server key on either side, no enabled user in the old config, and none in
   * the new one before the sync stopped. Keys loaded anew are never the old ones.
   */
  lemma CodecFailureAgreesExactly(b: State, q: Request, e: Exit, a: State)
    requires Sane(b) && Step(b, q, e, a) && InCodec(e) && LentAgain(b, q.env.restoredSession)
    ensures var doc, o := q.inp.document.value, Offered(q.inp.document.value, Target(b, q.requested)).value;
            var n := UsersReached(b, q, doc, o);
            CodecAgrees(a) <==>
                  && (b.codec.Some? || q.env.sync.create) && !o.secure && !Lent(b).value.secure
                  && NoneEnabled(b.cells[b.attached.value].value.users) && NoneEnabled(doc.users[..n])
  {
    hide Step, ExitFor, UsableInputs, Moves, FreshKeys, WellFormed, UsersReached, Reflects;
    var cfg, s := CodecFailureLeavesNewKeys(b, q, e, a);
    RestoredWhenReady(b, q, e, a);
    if a.codec.Some? {
      var doc := q.inp.document.value;
      var n := UsersReached(b, q, doc, Offered(doc, Target(b, q.requested)).value);
      SameEnabled(doc, cfg, n);
      DisjointIndexes(b.cells, b.attached.value, cfg, n);
      EmptyIndex(b.cells[b.attached.value].value.users);
      EmptyIndex(cfg.users[..n]);
      assert a.codec.value.entries == Index(cfg.users[..n]);
      DisjointServerKeys(b.cells, b.attached.value, cfg, b.listener.server.value.index,
                         ServerIndex(cfg.servers, Target(b, q.requested)));
    }
  }

  /** After a codec failure with the old server in use again, config and server are the old ones. */
  lemma RestoredWhenReady(b: State, q: Request, e: Exit, a: State)
    requires Sane(b) && Step(b, q, e, a) && InCodec(e) && LentAgain(b, q.env.restoredSession)
    ensures a.attached == b.attached && a.cells == b.cells + [None] && Lent(a) == Lent(b)
    ensures q.inp.document.Some? && Offered(q.inp.document.value, Target(b, q.requested)).Some?
  {
    hide Reflects, UsableInputs, SyncedCodec, Moved, Moves, FreshKeys, WellFormed, Completes;
  }

  lemma SameEnabled(doc: Config, cfg: Config, n: nat)
    requires Reflects(doc, cfg) && n <= |cfg.users|
    ensures |doc.users| == |cfg.users| && (NoneEnabled(doc.users[..n]) <==> NoneEnabled(cfg.users[..n]))
  {
    forall i | 0 <= i < n ensures doc.users[..n][i].enabled == cfg.users[..n][i].enabled {
      assert SameUser(doc.users[i], cfg.users[i]);
    }
  }

  lemma DisjointServerKeys(cs: seq<Option<Config>>, i: nat, cfg: Config, x: nat, y: nat)
    requires i < |cs| && cs[i].Some? && WellFormed(cs[i].value) && WellFormed(cfg) && FreshKeys(cs, cfg)
    requires x < |cs[i].value.servers| && y < |cfg.servers|
    ensures KeyOf(cs[i].value.servers[x]) == KeyOf(cfg.servers[y]) ==>
              !InstallsKey(cs[i].value.servers[x]) && !InstallsKey(cfg.servers[y])
  {
    if InstallsKey(cs[i].value.servers[x]) && InstallsKey(cfg.servers[y]) {
      NoSharedKey(cs, i, cfg, cs[i].value.servers[x].privKey.value);
    }
  }

  // ---- where rollback is not complete: the socket ----

  /**
   * A codec failure puts config, server and session back but not the socket: when the new server had asked for another
   * binding, the binding agrees with the server in use afterwards exactly if the two ask for the same one after all
   * (as they can if it disagreed before); otherwise exactly if it did before.
   */
  lemma CodecFailureKeepsNewBinding(b: State, q: Request, e: Exit, a: State, s: Server)
    requires Sane(b) && Step(b, q, e, a) && InCodec(e) && LentAgain(b, q.env.restoredSession)
    requires Offered(q.inp.document.value, Target(b, q.requested)) == Some(s) && BindsAsAsked(b, q)
    ensures Lent(a) == Lent(b)
    ensures BindingAgrees(a) <==>
            if Moves(b, s) then (s.port > 0 ==> s.port == Lent(b).value.port) && s.bindIp == Lent(b).value.bindIp
            else BindingAgrees(b)
  {
    hide Step, Reflects, UsableInputs, SyncedCodec, FreshKeys, WellFormed, Completes, Loadable;
    RestoredWhenReady(b, q, e, a);
    var cfg, t := Selection(b, q, e, a);
  }

  // ---- when a reload commits ----

  /** A config whose enabled users share a name, or have none, passes every check and yet never commits. */
  lemma UnindexableNeverCommits(b: State, q: Request, e: Exit, a: State)
    requires Step(b, q, e, a) && q.inp.document.Some? && !Indexable(q.inp.document.value.users)
    ensures e != Committed && e != PushRefused && a.attached == b.attached && a.mux == b.mux
    ensures (&& q.inp.path != "" && Target(b, q.requested) != ""
             && Acceptable(q.inp, Target(b, q.requested), b.listener, PortOf(b), q.env)
             && q.env.liveSession && q.env.bind.Some?) ==> e == RebuildFailed
  {
    hide Reflects, UsableInputs, FreshKeys, WellFormed, Acceptable, SyncedCodec, Moves;
    PastChecks(b, q);
    CompletesExactly(q.inp.document.value.users, q.env.sync.users, Room(b.codec));
  }

  /** Exactly when a reload commits: the checks pass, and every call that is really made after them is granted. */
  lemma CommitsExactly(b: State, q: Request)
    requires UsableInputs(q.inp)
    ensures ExitFor(b, q) == Committed <==>
            && q.inp.path != "" && Target(b, q.requested) != ""
            && Acceptable(q.inp, Target(b, q.requested), b.listener, PortOf(b), q.env)
            && var doc, o := q.inp.document.value, Offered(q.inp.document.value, Target(b, q.requested)).value;
            && var g := q.env.sync;
            && q.env.liveSession && (Moves(b, o) ==> SameBinding(b.listener, o) || q.env.bind.Some?)
            && (b.codec.Some? || g.create) && (o.secure ==> KeyGranted(g.server))
            && Indexable(doc.users)
            && (forall i :: 0 <= i < |doc.users| && doc.users[i].enabled ==>
                  Roomy(doc.users, g.users, Room(b.codec), i) && CopyGranted(g.users(i).copy))
            && g.mux
  {
    hide Loadable, UsableInputs, Bindable, SessionWorks, Moves, KeyGranted, CopyGranted, Roomy, Indexable;
    PastChecks(b, q);
    if q.inp.path != "" && Target(b, q.requested) != ""
      && Acceptable(q.inp, Target(b, q.requested), b.listener, PortOf(b), q.env) {
      CompletesExactly(q.inp.document.value.users, q.env.sync.users, Room(b.codec));
      assert Offered(q.inp.document.value, Target(b, q.requested)).value.name == Target(b, q.requested);
    }
  }

  // ---- inputs at which the rollback is seen to be incomplete ----

  function Account(name: string, key: Option<nat>): (r: User) {
    User(1, name, true, key, Zeros(32))
  }

  function Site(port: int, auth: bool): (r: Server) {
    Server("main", "", port, "", true, false, false, None, true, auth)
  }

  const OLD := Config("", None, [Account("ann", Some(0))], [Site(7000, false)])

  /** A daemon in service: one user, one server on port 7000, everything in agreement. */
  const IN_SERVICE := State(
    [Some(OLD)], Some(0), Listener(3, 7000, "", Some(ServerRef(0, 0))), NO_BORROWS, Policy(true, false),
    Some(Snapshot([EntryOf(OLD.users[0])], EMPTY, false, WINDOW_MS, 4)))

  /** The document with every key file in order, and everything granted but perhaps the policy push. */
  function Reading(doc: Config, mux: bool): (r: Request) {
    Request(
      Inputs("conf", Some(doc), true, true, Unreadable, seq(|doc.users|, i => Rsa), [Unreadable],
             seq(|doc.users|, i => Some(Zeros(32)))),
      "",
      Externals(true, Some(Socket(4, 0)), true, Some(Socket(4, 0)),
                SyncGrants(true, ALL_COPY, (i: nat) => ALL_ADD, mux), true))
  }

  /** The document for the daemon in service to read: the users named, and its server on this port with this flag. */
  function Draft(names: seq<string>, port: int, auth: bool): (r: Config) {
    Config("", None, seq(|names|, i requires 0 <= i < |names| => Account(names[i], None)), [Site(port, auth)])
  }

  lemma InServiceIsConsistent()
    ensures Sane(IN_SERVICE) && Consistent(IN_SERVICE) && NameOf(IN_SERVICE) == "main"
              && Target(IN_SERVICE, "") == "main"
    ensures LentAgain(IN_SERVICE, true)
  {
    assert ServerIndex(OLD.servers, "main") == 0;
    assert Index(OLD.users) == [EntryOf(OLD.users[0])] by {
      assert OLD.users[1..] == [];
    }
  }

  /** Every check passes for a document with server "main" on port 7000 or another port that can be bound. */
  lemma DraftIsAcceptable(names: seq<string>, port: int, auth: bool, mux: bool)
    requires port > 0
    ensures var q := Reading(Draft(names, port, auth), mux);
            && UsableInputs(q.inp) && Loadable(q.inp) && Offered(q.inp.document.value, "main") == Some(Site(port, auth))
            && Acceptable(q.inp, "main", IN_SERVICE.listener, PortOf(IN_SERVICE), q.env)
  {
    var doc := Draft(names, port, auth);
    assert doc.servers[0].name == "main";
    assert ServerIndex(doc.servers, "main") == 0;
  }

  /** The draft loaded, with keys numbered from one on. */
  function Loaded(names: seq<string>, port: int, auth: bool): (r: Config) {
    Config("", None, seq(|names|, i requires 0 <= i < |names| => Account(names[i], Some(i + 1))), [Site(port, auth)])
  }

  lemma LoadedIsBuilt(names: seq<string>, port: int, auth: bool)
    requires port > 0
    ensures Built(IN_SERVICE, Draft(names, port, auth), Loaded(names, port, auth))
    ensures HmacLoaded(Reading(Draft(names, port, auth), true).inp, Loaded(names, port, auth))
    ensures HmacLoaded(Reading(Draft(names, port, auth), false).inp, Loaded(names, port, auth))
  {
    var cfg := Loaded(names, port, auth);
    forall k: nat | Owned(cfg, k) > 0 ensures CellsUse(IN_SERVICE.cells, k) == 0 {
      ServersUseBlank(cfg.servers, k);
      ServersUseBlank(OLD.servers, k);
      if k == 0 {
        NotUsed(cfg.users, 0);
      } else {
        NotUsed(OLD.users, k);
      }
      assert IN_SERVICE.cells[..|IN_SERVICE.cells| - 1] == [];
      assert CellsUse(IN_SERVICE.cells, k) == CellUses(Some(OLD), k);
    }
  }

  lemma {:induction false} NotUsed(us: seq<User>, k: nat)
    requires forall i :: 0 <= i < |us| ==> us[i].pubkey != Some(k)
    ensures UsersUse(us, k) == 0
  {
    if us != [] {
      NotUsed(us[..|us| - 1], k);
    }
  }

  /** Reading a draft gets to the codec sync; how that ends depends on the names and on the push alone. */
  lemma DraftStep(names: seq<string>, port: int, auth: bool, mux: bool, e: Exit)
    requires port > 0
    requires var us := Draft(names, port, auth).users;
             e == if !Indexable(us) then RebuildFailed else if mux then Committed else PushRefused
    ensures var q, cfg := Reading(Draft(names, port, auth), mux), Loaded(names, port, auth);
            && ServerIndex(cfg.servers, "main") == 0
            && Step(IN_SERVICE, q, e, After(IN_SERVICE, cfg, "main", q.env, e))
  {
    hide Acceptable, Indexable, Built, After, UsableInputs, Loadable;
    var q, cfg := Reading(Draft(names, port, auth), mux), Loaded(names, port, auth);
    InServiceIsConsistent();
    DraftIsAcceptable(names, port, auth, mux);
    LoadedIsBuilt(names, port, auth);
    CommitsExactly(IN_SERVICE, q);
    PastChecks(IN_SERVICE, q);
    CompletesExactly(q.inp.document.value.users, q.env.sync.users, 4);
    assert cfg.servers[0].name == "main";
    assert Leads(IN_SERVICE, q, e, After(IN_SERVICE, cfg, "main", q.env, e), cfg);
  }

  /** A refused push after which policy, key snapshot and socket all belong to a server that is not in use. */
  lemma RefusedPushLeavesDisagreement()
    ensures exists q, a :: Step(IN_SERVICE, q, PushRefused, a) && Lent(a) == Lent(IN_SERVICE)
                           && !PolicyAgrees(a) && !CodecAgrees(a) && !BindingAgrees(a)
  {
    hide Step, After;
    var doc := Draft(["ann"], 7001, true);
    var q := Reading(doc, false);
    DraftStep(["ann"], 7001, true, false, PushRefused);
    var a := After(IN_SERVICE, Loaded(["ann"], 7001, true), "main", q.env, PushRefused);
    InServiceIsConsistent();
    DraftIsAcceptable(["ann"], 7001, true, false);
    RestoredWhenReady(IN_SERVICE, q, PushRefused, a);
    StepKeepsPolicy(IN_SERVICE, q, PushRefused, a);
    CodecFailureAgreesExactly(IN_SERVICE, q, PushRefused, a);
    CodecFailureKeepsNewBinding(IN_SERVICE, q, PushRefused, a, Site(7001, true));
    assert OLD.users[0].enabled;
  }

  /** Two enabled users of one name: everything is granted, every check passes, and the rebuild fails. */
  lemma SharedNameFailsToRebuild()
    ensures var q := Reading(Draft(["ann", "ann"], 7000, false), true);
            && UsableInputs(q.inp) && Acceptable(q.inp, "main", IN_SERVICE.listener, PortOf(IN_SERVICE), q.env)
            && AllGranted(q.env.sync)
            && exists a :: Step(IN_SERVICE, q, RebuildFailed, a) && Lent(a) == Lent(IN_SERVICE) && !CodecAgrees(a)
  {
    hide Step, After;
    var names := ["ann", "ann"];
    var q := Reading(Draft(names, 7000, false), true);
    var us := q.inp.document.value.users;
    assert us[0].name == us[1].name;
    assert !Indexable(us);
    DraftStep(names, 7000, false, true, RebuildFailed);
    var a := After(IN_SERVICE, Loaded(names, 7000, false), "main", q.env, RebuildFailed);
    InServiceIsConsistent();
    DraftIsAcceptable(names, 7000, false, true);
    RestoredWhenReady(IN_SERVICE, q, RebuildFailed, a);
    CodecFailureAgreesExactly(IN_SERVICE, q, RebuildFailed, a);
    assert OLD.users[0].enabled;
  }
}
