/** `Process`, `Mask` and `Restore` running concurrently on one store: every call
    is a small program whose store operations are the threads of `StoreSteps`. */
module AppSteps {
  import opened Bytes
  import opened Expiry
  import opened StoreCore
  import opened StoreSteps
  import opened Pipeline
  import PipelineFacts
  import Resolving

  // ---- Configuration ----------------------------------------------------------

  datatype Consumer = Consumer(enabled: bool, maskingEnabled: bool, canRestore: bool, policy: Policy)

  datatype Config = Config(prefix: Bytes, limits: Limits, process: Resolving.Priority, consumers: map<Bytes, Consumer>)

  /** "process", the fixed scope of `Process`. */
  const CONSUMER_SCOPE: Bytes := [112, 114, 111, 99, 101, 115, 115]

  /** A consumer as configured; `typesKnown` says whether the registry has
      recognizers for all its types. */
  datatype Configured = Configured(name: Bytes, consumer: Consumer, typesKnown: bool)

  /** The last consumer of this name. */
  ghost predicate IsLast(cs: seq<Configured>, i: int) {
    0 <= i < |cs| && forall j :: i < j < |cs| ==> cs[j].name != cs[i].name
  }

  /** Consumers by name; of several with one name the last one counts. */
  function ByName(cs: seq<Configured>): map<Bytes, Consumer> {
    if cs == [] then map[]
    else ByName(cs[..|cs| - 1])[cs[|cs| - 1].name := cs[|cs| - 1].consumer]
  }

  /** The checks of `NewManaged`. */
  method NewManaged(processTypesKnown: bool, cs: seq<Configured>) returns (r: Option<map<Bytes, Consumer>>)
    ensures r.Some? <==>
            processTypesKnown &&
            forall i :: 0 <= i < |cs| ==> cs[i].name != CONSUMER_SCOPE && COLON !in cs[i].name && cs[i].typesKnown
    ensures r.Some? ==> NamesOk(r.value)
    ensures r.Some? ==>
              && (forall name :: name in r.value ==> exists i :: IsLast(cs, i) && cs[i].name == name)
              && (forall i :: IsLast(cs, i) ==> cs[i].name in r.value && r.value[cs[i].name] == cs[i].consumer)
  {
    if !processTypesKnown {
      return None;
    }
    var byName: map<Bytes, Consumer> := map[];
    for i := 0 to |cs|
      invariant byName == ByName(cs[..i]) && NamesOk(byName)
      invariant forall j :: 0 <= j < i ==> cs[j].name != CONSUMER_SCOPE && COLON !in cs[j].name && cs[j].typesKnown
    {
      assert cs[..i + 1][..i] == cs[..i];
      var c := cs[i];
      if c.name == CONSUMER_SCOPE || COLON in c.name || !c.typesKnown {
        return None;
      }
      byName := byName[c.name := c.consumer];
    }
    assert cs[..|cs|] == cs;
    LastCounts(cs);
    r := Some(byName);
  }

  lemma {:induction false} NamedLast(cs: seq<Configured>, name: Bytes) returns (i: nat)
    requires name in ByName(cs)
    ensures IsLast(cs, i) && cs[i].name == name
    decreases |cs|
  {
    var n := |cs| - 1;
    if name == cs[n].name {
      i := n;
    } else {
      i := NamedLast(cs[..n], name);
      assert forall j :: i < j < n ==> cs[..n][j] == cs[j];
    }
  }

  lemma {:induction false} LastIsNamed(cs: seq<Configured>, i: int)
    requires IsLast(cs, i)
    ensures cs[i].name in ByName(cs) && ByName(cs)[cs[i].name] == cs[i].consumer
    decreases |cs|
  {
    var n := |cs| - 1;
    if i < n {
      assert cs[n].name != cs[i].name;
      LastIsNamed(cs[..n], i);
    }
  }

  lemma LastCounts(cs: seq<Configured>)
    ensures forall name :: name in ByName(cs) ==> exists i :: IsLast(cs, i) && cs[i].name == name
    ensures forall i :: IsLast(cs, i) ==> cs[i].name in ByName(cs) && ByName(cs)[cs[i].name] == cs[i].consumer
  {
    hide ByName;
    forall name | name in ByName(cs) ensures exists i :: IsLast(cs, i) && cs[i].name == name {
      var i := NamedLast(cs, name);
    }
    forall i | IsLast(cs, i) ensures cs[i].name in ByName(cs) && ByName(cs)[cs[i].name] == cs[i].consumer {
      LastIsNamed(cs, i);
    }
  }

  /** No consumer is named like the public scope, or with the key separator. */
  ghost predicate NamesOk(consumers: map<Bytes, Consumer>) {
    forall name :: name in consumers ==> name != CONSUMER_SCOPE && COLON !in name
  }

  // ---- Requests ---------------------------------------------------------------

  datatype Request =
    | ProcessReq(id: Bytes, text: Bytes)
    | MaskReq(consumer: Bytes, id: Bytes, text: Bytes)
    | RestoreReq(consumer: Bytes, id: Bytes, text: Bytes)

  function Scope(req: Request): Bytes {
    if req.ProcessReq? then CONSUMER_SCOPE else req.consumer
  }

  function KeyOf(scope: Bytes, id: Bytes): Key {
    scope + [COLON] + id
  }

  function KeyFor(req: Request): Key {
    KeyOf(Scope(req), req.id)
  }

  datatype Refusal =
    | UnknownConsumer | Disabled | MaskingDisabled | RestoreForbidden
    | NotFound | Conflict | Capacity | Busy | CreateFailed(error: Error) | Panics

  datatype Kind = NewMask | Restoration | Repeat

  datatype Reply = Text(text: Bytes, kind: Kind) | Rejected(refusal: Refusal)

  /** The access policy, checked before anything else. */
  function Denied(cfg: Config, req: Request): Option<Refusal> {
    if req.ProcessReq? then None
    else if req.consumer !in cfg.consumers then Some(UnknownConsumer)
    else
      var c := cfg.consumers[req.consumer];
      if !c.enabled then Some(Disabled)
      else if req.MaskReq? && !c.maskingEnabled then Some(MaskingDisabled)
      else if req.RestoreReq? && !c.canRestore then Some(RestoreForbidden)
      else None
  }

  function PolicyFor(cfg: Config, req: Request): Policy
    requires Denied(cfg, req) == None
  {
    if req.ProcessReq? then Policy(cfg.process, MarkerFormat) else cfg.consumers[req.consumer].policy
  }

  // ---- Decisions --------------------------------------------------------------

  /** The answer for a record, and whether the record is marked as restored. */
  datatype Decision = Decision(reply: Reply, marks: bool)

  ghost function Decide(req: Request, c: Content): Decision {
    match req
    case ProcessReq(id, payload) =>
      if payload == c.original then Decision(Text(c.masked, Repeat), false)
      else if payload == c.masked then Decision(Text(c.original, Restoration), c.original != c.masked)
      else Decision(Rejected(Conflict), false)
    case MaskReq(_, id, payload) =>
      if payload == c.original || payload == c.masked then Decision(Text(c.masked, Repeat), false)
      else Decision(Rejected(Conflict), false)
    case RestoreReq(_, id, masked) =>
      if c.format.StarsFormat? then
        if masked != c.masked then Decision(Rejected(Conflict), false)
        else Decision(Text(c.original, Restoration), true)
      else if !Sliceable(c.original, c.table) then Decision(Rejected(Panics), false)
      else
        var restored := PipelineFacts.RestoredText(c, masked);
        Decision(Text(restored, Restoration), restored != masked)
  }

  /** The errors of `create`. */
  function RefusalFor(error: Error): Refusal {
    match error
    case ErrCapacity => Capacity
    case ErrBusy => Busy
    case _ => CreateFailed(error)
  }

  // ---- The system -------------------------------------------------------------

  /** Where a call stands; its store operations are the threads `Tid(call, 0)` to
      `Tid(call, 2)`. */
  datatype Phase =
    | Getting
    | Creating
    | Marking(rec: Record, reply: Reply)
    | Replied(final: Reply, cause: Option<Record>)

  datatype Call = Call(req: Request, phase: Phase)

  type Calls = map<nat, Call>

  /** History: who built a version, and from which recognizer results. */
  datatype Making = Making(call: nat, results: seq<Finding>)

  datatype App = App(store: Sys, calls: Calls, made: map<nat, Making>, marks: map<nat, nat>)

  ghost function Start(at: Time): App {
    App(Init(at), map[], map[], map[])
  }

  datatype Move =
    | Enter(call: nat, req: Request)
    | Inside(step: Step)
    | Build(t: Tid, results: seq<Finding>, drainedAt: Time, at: Time, gone: set<Key>)
    | Clean(t: Tid)
    | Advance(call: nat)

  function Stage(phase: Phase): nat {
    match phase
    case Getting => 0
    case Creating => 1
    case _ => 2
  }

  /** Store steps that go on without the application: all but starting an operation
      and the end of `build`; inside `build` only the context can fail them. */
  predicate Internal(step: Step) {
    match step
    case Spawn(_, _) => false
    case DoPublish(_, _, _, _, _) => false
    case FailBuild(_, error) => error.ErrContext?
    case _ => true
  }

  ghost predicate CanBuild(cfg: Config, a: App, t: Tid) {
    && At(a.store, t, Building) && a.store.threads[t].op.CreateOp?
    && t.call in a.calls && Denied(cfg, a.calls[t.call].req) == None
  }

  /** The content the build of thread t yields for these recognizer results. */
  ghost function BuildResult(cfg: Config, a: App, t: Tid, results: seq<Finding>): Option<Content>
    requires CanBuild(cfg, a, t)
  {
    var req := a.calls[t.call].req;
    Built(cfg.prefix, PolicyFor(cfg, req), req.text, results)
  }

  const ERR_RECOGNITION: Error := ErrBuild(0)

  ghost predicate Allowed(cfg: Config, a: App, move: Move) {
    match move
    case Enter(c, req) => c !in a.calls && forall t :: t in a.store.threads ==> t.call != c
    case Inside(step) => Internal(step) && Enabled(cfg.limits, a.store, step)
    case Build(t, results, drainedAt, at, gone) =>
      && CanBuild(cfg, a, t) && PipelineFacts.FitsInMemory(a.calls[t.call].req.text, results)
      && (match BuildResult(cfg, a, t, results)
          case None => true
          case Some(content) => Enabled(cfg.limits, a.store, DoPublish(t, content, drainedAt, at, gone)))
    case Clean(t) => t !in a.store.threads && t.call !in a.calls
    case Advance(c) =>
      && c in a.calls && !a.calls[c].phase.Replied?
      && var t := Tid(c, Stage(a.calls[c].phase));
         t in a.store.threads && a.store.threads[t].pc.Done?
  }

  ghost function Started(l: Limits, s: Sys, t: Tid, op: Op): Sys
    requires t !in s.threads
  {
    StoreSteps.Apply(l, s, Spawn(t, op))
  }

  /** The call acts on a record: it answers, after marking the record if it must. */
  ghost function Settle(cfg: Config, a: App, c: nat, rec: Record): App
    requires c in a.calls && Tid(c, 2) !in a.store.threads
  {
    var req := a.calls[c].req;
    var d := Decide(req, rec.content);
    if d.marks then
      a.(store := Started(cfg.limits, a.store, Tid(c, 2), MarkOp(KeyFor(req), rec.version)),
         calls := a.calls[c := Call(req, Marking(rec, d.reply))])
    else
      a.(calls := a.calls[c := Call(req, Replied(d.reply, Some(rec)))])
  }

  ghost function Answered(a: App, c: nat, reply: Reply, cause: Option<Record>): App
    requires c in a.calls
  {
    a.(calls := a.calls[c := a.calls[c].(phase := Replied(reply, cause))])
  }

  /** The next step of a call whose store operation has returned. */
  ghost function Continue(cfg: Config, a: App, c: nat): App
    requires Allowed(cfg, a, Advance(c))
  {
    var req, phase := a.calls[c].req, a.calls[c].phase;
    var free := Tid(c, 1) !in a.store.threads && Tid(c, 2) !in a.store.threads;
    match phase
    case Marking(rec, reply) => Answered(a, c, reply, Some(rec))
    case _ =>
      match a.store.threads[Tid(c, Stage(phase))].pc.answer
      case Looked(None) =>
        if req.RestoreReq? then Answered(a, c, Rejected(NotFound), None)
        else if free then
          var key := KeyFor(req);
          a.(store := Started(cfg.limits, a.store, Tid(c, 1), CreateOp(key, MinRecordSize(key, |req.text|))),
             calls := a.calls[c := Call(req, Creating)])
        else a
      case Looked(Some(rec)) => if Tid(c, 2) !in a.store.threads then Settle(cfg, a, c, rec) else a
      case Existed(rec) => if Tid(c, 2) !in a.store.threads then Settle(cfg, a, c, rec) else a
      case Created(rec) => Answered(a, c, Text(rec.content.masked, NewMask), Some(rec))
      case Failed(error) => Answered(a, c, Rejected(RefusalFor(error)), None)
      case _ => a
  }

  ghost function Next(cfg: Config, a: App, move: Move): App
    requires Allowed(cfg, a, move)
  {
    match move
    case Enter(c, req) =>
      (match Denied(cfg, req)
       case Some(refusal) => a.(calls := a.calls[c := Call(req, Replied(Rejected(refusal), None))])
       case None =>
         a.(store := Started(cfg.limits, a.store, Tid(c, 0), GetOp(KeyFor(req))),
            calls := a.calls[c := Call(req, Getting)]))
    case Inside(step) =>
      var s := StoreSteps.Apply(cfg.limits, a.store, step);
      a.(store := s,
         marks := if step.DoMark? && s.threads[step.t].pc == Done(Marked(true), None)
                  then a.marks[a.store.threads[step.t].op.version := step.t.call] else a.marks)
    case Build(t, results, drainedAt, at, gone) =>
      (match BuildResult(cfg, a, t, results)
       case None => a.(store := StoreSteps.Apply(cfg.limits, a.store, FailBuild(t, ERR_RECOGNITION)))
       case Some(content) =>
         var s := StoreSteps.Apply(cfg.limits, a.store, DoPublish(t, content, drainedAt, at, gone));
         a.(store := s,
            made := if s.core.nextVer != a.store.core.nextVer
                    then a.made[s.core.nextVer := Making(t.call, results)] else a.made))
    case Clean(t) => a.(store := Started(cfg.limits, a.store, t, CleanOp))
    case Advance(c) => Continue(cfg, a, c)
  }

  // ---- Runs -------------------------------------------------------------------

  ghost predicate CanRun(cfg: Config, a: App, moves: seq<Move>)
    decreases |moves|
  {
    moves == [] || (Allowed(cfg, a, moves[0]) && CanRun(cfg, Next(cfg, a, moves[0]), moves[1..]))
  }

  ghost function After(cfg: Config, a: App, moves: seq<Move>): App
    requires CanRun(cfg, a, moves)
    decreases |moves|
  {
    if moves == [] then a else After(cfg, Next(cfg, a, moves[0]), moves[1..])
  }

  ghost predicate Reached(cfg: Config, a: App) {
    exists at, moves :: CanRun(cfg, Start(at), moves) && After(cfg, Start(at), moves) == a
  }
}
