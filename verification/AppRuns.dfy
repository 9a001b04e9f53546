/** Every run of the application is a run of the store: what holds of the store in all
    its reachable states holds of it under `Process`, `Mask` and `Restore`. */
module AppRuns {
  import opened Bytes
  import opened Expiry
  import opened StoreCore
  import opened StoreSteps
  import opened StoreSafety
  import opened Handouts
  import opened Pipeline
  import PipelineFacts
  import opened AppSteps

  lemma NoStep(l: Limits, s: Sys)
    ensures Runs(l, s, []) && Exec(l, s, []) == s
  {
  }

  lemma OneStep(l: Limits, s: Sys, step: Step)
    requires Enabled(l, s, step)
    ensures Runs(l, s, [step]) && Exec(l, s, [step]) == Apply(l, s, step)
  {
    hide Enabled, Apply;
    assert [step][1..] == [];
    NoStep(l, Apply(l, s, step));
  }

  lemma {:induction false} RunsConcat(l: Limits, s: Sys, xs: seq<Step>, ys: seq<Step>)
    requires Runs(l, s, xs) && Runs(l, Exec(l, s, xs), ys)
    ensures Runs(l, s, xs + ys) && Exec(l, s, xs + ys) == Exec(l, Exec(l, s, xs), ys)
    decreases |xs|
  {
    hide Enabled, Apply;
    if xs == [] {
      assert xs + ys == ys;
    } else {
      RunsConcat(l, Apply(l, s, xs[0]), xs[1..], ys);
      assert (xs + ys)[0] == xs[0] && (xs + ys)[1..] == xs[1..] + ys;
    }
  }

  /** The step of the store that ends a build. */
  ghost function BuildStep(cfg: Config, a: App, t: Tid, results: seq<Finding>, drainedAt: Time, at: Time,
                           gone: set<Key>): Step
    requires CanBuild(cfg, a, t)
  {
    match BuildResult(cfg, a, t, results)
    case None => FailBuild(t, ERR_RECOGNITION)
    case Some(content) => DoPublish(t, content, drainedAt, at, gone)
  }

  /** The steps of the store in one move: those of the store itself, the end of a build,
      and otherwise at most the start of an operation. */
  lemma MoveIsSteps(cfg: Config, a: App, move: Move) returns (steps: seq<Step>)
    requires Allowed(cfg, a, move)
    ensures |steps| <= 1 && Runs(cfg.limits, a.store, steps)
    ensures Exec(cfg.limits, a.store, steps) == Next(cfg, a, move).store
    ensures match move
            case Inside(step) => steps == [step]
            case Build(t, results, drainedAt, at, gone) =>
              steps == [BuildStep(cfg, a, t, results, drainedAt, at, gone)]
            case _ => steps == [] || steps[0].Spawn?
  {
    hide Runs, Exec, Enabled, Apply, Denied, Built, PipelineFacts.FitsInMemory, KeyFor;
    steps := [];
    match move {
      case Enter(c, req) =>
        if Denied(cfg, req) == None {
          steps := StartIsStep(cfg, a, Tid(c, 0), GetOp(KeyFor(req)));
        }
      case Inside(step) => steps := [step];
      case Build(t, results, drainedAt, at, gone) =>
        CanFailNow(cfg, a, t);
        match BuildResult(cfg, a, t, results) {
          case None => steps := [FailBuild(t, ERR_RECOGNITION)];
          case Some(content) => steps := [DoPublish(t, content, drainedAt, at, gone)];
        }
      case Clean(t) => steps := StartIsStep(cfg, a, t, CleanOp);
      case Advance(c) => steps := AdvanceIsSteps(cfg, a, c);
    }
    NoStep(cfg.limits, a.store);
    if steps != [] {
      OneStep(cfg.limits, a.store, steps[0]);
      assert steps == [steps[0]];
    }
  }

  lemma CanFailNow(cfg: Config, a: App, t: Tid)
    requires CanBuild(cfg, a, t)
    ensures Enabled(cfg.limits, a.store, FailBuild(t, ERR_RECOGNITION))
  {
  }

  lemma StartIsStep(cfg: Config, a: App, t: Tid, op: Op) returns (steps: seq<Step>)
    requires t !in a.store.threads
    ensures steps == [Spawn(t, op)] && Enabled(cfg.limits, a.store, steps[0])
    ensures Apply(cfg.limits, a.store, steps[0]) == Started(cfg.limits, a.store, t, op)
  {
    steps := [Spawn(t, op)];
  }

  lemma AdvanceIsSteps(cfg: Config, a: App, c: nat) returns (steps: seq<Step>)
    requires Allowed(cfg, a, Advance(c))
    ensures var s' := Continue(cfg, a, c).store;
            if steps == [] then s' == a.store
            else
              && |steps| == 1 && steps[0].Spawn? && Enabled(cfg.limits, a.store, steps[0])
              && s' == Apply(cfg.limits, a.store, steps[0])
  {
    hide Enabled, Apply, Decide, KeyFor;
    steps := [];
    var req, phase := a.calls[c].req, a.calls[c].phase;
    if !phase.Marking? {
      match a.store.threads[Tid(c, Stage(phase))].pc.answer {
        case Looked(None) =>
          if !req.RestoreReq? && Tid(c, 1) !in a.store.threads && Tid(c, 2) !in a.store.threads {
            var key := KeyFor(req);
            steps := StartIsStep(cfg, a, Tid(c, 1), CreateOp(key, MinRecordSize(key, |req.text|)));
          }
        case Looked(Some(rec)) => steps := SettleIsSteps(cfg, a, c, rec);
        case Existed(rec) => steps := SettleIsSteps(cfg, a, c, rec);
        case _ =>
      }
    }
  }

  lemma SettleIsSteps(cfg: Config, a: App, c: nat, rec: Record) returns (steps: seq<Step>)
    requires c in a.calls
    ensures if steps == [] then Tid(c, 2) !in a.store.threads ==> Settle(cfg, a, c, rec).store == a.store
            else
              && |steps| == 1 && steps[0].Spawn? && Tid(c, 2) !in a.store.threads
              && Enabled(cfg.limits, a.store, steps[0])
              && Settle(cfg, a, c, rec).store == Apply(cfg.limits, a.store, steps[0])
  {
    hide Enabled, Apply, Decide, KeyFor;
    steps := [];
    if Tid(c, 2) !in a.store.threads && Decide(a.calls[c].req, rec.content).marks {
      steps := StartIsStep(cfg, a, Tid(c, 2), MarkOp(KeyFor(a.calls[c].req), rec.version));
    }
  }

  /** The steps of the store in a run. */
  lemma {:induction false} RunIsSteps(cfg: Config, a: App, moves: seq<Move>) returns (steps: seq<Step>)
    requires CanRun(cfg, a, moves)
    ensures Runs(cfg.limits, a.store, steps)
    ensures Exec(cfg.limits, a.store, steps) == After(cfg, a, moves).store
    decreases |moves|
  {
    hide Allowed, Next, Runs, Exec;
    if moves == [] {
      steps := [];
      NoStep(cfg.limits, a.store);
    } else {
      var first := MoveIsSteps(cfg, a, moves[0]);
      var rest := RunIsSteps(cfg, Next(cfg, a, moves[0]), moves[1..]);
      steps := first + rest;
      RunsConcat(cfg.limits, a.store, first, rest);
    }
  }

  lemma ReachedIsReachable(cfg: Config, a: App)
    requires Reached(cfg, a)
    ensures Reachable(cfg.limits, a.store)
  {
    hide CanRun, After, Runs, Exec;
    var at, moves :| CanRun(cfg, Start(at), moves) && After(cfg, Start(at), moves) == a;
    var steps := RunIsSteps(cfg, Start(at), moves);
    assert Runs(cfg.limits, Init(at), steps) && a.store == Exec(cfg.limits, Init(at), steps);
  }

  // ---- Longer runs ----------------------------------------------------------------

  /** These moves lead from a to z. */
  ghost predicate Leads(cfg: Config, a: App, moves: seq<Move>, z: App) {
    CanRun(cfg, a, moves) && After(cfg, a, moves) == z
  }

  lemma {:induction false} LeadsOn(cfg: Config, a: App, moves: seq<Move>, z: App, move: Move)
    requires Leads(cfg, a, moves, z) && Allowed(cfg, z, move)
    ensures Leads(cfg, a, moves + [move], Next(cfg, z, move))
    decreases |moves|
  {
    hide Allowed, Next;
    var more := moves + [move];
    if moves == [] {
      assert more[0] == move && more[1..] == [];
      LeadsNowhere(cfg, Next(cfg, a, move));
      assert Leads(cfg, a, more, Next(cfg, z, move));
    } else {
      LeadsOn(cfg, Next(cfg, a, moves[0]), moves[1..], z, move);
      assert more[0] == moves[0] && more[1..] == moves[1..] + [move];
    }
  }

  lemma LeadsNowhere(cfg: Config, a: App)
    ensures Leads(cfg, a, [], a)
  {
  }

  lemma ReachedOneMore(cfg: Config, a: App, move: Move)
    requires Reached(cfg, a) && Allowed(cfg, a, move)
    ensures Reached(cfg, Next(cfg, a, move))
  {
    hide CanRun, After, Allowed, Next;
    var at, moves :| CanRun(cfg, Start(at), moves) && After(cfg, Start(at), moves) == a;
    LeadsOn(cfg, Start(at), moves, a, move);
  }

  lemma {:induction false} ReachedMore(cfg: Config, a: App, moves: seq<Move>, z: App)
    requires Reached(cfg, a) && Leads(cfg, a, moves, z)
    ensures Reached(cfg, z)
    decreases |moves|
  {
    hide Reached, Allowed, Next;
    if moves != [] {
      ReachedOneMore(cfg, a, moves[0]);
      ReachedMore(cfg, Next(cfg, a, moves[0]), moves[1..], z);
    }
  }
}
