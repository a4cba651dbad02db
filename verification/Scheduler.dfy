/** The content-scan scheduler: a durable frontier, an in-memory set of completed
    Blocks, gaps, restored Blocks and signature resets.  Everything outside the
    scheduler (listing, engine, reporter, progress store) is an input. */
module Scheduler {
  import opened Bytes

  datatype Block = Block(id: uint64, restored: bool)

  datatype Progress = Progress(frontier: uint64, signature: string)

  /** A save that fails may nevertheless have landed; a canceled one ends the run. */
  datatype SaveOutcome = Saved | NotSaved(landed: bool, canceled: bool)

  function StoreAfter(stored: Progress, saved: Progress, o: SaveOutcome): Progress
  {
    if o.Saved? || o.landed then saved else stored
  }

  // ------------------------------------------------------------------ one scan

  const MAX_DETECTIONS_PER_BLOCK := 8192

  datatype Detection = Detection(id: nat, valid: bool)

  datatype EngineAnswer = EngineFailed(fatal: bool) | EngineResult(detected: bool, detections: seq<Detection>)

  datatype ReportAnswer = Accepted | Refused(canceled: bool)

  /** What happens around one Block: waiting, scanning, reporting, saving. */
  datatype BlockEnv = BlockEnv(proceeds: bool, engine: EngineAnswer, report: nat -> ReportAnswer, save: SaveOutcome)

  datatype ScanOutcome = ScanOk | ScanBad(fatal: bool)

  /** validateDetectionResult */
  predicate ValidResult(detected: bool, detections: seq<Detection>)
  {
    detected == (detections != []) && forall d :: d in detections ==> d.valid
  }

  function BatchCount(n: nat): nat { (n + MAX_DETECTIONS_PER_BLOCK - 1) / MAX_DETECTIONS_PER_BLOCK }

  /** Index of the first refused batch at or after k, or n. */
  function FirstRefusal(report: nat -> ReportAnswer, k: nat, n: nat): (r: nat)
    requires k <= n
    ensures k <= r <= n
    ensures r < n ==> report(r).Refused?
    ensures forall i :: k <= i < r ==> report(i).Accepted?
    decreases n - k
  {
    if k == n || report(k).Refused? then k else FirstRefusal(report, k + 1, n)
  }

  function ScanOne(e: BlockEnv, hasReporter: bool): (r: ScanOutcome)
  {
    match e.engine
    case EngineFailed(fatal) => ScanBad(fatal)
    case EngineResult(detected, detections) =>
      if !ValidResult(detected, detections) then ScanBad(false)
      else if detections == [] then ScanOk
      else if !hasReporter then ScanBad(false)
      else
        var n := BatchCount(|detections|);
        var k := FirstRefusal(e.report, 0, n);
        if k < n then ScanBad(e.report(k).canceled) else ScanOk
  }

  // ------------------------------------------------------------------ the listing

  function Ids(blocks: seq<Block>): set<uint64> { set b | b in blocks :: b.id }

  function RestoredIds(blocks: seq<Block>): set<uint64> { set b | b in blocks && b.restored :: b.id }

  function MaxListed(blocks: seq<Block>): (m: uint64)
    ensures forall b :: b in blocks ==> b.id <= m
    ensures m == 0 || m in Ids(blocks)
  {
    if blocks == [] then 0
    else
      var rest := MaxListed(blocks[1..]);
      if blocks[0].id > rest then blocks[0].id else rest
  }

  /** Blocks to scan: first occurrences that are above the frontier or restored
      and not completed yet. */
  function Eligible(order: seq<Block>, enabled: bool, frontier: uint64, completed: set<uint64>, seen: set<uint64>): (out: seq<Block>)
  {
    if order == [] then []
    else
      var b := order[0];
      var rest := Eligible(order[1..], enabled, frontier, completed, seen + {b.id});
      if b.id in seen || (enabled && b.id <= frontier && !b.restored) || b.id in completed then rest else [b] + rest
  }

  lemma EligibleStep(order: seq<Block>, i: nat, enabled: bool, frontier: uint64, completed: set<uint64>, seen: set<uint64>)
    requires i <= |order|
    ensures i == |order| ==> Eligible(order[i..], enabled, frontier, completed, seen) == []
    ensures i < |order| ==>
              var b := order[i];
              var rest := Eligible(order[i + 1..], enabled, frontier, completed, seen + {b.id});
              Eligible(order[i..], enabled, frontier, completed, seen) ==
              if b.id in seen || (enabled && b.id <= frontier && !b.restored) || b.id in completed then rest else [b] + rest
  {
    if i < |order| {
      assert order[i..][1..] == order[i + 1..];
    }
  }

  // -------------------------------------------------------- frontier and pruning

  /** advanceProgressFrontier: through completed and absent IDs, up to the highest listed. */
  function Advance(frontier: uint64, completed: set<uint64>, listed: set<uint64>, max: uint64): (f: uint64)
    ensures frontier <= f && (f <= max || f == frontier)
    ensures forall k: uint64 :: frontier < k <= f ==> k in completed || k !in listed
    ensures f < max ==> f + 1 in listed && f + 1 !in completed
    decreases max - frontier
  {
    if frontier < max && (frontier + 1 in completed || frontier + 1 !in listed)
    then Advance(frontier + 1, completed, listed, max)
    else frontier
  }

  /** The sweep over the whole completed set. */
  function FullPrune(completed: set<uint64>, frontier: uint64, restored: set<uint64>): set<uint64>
  {
    set c | c in completed && (c > frontier || c in restored)
  }

  /** The cheap sweep over (before, frontier]. */
  function DeltaPrune(completed: set<uint64>, before: uint64, frontier: uint64, restored: set<uint64>): set<uint64>
  {
    set c | c in completed && (c <= before || c > frontier || c in restored)
  }

  // -------------------------------------------------------------------- one run

  /** The part of a run's state that persistAdvancedProgress works on, and the
      IDs cleared (scanned with all detections reported) during the run. */
  datatype Run = Run(frontier: uint64, completed: set<uint64>, store: Progress, cleared: set<uint64>, failed: bool, stopped: bool)

  /** The fixed inputs of a run. */
  datatype Scope = Scope(enabled: bool, signature: string, listing: seq<Block>, hasReporter: bool)

  function Persist(sc: Scope, r: Run, full: bool, save: SaveOutcome): (r': Run)
  {
    if !sc.enabled then r
    else
      var restored := RestoredIds(sc.listing);
      var f := Advance(r.frontier, r.completed, Ids(sc.listing), MaxListed(sc.listing));
      var completed := if full then FullPrune(r.completed, f, restored)
                       else DeltaPrune(r.completed, r.frontier, f, restored);
      if f == r.frontier then r.(completed := completed)
      else
        r.(frontier := f, completed := completed, store := StoreAfter(r.store, Progress(f, sc.signature), save),
           failed := r.failed || !save.Saved?, stopped := r.stopped || (save.NotSaved? && save.canceled))
  }

  /** `full` selects the sweep made after each Block; the scheduler uses the cheap one. */
  function TryScanBlock(sc: Scope, r: Run, b: Block, e: BlockEnv, full: bool): (r': Run)
  {
    match ScanOne(e, sc.hasReporter)
    case ScanBad(fatal) => r.(failed := true, stopped := fatal)
    case ScanOk =>
      Persist(sc, r.(completed := r.completed + {b.id}, cleared := r.cleared + {b.id}), full, e.save)
  }

  function ScanLoop(sc: Scope, r: Run, blocks: seq<Block>, env: uint64 -> BlockEnv, full: bool): (r': Run)
    decreases |blocks|
  {
    if blocks == [] || r.stopped then r
    else if !env(blocks[0].id).proceeds then r.(failed := true, stopped := true)
    else ScanLoop(sc, TryScanBlock(sc, r, blocks[0], env(blocks[0].id), full), blocks[1..], env, full)
  }

  /** scanBlocks: a full sweep once, then Block by Block; a failure of the first
      save ends the run. */
  function ScanBlocks(sc: Scope, r: Run, blocks: seq<Block>, firstSave: SaveOutcome, env: uint64 -> BlockEnv, full: bool): (r': Run)
  {
    var first := Persist(sc, r, true, firstSave);
    if first.failed then first else ScanLoop(sc, first, blocks, env, full)
  }

  // ------------------------------------------------------ what a run keeps

  /** Safety: with `good` the IDs cleared before this run, every listed ID in
      (base, frontier] is cleared, and the stored frontier lies between. */
  ghost predicate Safe(sc: Scope, r: Run, base: uint64, good: set<uint64>)
  {
    && r.completed <= good + r.cleared
    && (sc.enabled ==>
          && base <= r.store.frontier <= r.frontier && r.store.signature == sc.signature
          && (!r.failed ==> r.store.frontier == r.frontier)
          && forall b :: b in sc.listing && base < b.id <= r.frontier ==> b.id in good + r.cleared)
  }

  /** Completed entries at or below the frontier belong to restored Blocks, and
      the frontier is as far as it can be. */
  ghost predicate Tidy(sc: Scope, r: Run)
  {
    sc.enabled ==>
      && (forall c :: c in r.completed && c <= r.frontier ==> c in RestoredIds(sc.listing))
      && (r.frontier < MaxListed(sc.listing) ==>
            r.frontier + 1 in Ids(sc.listing) && r.frontier + 1 !in r.completed)
  }

  /** The Blocks still to be scanned. */
  ghost predicate Pending(sc: Scope, r: Run, blocks: seq<Block>)
  {
    && (forall i, j :: 0 <= i < j < |blocks| ==> blocks[i].id != blocks[j].id)
    && (forall b :: b in blocks ==>
          && b in sc.listing && b.id !in r.completed
          && (sc.enabled ==> b.id > r.frontier || b.restored))
  }

  /** Nothing above the frontier has been forgotten, unless something failed. */
  ghost predicate Covered(sc: Scope, r: Run, blocks: seq<Block>)
  {
    sc.enabled && !r.failed ==>
      forall b :: b in sc.listing && b.id > r.frontier ==> b.id in r.completed || b.id in Ids(blocks)
  }

  lemma PersistSafe(sc: Scope, r: Run, base: uint64, good: set<uint64>, full: bool, save: SaveOutcome)
    requires Safe(sc, r, base, good)
    ensures Safe(sc, Persist(sc, r, full, save), base, good)
  {
  }

  /** The heart of the incremental sweep: below the old frontier there is nothing
      left to prune. */
  lemma DeltaIsFull(completed: set<uint64>, before: uint64, f: uint64, restored: set<uint64>)
    requires before <= f && forall c :: c in completed && c <= before ==> c in restored
    ensures DeltaPrune(completed, before, f, restored) == FullPrune(completed, f, restored)
  {
  }

  lemma PersistTidy(sc: Scope, r: Run, full: bool, save: SaveOutcome)
    requires full || (sc.enabled ==> forall c :: c in r.completed && c <= r.frontier ==> c in RestoredIds(sc.listing))
    ensures Tidy(sc, Persist(sc, r, full, save))
    ensures Persist(sc, r, full, save) == Persist(sc, r, true, save)
  {
    if sc.enabled {
      var f := Advance(r.frontier, r.completed, Ids(sc.listing), MaxListed(sc.listing));
      if !full {
        DeltaIsFull(r.completed, r.frontier, f, RestoredIds(sc.listing));
      }
    }
  }

  /** Sweeping and saving leaves the remaining Blocks pending and covered. */
  lemma PersistPending(sc: Scope, r: Run, blocks: seq<Block>, save: SaveOutcome)
    requires Pending(sc, r, blocks)
    ensures Pending(sc, Persist(sc, r, true, save), blocks)
    ensures Covered(sc, r, blocks) ==> Covered(sc, Persist(sc, r, true, save), blocks)
  {
  }

  /** Everything a run keeps from one Block to the next. */
  ghost predicate Kept(sc: Scope, r: Run, base: uint64, good: set<uint64>, blocks: seq<Block>)
  {
    Safe(sc, r, base, good) && Tidy(sc, r) && Pending(sc, r, blocks) && Covered(sc, r, blocks)
  }

  lemma StepKeeps(sc: Scope, r: Run, base: uint64, good: set<uint64>, blocks: seq<Block>, e: BlockEnv)
    requires blocks != [] && Kept(sc, r, base, good, blocks)
    ensures Kept(sc, TryScanBlock(sc, r, blocks[0], e, false), base, good, blocks[1..])
    ensures TryScanBlock(sc, r, blocks[0], e, false) == TryScanBlock(sc, r, blocks[0], e, true)
  {
    hide Persist;
    var b := blocks[0];
    assert b in blocks;
    if ScanOne(e, sc.hasReporter).ScanOk? {
      var r1 := r.(completed := r.completed + {b.id}, cleared := r.cleared + {b.id});
      assert Safe(sc, r1, base, good);
      assert b.restored ==> b.id in RestoredIds(sc.listing);
      assert Pending(sc, r1, blocks[1..]);
      assert Covered(sc, r1, blocks[1..]) by {
        assert forall c :: c in blocks ==> c == b || c in blocks[1..];
      }
      PersistSafe(sc, r1, base, good, false, e.save);
      PersistTidy(sc, r1, false, e.save);
      PersistPending(sc, r1, blocks[1..], e.save);
    }
  }

  /** Over a whole loop: safety, tidiness, and the cheap sweep doing exactly what
      the full one would. */
  lemma {:induction false} LoopKeeps(sc: Scope, r: Run, base: uint64, good: set<uint64>, blocks: seq<Block>, env: uint64 -> BlockEnv)
    requires Kept(sc, r, base, good, blocks)
    ensures Safe(sc, ScanLoop(sc, r, blocks, env, false), base, good)
    ensures Tidy(sc, ScanLoop(sc, r, blocks, env, false))
    ensures !ScanLoop(sc, r, blocks, env, false).failed && !r.stopped ==>
              Covered(sc, ScanLoop(sc, r, blocks, env, false), [])
    ensures ScanLoop(sc, r, blocks, env, false) == ScanLoop(sc, r, blocks, env, true)
    decreases |blocks|
  {
    hide Safe, Tidy, Pending, Covered, TryScanBlock;
    if blocks == [] || r.stopped {
    } else if !env(blocks[0].id).proceeds {
      StopKeeps(sc, r, base, good);
    } else {
      StepKeeps(sc, r, base, good, blocks, env(blocks[0].id));
      var next := TryScanBlock(sc, r, blocks[0], env(blocks[0].id), false);
      StopsOnlyAfterFailure(sc, r, blocks[0], env(blocks[0].id));
      LoopKeeps(sc, next, base, good, blocks[1..], env);
      if next.stopped {
        assert ScanLoop(sc, next, blocks[1..], env, false) == next;
      }
    }
  }

  lemma StopKeeps(sc: Scope, r: Run, base: uint64, good: set<uint64>)
    requires Safe(sc, r, base, good) && Tidy(sc, r)
    ensures Safe(sc, r.(failed := true, stopped := true), base, good) && Tidy(sc, r.(failed := true, stopped := true))
  {
  }

  lemma StopsOnlyAfterFailure(sc: Scope, r: Run, b: Block, e: BlockEnv)
    requires !r.stopped
    ensures TryScanBlock(sc, r, b, e, false).stopped ==> TryScanBlock(sc, r, b, e, false).failed
  {
  }

  // ----------------------------------------------------------- eligible Blocks

  lemma {:induction false} EligibleFacts(order: seq<Block>, enabled: bool, frontier: uint64, completed: set<uint64>, seen: set<uint64>)
    ensures var out := Eligible(order, enabled, frontier, completed, seen);
            && (forall b :: b in out ==> b in order && b.id !in completed && b.id !in seen
                                         && (enabled ==> b.id > frontier || b.restored))
    ensures forall i, j :: 0 <= i < j < |Eligible(order, enabled, frontier, completed, seen)| ==>
              Eligible(order, enabled, frontier, completed, seen)[i].id != Eligible(order, enabled, frontier, completed, seen)[j].id
    ensures forall b :: b in order && b.id > frontier && b.id !in seen && b.id !in completed ==>
              b.id in Ids(Eligible(order, enabled, frontier, completed, seen))
    decreases |order|
  {
    if order != [] {
      var b := order[0];
      var rest := Eligible(order[1..], enabled, frontier, completed, seen + {b.id});
      EligibleFacts(order[1..], enabled, frontier, completed, seen + {b.id});
      var out := Eligible(order, enabled, frontier, completed, seen);
      assert out == rest || (out == [b] + rest && b in out);
      assert forall c :: c in rest ==> c in out;
      assert forall c :: c in order ==> c == b || c in order[1..];
    }
  }

  // ------------------------------------------------------------- RunOnce

  datatype Config = Config(hasStore: bool, hasReporter: bool)

  /** What survives between runs: the completed set of the process and the
      durable progress (a missing record reads as frontier 0, empty signature). */
  datatype Sched = Sched(completed: set<uint64>, store: Progress)

  /** Everything the environment decides during one run.  `order` is the sorted
      listing; sort.Slice may place equal IDs either way round. */
  datatype RunEnv = RunEnv(
    leader: bool, hasLister: bool, hasEngine: bool, loadOk: bool, signature: Option<string>, resetSave: SaveOutcome,
    listing: Option<seq<Block>>, order: seq<Block>, reconcileSave: SaveOutcome, firstSave: SaveOutcome,
    at: uint64 -> BlockEnv)

  predicate ValidEnv(env: RunEnv)
  {
    env.listing.Some? ==>
      && multiset(env.order) == multiset(env.listing.value)
      && forall i, j :: 0 <= i < j < |env.order| ==> env.order[i].id <= env.order[j].id
  }

  predicate SignatureChar(c: char)
  {
    'a' <= c <= 'z' || 'A' <= c <= 'Z' || '0' <= c <= '9' || c in ['.', '-', '_', ':']
  }

  predicate ValidSignature(v: string)
  {
    |v| <= 128 && forall c :: c in v ==> SignatureChar(c)
  }

  /** `reset` says that the stored progress has gone back to 0. */
  datatype Prepared = Aborted(s: Sched, reset: bool) | Prepared(s: Sched, frontier: uint64, signature: string, reset: bool)

  /** progressForRun: a changed signature restarts from frontier 0. */
  function LoadProgress(cfg: Config, s: Sched, env: RunEnv): (p: Prepared)
  {
    if !cfg.hasStore then Prepared(s, 0, "", false)
    else if !env.loadOk || !ValidSignature(s.store.signature) then Aborted(s, false)
    else if env.signature == None || !ValidSignature(env.signature.value) then Aborted(s, false)
    else if env.signature.value == s.store.signature then Prepared(s, s.store.frontier, s.store.signature, false)
    else
      var store := StoreAfter(s.store, Progress(0, env.signature.value), env.resetSave);
      if !env.resetSave.Saved? then Aborted(s.(store := store), env.resetSave.landed)
      else Prepared(Sched({}, store), 0, env.signature.value, true)
  }

  /** reconcileProgressWithBlocks: a frontier above every listed Block restarts from 0. */
  function Reconcile(cfg: Config, p: Prepared, listing: seq<Block>, save: SaveOutcome): (r: Prepared)
    requires p.Prepared?
  {
    if !cfg.hasStore || listing == [] || p.frontier <= MaxListed(listing) then p
    else
      var store := StoreAfter(p.s.store, Progress(0, p.signature), save);
      if !save.Saved? then Aborted(p.s.(store := store), p.reset || save.landed)
      else Prepared(Sched({}, store), 0, p.signature, true)
  }

  function Prepare(cfg: Config, s: Sched, env: RunEnv): (p: Prepared)
  {
    var p := LoadProgress(cfg, s, env);
    if p.Aborted? then p
    else if env.listing == None then Aborted(p.s, p.reset)
    else Reconcile(cfg, p, env.listing.value, env.reconcileSave)
  }

  datatype Outcome = Outcome(s: Sched, ok: bool, ran: bool, reset: bool, base: uint64, cleared: set<uint64>)

  function OneRun(cfg: Config, s: Sched, env: RunEnv): (o: Outcome)
  {
    if !env.leader || !env.hasLister then Outcome(s, true, false, false, 0, {})
    else if !env.hasEngine then Outcome(s, false, false, false, 0, {})
    else
      var p := Prepare(cfg, s, env);
      if p.Aborted? then Outcome(p.s, false, false, p.reset, 0, {})
      else
        var sc := Scope(cfg.hasStore, p.signature, env.listing.value, cfg.hasReporter);
        var blocks := Eligible(env.order, cfg.hasStore, p.frontier, p.s.completed, {});
        var r := ScanBlocks(sc, Start(p), blocks, env.firstSave, env.at, false);
        Outcome(Sched(r.completed, r.store), !r.failed, true, p.reset, p.frontier, r.cleared)
  }

  function Start(p: Prepared): Run
    requires p.Prepared?
  {
    Run(p.frontier, p.s.completed, p.s.store, {}, false, false)
  }

  // ------------------------------------------------------------ over all runs

  /** Which Block was cleared under which signature, since the last reset. */
  type History = set<(uint64, string)>

  function Recorded(hist: History, o: Outcome): History
  {
    (if o.reset then {} else hist) + (set b | b in o.cleared :: (b, o.s.store.signature))
  }

  /** Every completed Block above the frontier was cleared under the stored signature. */
  ghost predicate Faithful(cfg: Config, s: Sched, hist: History)
  {
    cfg.hasStore ==> forall b :: b in s.completed && b > s.store.frontier ==> (b, s.store.signature) in hist
  }

  /** The two saves whose failure must not land after all: those that send the frontier to 0. */
  predicate Benign(env: RunEnv)
  {
    && (env.resetSave.NotSaved? ==> !env.resetSave.landed)
    && (env.reconcileSave.NotSaved? ==> !env.reconcileSave.landed)
  }

  /** The stored frontier only moves past listed Blocks that have been cleared
      since the last reset; without a scan it stays or falls back to 0. */
  ghost predicate FrontierSafe(cfg: Config, s: Sched, env: RunEnv, hist: History)
  {
    var o := OneRun(cfg, s, env);
    cfg.hasStore ==>
      && (!o.ran ==> o.s.store == s.store || o.s.store.frontier == 0)
      && (o.ran ==>
            && o.base == (if o.reset then 0 else s.store.frontier) <= o.s.store.frontier
            && forall b :: b in env.listing.value && o.base < b.id <= o.s.store.frontier ==>
                 (b.id, o.s.store.signature) in Recorded(hist, o))
  }

  lemma OrderIsListing(env: RunEnv)
    requires ValidEnv(env) && env.listing.Some?
    ensures forall b :: b in env.order <==> b in env.listing.value
  {
    forall b ensures b in env.order <==> b in env.listing.value {
      assert b in multiset(env.order) <==> b in multiset(env.listing.value);
    }
  }

  lemma PreparedFacts(cfg: Config, s: Sched, env: RunEnv)
    ensures var p := Prepare(cfg, s, env);
            && (p.Prepared? ==> env.listing.Some?)
            && (p.Prepared? && cfg.hasStore ==>
                  && p.s.store == Progress(p.frontier, p.signature)
                  && p.frontier == (if p.reset then 0 else s.store.frontier)
                  && (env.listing.value != [] ==> p.frontier <= MaxListed(env.listing.value))
                  && (p.reset ==> p.s.completed == {})
                  && (!p.reset ==> p.s == s))
            && (p.Prepared? && !cfg.hasStore ==> p.s == s && !p.reset)
            && (p.Aborted? ==> p.s.store == s.store || p.s.store.frontier == 0)
            && (p.Aborted? && Benign(env) ==> if p.reset then p.s.completed == {} else p.s == s)
            && (p.Aborted? ==> p.s.completed <= s.completed)
            && (p.Aborted? && !cfg.hasStore ==> p.s == s)
  {
    hide ValidSignature;
  }

  /** The state a scanning run starts from. */
  lemma StartKept(cfg: Config, s: Sched, env: RunEnv, good: set<uint64>)
    requires ValidEnv(env) && Prepare(cfg, s, env).Prepared?
    requires Prepare(cfg, s, env).s.completed <= good
    ensures var p := Prepare(cfg, s, env);
            var sc := Scope(cfg.hasStore, p.signature, env.listing.value, cfg.hasReporter);
            var blocks := Eligible(env.order, cfg.hasStore, p.frontier, p.s.completed, {});
            var first := Persist(sc, Start(p), true, env.firstSave);
            Kept(sc, first, p.frontier, good, blocks)
  {
    hide Prepare, Persist, Eligible, ValidEnv;
    PreparedFacts(cfg, s, env);
    var p := Prepare(cfg, s, env);
    var sc := Scope(cfg.hasStore, p.signature, env.listing.value, cfg.hasReporter);
    var blocks := Eligible(env.order, cfg.hasStore, p.frontier, p.s.completed, {});
    OrderIsListing(env);
    EligibleFacts(env.order, cfg.hasStore, p.frontier, p.s.completed, {});
    assert Safe(sc, Start(p), p.frontier, good);
    assert Pending(sc, Start(p), blocks);
    assert Covered(sc, Start(p), blocks);
    PersistSafe(sc, Start(p), p.frontier, good, true, env.firstSave);
    PersistTidy(sc, Start(p), true, env.firstSave);
    PersistPending(sc, Start(p), blocks, env.firstSave);
  }

  /** A scanning run, seen from outside: safe, and complete when nothing failed. */
  lemma ScanningRun(cfg: Config, s: Sched, env: RunEnv, good: set<uint64>)
    requires ValidEnv(env) && OneRun(cfg, s, env).ran && Prepare(cfg, s, env).s.completed <= good
    ensures var o := OneRun(cfg, s, env);
            && o.s.completed <= good + o.cleared
            && (cfg.hasStore ==>
                  && o.base <= o.s.store.frontier && o.s.store.signature == Prepare(cfg, s, env).signature
                  && (forall b :: b in env.listing.value && o.base < b.id <= o.s.store.frontier ==> b.id in good + o.cleared)
                  && (o.ok && env.listing.value != [] ==> o.s.store.frontier == MaxListed(env.listing.value)))
  {
    hide Prepare, Persist, Eligible, ValidEnv, ScanLoop;
    PreparedFacts(cfg, s, env);
    StartKept(cfg, s, env, good);
    var p := Prepare(cfg, s, env);
    var sc := Scope(cfg.hasStore, p.signature, env.listing.value, cfg.hasReporter);
    var blocks := Eligible(env.order, cfg.hasStore, p.frontier, p.s.completed, {});
    var first := Persist(sc, Start(p), true, env.firstSave);
    LoopKeeps(sc, first, p.frontier, good, blocks, env.at);
    FirstStops(sc, p, env.firstSave);
    var r := ScanBlocks(sc, Start(p), blocks, env.firstSave, env.at, false);
    if cfg.hasStore && !r.failed && env.listing.value != [] {
      FullyAdvanced(sc, r);
      FrontierBounded(sc, Start(p), blocks, env.firstSave, env.at);
    }
  }

  lemma FirstStops(sc: Scope, p: Prepared, save: SaveOutcome)
    requires p.Prepared?
    ensures !Persist(sc, Start(p), true, save).failed ==> !Persist(sc, Start(p), true, save).stopped
  {
  }

  lemma FullyAdvanced(sc: Scope, r: Run)
    requires sc.enabled && !r.failed && Tidy(sc, r) && Covered(sc, r, [])
    ensures r.frontier >= MaxListed(sc.listing)
  {
  }

  lemma {:induction false} LoopBounded(sc: Scope, r: Run, blocks: seq<Block>, env: uint64 -> BlockEnv)
    requires r.frontier <= MaxListed(sc.listing)
    ensures ScanLoop(sc, r, blocks, env, false).frontier <= MaxListed(sc.listing)
    decreases |blocks|
  {
    if blocks != [] && !r.stopped && env(blocks[0].id).proceeds {
      LoopBounded(sc, TryScanBlock(sc, r, blocks[0], env(blocks[0].id), false), blocks[1..], env);
    }
  }

  lemma FrontierBounded(sc: Scope, r: Run, blocks: seq<Block>, save: SaveOutcome, env: uint64 -> BlockEnv)
    requires r.frontier <= MaxListed(sc.listing)
    ensures ScanBlocks(sc, r, blocks, save, env, false).frontier <= MaxListed(sc.listing)
  {
    LoopBounded(sc, Persist(sc, r, true, save), blocks, env);
  }

  /** A run that ends without error leaves the frontier at the highest listed ID. */
  lemma ErrorFreeRunAdvances(cfg: Config, s: Sched, env: RunEnv)
    requires cfg.hasStore && ValidEnv(env) && OneRun(cfg, s, env).ran && OneRun(cfg, s, env).ok
    requires env.listing.value != []
    ensures OneRun(cfg, s, env).s.store.frontier == MaxListed(env.listing.value)
  {
    hide OneRun, ValidEnv;
    ScanningRun(cfg, s, env, Prepare(cfg, s, env).s.completed);
  }

  /** One Block's engine, reports and save all succeed. */
  ghost predicate Succeeds(e: BlockEnv, hasReporter: bool)
  {
    && e.proceeds && e.save.Saved? && e.engine.EngineResult? && ValidResult(e.engine.detected, e.engine.detections)
    && (e.engine.detections != [] ==> hasReporter && forall n: nat :: n < BatchCount(|e.engine.detections|) ==> e.report(n).Accepted?)
  }

  /** Everything a run depends on succeeds: leadership, load, signature, listing, saves and the
      scan and report of every listed Block. */
  ghost predicate AllSucceed(cfg: Config, s: Sched, env: RunEnv)
  {
    && cfg.hasStore && env.leader && env.hasLister && env.hasEngine && env.loadOk
    && ValidSignature(s.store.signature) && env.signature.Some? && ValidSignature(env.signature.value)
    && env.resetSave.Saved? && env.reconcileSave.Saved? && env.firstSave.Saved?
    && env.listing.Some? && env.listing.value != []
    && forall b :: b in env.listing.value ==> Succeeds(env.at(b.id), cfg.hasReporter)
  }

  lemma {:induction false} LoopSucceeds(sc: Scope, r: Run, blocks: seq<Block>, env: uint64 -> BlockEnv)
    requires !r.failed && !r.stopped && forall b :: b in blocks ==> Succeeds(env(b.id), sc.hasReporter)
    ensures !ScanLoop(sc, r, blocks, env, false).failed
    decreases |blocks|
  {
    hide Advance, FullPrune, DeltaPrune;
    if blocks != [] {
      assert blocks[0] in blocks && Succeeds(env(blocks[0].id), sc.hasReporter);
      assert ScanOne(env(blocks[0].id), sc.hasReporter) == ScanOk;
      LoopSucceeds(sc, TryScanBlock(sc, r, blocks[0], env(blocks[0].id), false), blocks[1..], env);
    }
  }

  /** A run in which everything succeeds ends without error, with the saved frontier at the
      highest listed ID. */
  lemma RunCompletes(cfg: Config, s: Sched, env: RunEnv)
    requires ValidEnv(env) && AllSucceed(cfg, s, env)
    ensures var o := OneRun(cfg, s, env); o.ran && o.ok && o.s.store.frontier == MaxListed(env.listing.value)
  {
    hide ValidSignature, MaxListed, Advance, FullPrune, DeltaPrune, Eligible, ScanLoop, Succeeds, ValidEnv;
    var p := Prepare(cfg, s, env);
    assert p.Prepared?;
    var sc := Scope(cfg.hasStore, p.signature, env.listing.value, cfg.hasReporter);
    var blocks := Eligible(env.order, cfg.hasStore, p.frontier, p.s.completed, {});
    OrderIsListing(env);
    EligibleFacts(env.order, cfg.hasStore, p.frontier, p.s.completed, {});
    LoopSucceeds(sc, Persist(sc, Start(p), true, env.firstSave), blocks, env.at);
    ErrorFreeRunAdvances(cfg, s, env);
  }

  /** Every run keeps the completed set faithful and the frontier safe, whatever
      fails in it. */
  lemma RunIsSafe(cfg: Config, s: Sched, env: RunEnv, hist: History)
    requires ValidEnv(env) && Benign(env) && Faithful(cfg, s, hist)
    ensures FrontierSafe(cfg, s, env, hist)
    ensures Faithful(cfg, OneRun(cfg, s, env).s, Recorded(hist, OneRun(cfg, s, env)))
  {
    hide ValidEnv, ScanBlocks, Prepare, Eligible;
    PreparedFacts(cfg, s, env);
    var o := OneRun(cfg, s, env);
    if o.ran {
      var good := Prepare(cfg, s, env).s.completed;
      ScanningRun(cfg, s, env, good);
      assert cfg.hasStore ==> forall b :: b in good + o.cleared && b > o.s.store.frontier ==> (b, o.s.store.signature) in Recorded(hist, o);
    }
  }

  datatype Event = RunEvent(env: RunEnv) | Restart

  function After(cfg: Config, s: Sched, e: Event): Sched
  {
    match e case RunEvent(env) => OneRun(cfg, s, env).s case Restart => Sched({}, s.store)
  }

  function HistoryAfter(cfg: Config, s: Sched, hist: History, e: Event): History
  {
    match e case RunEvent(env) => Recorded(hist, OneRun(cfg, s, env)) case Restart => hist
  }

  /** Every run of a sequence of runs and restarts is frontier-safe. */
  ghost predicate AlwaysSafe(cfg: Config, s: Sched, hist: History, events: seq<Event>)
    decreases |events|
  {
    events != [] ==>
      && (events[0].RunEvent? ==> FrontierSafe(cfg, s, events[0].env, hist))
      && AlwaysSafe(cfg, After(cfg, s, events[0]), HistoryAfter(cfg, s, hist, events[0]), events[1..])
  }

  /** Over all runs and restarts, from the first start on, the frontier never
      moves past a listed Block that was not cleared since the last reset. */
  lemma {:induction false} FrontierNeverSkips(cfg: Config, s: Sched, hist: History, events: seq<Event>)
    requires Faithful(cfg, s, hist)
    requires forall e :: e in events && e.RunEvent? ==> ValidEnv(e.env) && Benign(e.env)
    ensures AlwaysSafe(cfg, s, hist, events)
    decreases |events|
  {
    hide FrontierSafe, OneRun, Recorded, ValidEnv, Benign;
    if events != [] {
      assert events[0] in events;
      if events[0].RunEvent? {
        RunIsSafe(cfg, s, events[0].env, hist);
      }
      FrontierNeverSkips(cfg, After(cfg, s, events[0]), HistoryAfter(cfg, s, hist, events[0]), events[1..]);
    }
  }

  // --------------------------------------- the save whose failure must not land

  const QUIET: BlockEnv := BlockEnv(true, EngineResult(false, []), n => Accepted, Saved)

  function SampleEnv(signature: string, resetSave: SaveOutcome, listing: seq<Block>): RunEnv
  {
    RunEnv(true, true, true, true, Some(signature), resetSave, Some(listing), listing, Saved, Saved, id => QUIET)
  }

  /** If a reset save fails but lands, the next run finds the new signature
      stored, keeps the old completed set, and moves past Blocks never scanned
      under the new signature: Block 2 here, completed under "a". */
  lemma LandedResetSkips()
    ensures var cfg := Config(true, true);
            var s := Sched({2}, Progress(0, "a"));
            var listing := [Block(1, false), Block(2, false)];
            var failedReset := OneRun(cfg, s, SampleEnv("b", NotSaved(true, false), listing));
            var o := OneRun(cfg, failedReset.s, SampleEnv("b", Saved, listing));
            && Faithful(cfg, s, {(2, "a")})
            && !failedReset.ok && o.ok && !o.reset
            && o.s.store == Progress(2, "b") && 2 !in o.cleared
  {
    var cfg := Config(true, true);
    var s := Sched({2}, Progress(0, "a"));
    var listing := [Block(1, false), Block(2, false)];
    hide OneRun;
    SampleFailedReset(cfg, s, listing);
    SampleSecondRun(cfg, Sched({2}, Progress(0, "b")), listing);
  }

  lemma SampleFailedReset(cfg: Config, s: Sched, listing: seq<Block>)
    requires cfg == Config(true, true) && s == Sched({2}, Progress(0, "a")) && listing == [Block(1, false), Block(2, false)]
    ensures var o := OneRun(cfg, s, SampleEnv("b", NotSaved(true, false), listing));
            !o.ok && o.s == Sched({2}, Progress(0, "b"))
  {
    hide ScanBlocks, Eligible, Reconcile;
    SampleListing(listing);
  }

  lemma SampleSecondRun(cfg: Config, s: Sched, listing: seq<Block>)
    requires cfg == Config(true, true) && s == Sched({2}, Progress(0, "b")) && listing == [Block(1, false), Block(2, false)]
    ensures var o := OneRun(cfg, s, SampleEnv("b", Saved, listing));
            o.ok && !o.reset && o.s.store == Progress(2, "b") && o.cleared == {1}
  {
    hide ScanBlocks, Eligible, Prepare;
    var env := SampleEnv("b", Saved, listing);
    SamplePrepared(cfg, s, listing);
    SampleEligible(listing);
    SampleScan(Scope(true, "b", listing, true), Run(0, {2}, Progress(0, "b"), {}, false, false), env);
  }

  lemma SamplePrepared(cfg: Config, s: Sched, listing: seq<Block>)
    requires cfg == Config(true, true) && s == Sched({2}, Progress(0, "b")) && listing == [Block(1, false), Block(2, false)]
    ensures Prepare(cfg, s, SampleEnv("b", Saved, listing)) == Prepared(s, 0, "b", false)
  {
    SampleListing(listing);
  }

  lemma SampleEligible(listing: seq<Block>)
    requires listing == [Block(1, false), Block(2, false)]
    ensures Eligible(listing, true, 0, {2}, {}) == [Block(1, false)]
  {
    assert listing[1..] == [Block(2, false)] && listing[1..][1..] == [];
    assert Eligible(listing[1..], true, 0, {2}, {} + {1}) == [];
  }

  lemma SampleScan(sc: Scope, start: Run, env: RunEnv)
    requires sc == Scope(true, "b", [Block(1, false), Block(2, false)], true)
    requires start == Run(0, {2}, Progress(0, "b"), {}, false, false) && env == SampleEnv("b", Saved, sc.listing)
    ensures var r := ScanBlocks(sc, start, [Block(1, false)], env.firstSave, env.at, false);
            r.store == Progress(2, "b") && r.cleared == {1} && !r.failed
  {
    var blocks := [Block(1, false)];
    assert blocks[1..] == [];
    SampleListing(sc.listing);
    var first := Persist(sc, start, true, Saved);
    assert first == start;
    SampleTry(sc, start);
  }

  lemma SampleTry(sc: Scope, start: Run)
    requires sc == Scope(true, "b", [Block(1, false), Block(2, false)], true)
    requires start == Run(0, {2}, Progress(0, "b"), {}, false, false)
    ensures var r := TryScanBlock(sc, start, Block(1, false), QUIET, false);
            r.store == Progress(2, "b") && r.cleared == {1} && !r.failed && !r.stopped
  {
    SampleListing(sc.listing);
    assert ScanOne(QUIET, true) == ScanOk;
    assert start.completed + {1} == {1, 2};
    assert Advance(0, {1, 2}, {1, 2}, 2) == Advance(1, {1, 2}, {1, 2}, 2) == Advance(2, {1, 2}, {1, 2}, 2) == 2;
  }

  lemma SampleListing(listing: seq<Block>)
    requires listing == [Block(1, false), Block(2, false)]
    ensures Ids(listing) == {1, 2} && RestoredIds(listing) == {} && MaxListed(listing) == 2
    ensures ValidSignature("a") && ValidSignature("b")
  {
    assert Block(1, false) in listing && Block(2, false) in listing;
    assert listing[1..] == [Block(2, false)];
    assert MaxListed(listing[1..][1..]) == 0;
  }

  /** A run that is about to reset the stored progress for a new signature. */
  predicate Resets(cfg: Config, s: Sched, env: RunEnv)
  {
    && Loads(cfg, s, env) && env.signature.value != s.store.signature
  }

  /** A run that is about to send the frontier back because it lies above every listed Block. */
  predicate FallsBack(cfg: Config, s: Sched, env: RunEnv)
  {
    && Loads(cfg, s, env) && env.signature.value == s.store.signature
    && env.listing.Some? && env.listing.value != [] && s.store.frontier > MaxListed(env.listing.value)
  }

  predicate Loads(cfg: Config, s: Sched, env: RunEnv)
  {
    && env.leader && env.hasLister && env.hasEngine && cfg.hasStore && env.loadOk
    && ValidSignature(s.store.signature) && env.signature.Some? && ValidSignature(env.signature.value)
  }

  predicate LandsAfterAll(o: SaveOutcome) { o.NotSaved? && o.landed }

  /** The failing family: the save that sends the frontier to 0 reports failure and lands. */
  predicate Stranded(cfg: Config, s: Sched, env: RunEnv)
  {
    (Resets(cfg, s, env) && LandsAfterAll(env.resetSave)) || (FallsBack(cfg, s, env) && LandsAfterAll(env.reconcileSave))
  }

  lemma StrandedRun(cfg: Config, s: Sched, env: RunEnv)
    requires Stranded(cfg, s, env)
    ensures var o := OneRun(cfg, s, env);
            !o.ran && o.reset && o.cleared == {} && o.s == Sched(s.completed, Progress(0, env.signature.value))
  {
    hide ValidSignature, ScanBlocks, Eligible, MaxListed;
  }

  /** Otherwise the run does what it would do if those saves had succeeded or been lost. */
  lemma CalmRun(cfg: Config, s: Sched, env: RunEnv)
    requires !Stranded(cfg, s, env)
    ensures var calm := env.(resetSave := if LandsAfterAll(env.resetSave) then Saved else env.resetSave,
                             reconcileSave := if LandsAfterAll(env.reconcileSave) then Saved else env.reconcileSave);
            Benign(calm) && (ValidEnv(env) ==> ValidEnv(calm)) && OneRun(cfg, s, calm) == OneRun(cfg, s, env)
  {
    hide ValidSignature, ScanBlocks, Eligible, MaxListed;
  }

  /** A run keeps the completed set faithful if and only if it is not stranded, or nothing was
      completed when it began. */
  lemma FaithfulExactly(cfg: Config, s: Sched, env: RunEnv, hist: History)
    requires ValidEnv(env) && Faithful(cfg, s, hist)
    ensures Faithful(cfg, OneRun(cfg, s, env).s, Recorded(hist, OneRun(cfg, s, env)))
            <==> !Stranded(cfg, s, env) || s.completed <= {0}
  {
    hide ValidEnv, OneRun, Stranded;
    if Stranded(cfg, s, env) {
      StrandedRun(cfg, s, env);
      assert cfg.hasStore by { StrandedHasStore(cfg, s, env); }
    } else {
      CalmRun(cfg, s, env);
      var calm := env.(resetSave := if LandsAfterAll(env.resetSave) then Saved else env.resetSave,
                       reconcileSave := if LandsAfterAll(env.reconcileSave) then Saved else env.reconcileSave);
      RunIsSafe(cfg, s, calm, hist);
    }
  }

  lemma StrandedHasStore(cfg: Config, s: Sched, env: RunEnv)
    requires Stranded(cfg, s, env)
    ensures cfg.hasStore && ValidSignature(env.signature.value)
  {
  }

  // -------------------------------------------- exactly when later runs are safe

  /** A run that finds the stored signature current, lists `listing` and scans without incident. */
  function CalmEnv(s: Sched, listing: seq<Block>): RunEnv
  {
    RunEnv(true, true, true, true, Some(s.store.signature), Saved, Some(listing), listing, Saved, Saved, id => QUIET)
  }

  lemma OneBlockListing(b: uint64)
    ensures Ids([Block(b, false)]) == {b} && MaxListed([Block(b, false)]) == b && RestoredIds([Block(b, false)]) == {}
  {
    assert Block(b, false) in [Block(b, false)];
    assert [Block(b, false)][1..] == [];
  }

  /** Listing only a completed Block above the frontier moves the frontier onto it unscanned. */
  lemma PassesCompleted(cfg: Config, s: Sched, b: uint64)
    requires cfg.hasStore && ValidSignature(s.store.signature) && b in s.completed && b > s.store.frontier
    ensures var env := CalmEnv(s, [Block(b, false)]);
            var o := OneRun(cfg, s, env);
            && ValidEnv(env) && Benign(env)
            && o.ran && !o.reset && o.base == s.store.frontier && o.cleared == {} && o.s.store == Progress(b, s.store.signature)
  {
    hide ValidSignature, Ids, RestoredIds, MaxListed;
    var listing := [Block(b, false)];
    OneBlockListing(b);
    var env := CalmEnv(s, listing);
    assert Prepare(cfg, s, env) == Prepared(s, s.store.frontier, s.store.signature, false);
    assert listing[1..] == [];
    assert Eligible(listing, true, s.store.frontier, s.completed, {}) == [];
    var f := Advance(s.store.frontier, s.completed, {b}, b);
    assert f == b;
  }

  /** Every next run is frontier-safe if and only if every completed Block above the frontier
      was cleared under the stored signature. */
  lemma NextRunSafeExactly(cfg: Config, s: Sched, hist: History)
    requires cfg.hasStore && ValidSignature(s.store.signature)
    ensures (forall env :: ValidEnv(env) && Benign(env) ==> FrontierSafe(cfg, s, env, hist)) <==> Faithful(cfg, s, hist)
  {
    hide ValidEnv, OneRun, ValidSignature, Benign, FrontierSafe;
    if Faithful(cfg, s, hist) {
      forall env | ValidEnv(env) && Benign(env)
        ensures FrontierSafe(cfg, s, env, hist)
      {
        RunIsSafe(cfg, s, env, hist);
      }
    } else {
      var b :| b in s.completed && b > s.store.frontier && (b, s.store.signature) !in hist;
      SkippedNext(cfg, s, hist, b);
    }
  }

  lemma SkippedNext(cfg: Config, s: Sched, hist: History, b: uint64)
    requires cfg.hasStore && ValidSignature(s.store.signature) && b in s.completed && b > s.store.frontier
    requires (b, s.store.signature) !in hist
    ensures var env := CalmEnv(s, [Block(b, false)]);
            ValidEnv(env) && Benign(env) && !FrontierSafe(cfg, s, env, hist)
  {
    hide ValidSignature, OneRun, ValidEnv, Benign;
    PassesCompleted(cfg, s, b);
    assert Block(b, false) in CalmEnv(s, [Block(b, false)]).listing.value;
  }

  ghost predicate ValidEvents(events: seq<Event>)
  {
    forall e :: e in events && e.RunEvent? ==> ValidEnv(e.env) && Benign(e.env)
  }

  /** And so is every sequence of runs and restarts from here on. */
  lemma AlwaysSafeExactly(cfg: Config, s: Sched, hist: History)
    requires cfg.hasStore && ValidSignature(s.store.signature)
    ensures (forall events :: ValidEvents(events) ==> AlwaysSafe(cfg, s, hist, events)) <==> Faithful(cfg, s, hist)
  {
    hide ValidSignature, OneRun, FrontierSafe, ValidEnv, Benign;
    if Faithful(cfg, s, hist) {
      forall events | ValidEvents(events)
        ensures AlwaysSafe(cfg, s, hist, events)
      {
        FrontierNeverSkips(cfg, s, hist, events);
      }
    } else {
      var b :| b in s.completed && b > s.store.frontier && (b, s.store.signature) !in hist;
      SkippedNext(cfg, s, hist, b);
      var run := [RunEvent(CalmEnv(s, [Block(b, false)]))];
      assert ValidEvents(run) && !AlwaysSafe(cfg, s, hist, run);
    }
  }

  /** After a save that failed but landed, every later sequence is safe if and only if no Block
      was completed when the run began. */
  lemma LandedSaveExactly(cfg: Config, s: Sched, env: RunEnv, hist: History)
    requires Stranded(cfg, s, env)
    ensures var o := OneRun(cfg, s, env);
            (forall events :: ValidEvents(events) ==> AlwaysSafe(cfg, o.s, Recorded(hist, o), events)) <==> s.completed <= {0}
  {
    hide Stranded, OneRun, ValidSignature, AlwaysSafe, ValidEvents;
    StrandedRun(cfg, s, env);
    StrandedHasStore(cfg, s, env);
    var o := OneRun(cfg, s, env);
    AlwaysSafeExactly(cfg, o.s, Recorded(hist, o));
  }

  /** An instance for the frontier that falls back: Block 2 was completed at frontier 3. */
  lemma LandedFallBackSkips()
    ensures var cfg := Config(true, true);
            var s := Sched({2}, Progress(3, "a"));
            var env := CalmEnv(s, [Block(2, true)]).(reconcileSave := NotSaved(true, false));
            var o := OneRun(cfg, s, env);
            && ValidEnv(env) && Stranded(cfg, s, env)
            && exists events :: ValidEvents(events) && !AlwaysSafe(cfg, o.s, Recorded({(2, "a")}, o), events)
  {
    hide OneRun, AlwaysSafe, ValidEvents;
    var cfg, s := Config(true, true), Sched({2}, Progress(3, "a"));
    var env := CalmEnv(s, [Block(2, true)]).(reconcileSave := NotSaved(true, false));
    assert [Block(2, true)][1..] == [];
    assert MaxListed([Block(2, true)]) == 2;
    assert 2 in s.completed;
    LandedSaveExactly(cfg, s, env, {(2, "a")});
  }

  // ------------------------------------------------------------- the programs

  class ProgressStore {
    var progress: Progress

    constructor (progress: Progress)
      ensures this.progress == progress
    {
      this.progress := progress;
    }

    method Save(p: Progress, o: SaveOutcome) returns (ok: bool)
      modifies this
      ensures progress == StoreAfter(old(progress), p, o) && ok == o.Saved?
    {
      if o.Saved? || o.landed {
        progress := p;
      }
      ok := o.Saved?;
    }
  }

  class Reporter {
    /** The batches accepted so far, each with the Block it concerns. */
    var batches: seq<(uint64, seq<Detection>)>

    constructor ()
      ensures batches == []
    {
      batches := [];
    }

    method Report(id: uint64, batch: seq<Detection>, answer: ReportAnswer) returns (ok: bool)
      modifies this
      ensures ok == answer.Accepted?
      ensures batches == if ok then old(batches) + [(id, batch)] else old(batches)
    {
      ok := answer.Accepted?;
      if ok {
        batches := batches + [(id, batch)];
      }
    }
  }

  /** The detections of a list of batches for one Block. */
  function Delivered(batches: seq<(uint64, seq<Detection>)>): seq<Detection>
  {
    if batches == [] then [] else Delivered(batches[..|batches| - 1]) + batches[|batches| - 1].1
  }

  predicate AllFor(batches: seq<(uint64, seq<Detection>)>, id: uint64)
  {
    forall i :: 0 <= i < |batches| ==> batches[i].0 == id && |batches[i].1| <= MAX_DETECTIONS_PER_BLOCK
  }

  lemma BatchesLeft(n: nat, k: nat)
    ensures k < BatchCount(n) <==> k * MAX_DETECTIONS_PER_BLOCK < n
  {
  }

  lemma RefusalStep(report: nat -> ReportAnswer, k: nat, n: nat)
    requires k < n
    ensures FirstRefusal(report, k, n) == if report(k).Refused? then k else FirstRefusal(report, k + 1, n)
  {
  }

  lemma NothingDelivered(id: uint64)
    ensures Delivered([]) == [] && AllFor([], id)
  {
  }

  lemma DeliveredSnoc(batches: seq<(uint64, seq<Detection>)>, id: uint64, batch: seq<Detection>)
    ensures Delivered(batches + [(id, batch)]) == Delivered(batches) + batch
    ensures AllFor(batches, id) && |batch| <= MAX_DETECTIONS_PER_BLOCK ==> AllFor(batches + [(id, batch)], id)
  {
    assert (batches + [(id, batch)])[..|batches|] == batches;
  }

  /** Behind the earlier batches exactly these detections went out, for one Block. */
  ghost predicate Sent(was: seq<(uint64, seq<Detection>)>, batches: seq<(uint64, seq<Detection>)>, id: uint64,
                       detections: seq<Detection>)
  {
    was <= batches && AllFor(batches[|was|..], id) && Delivered(batches[|was|..]) == detections
  }

  lemma SentMore(was: seq<(uint64, seq<Detection>)>, batches: seq<(uint64, seq<Detection>)>, id: uint64,
                 all: seq<Detection>, start: nat, end: nat)
    requires start <= end <= |all| && end - start <= MAX_DETECTIONS_PER_BLOCK && Sent(was, batches, id, all[..start])
    ensures Sent(was, batches + [(id, all[start..end])], id, all[..end])
  {
    hide Delivered, AllFor;
    var batch := all[start..end];
    DeliveredSnoc(batches[|was|..], id, batch);
    assert (batches + [(id, batch)])[|was|..] == batches[|was|..] + [(id, batch)];
    assert all[..end] == all[..start] + batch;
  }

  lemma SentMeans(was: seq<(uint64, seq<Detection>)>, batches: seq<(uint64, seq<Detection>)>, id: uint64,
                  detections: seq<Detection>)
    requires Sent(was, batches, id, detections)
    ensures was <= batches && AllFor(batches[|was|..], id) && Delivered(batches[|was|..]) == detections
  {
  }

  lemma SentNothing(was: seq<(uint64, seq<Detection>)>, id: uint64)
    ensures Sent(was, was, id, [])
  {
    assert was[|was|..] == [];
  }

  /** The progress a run carries from Block to Block. */
  class RunState {
    const enabled: bool
    const signature: string
    const listed: set<uint64>
    const restored: set<uint64>
    const maxListed: uint64
    var frontier: uint64

    constructor (sc: Scope, frontier: uint64)
      ensures this.frontier == frontier && For(sc)
    {
      enabled, signature := sc.enabled, sc.signature;
      listed, restored, maxListed := Ids(sc.listing), RestoredIds(sc.listing), MaxListed(sc.listing);
      this.frontier := frontier;
    }

    predicate For(sc: Scope)
    {
      && enabled == sc.enabled && signature == sc.signature
      && listed == Ids(sc.listing) && restored == RestoredIds(sc.listing) && maxListed == MaxListed(sc.listing)
    }
  }

  class ScanScheduler {
    const cfg: Config
    const store: ProgressStore
    const reporter: Reporter
    var completed: set<uint64>

    constructor (cfg: Config, store: ProgressStore, reporter: Reporter)
      ensures this.cfg == cfg && this.store == store && this.reporter == reporter && completed == {}
    {
      this.cfg, this.store, this.reporter, this.completed := cfg, store, reporter, {};
    }

    function State(): Sched
      reads this, store
    {
      Sched(completed, store.progress)
    }

    /** pruneCompletedLocked */
    method PruneCompleted(id: uint64, state: RunState)
      modifies this
      ensures completed == if id <= state.frontier && id !in state.restored then old(completed) - {id} else old(completed)
    {
      if id > state.frontier || id in state.restored {
        return;
      }
      completed := completed - {id};
    }

    method MoveFrontier(state: RunState)
      modifies state`frontier
      ensures state.frontier == Advance(old(state.frontier), completed, state.listed, state.maxListed)
    {
      while state.frontier < state.maxListed
        invariant Advance(old(state.frontier), completed, state.listed, state.maxListed)
               == Advance(state.frontier, completed, state.listed, state.maxListed)
        decreases state.maxListed - state.frontier
      {
        var next := state.frontier + 1;
        if next !in completed && next in state.listed {
          return;
        }
        state.frontier := next;
      }
    }

    /** The delta loop counts in uint64: it ends at the frontier, or when the
        counter wraps to zero behind the highest ID. */
    method AdvanceProgressFrontier(state: RunState, full: bool)
      modifies this, state`frontier
      ensures state.frontier == Advance(old(state.frontier), old(completed), state.listed, state.maxListed)
      ensures completed == if full then FullPrune(old(completed), state.frontier, state.restored)
                           else DeltaPrune(old(completed), old(state.frontier), state.frontier, state.restored)
    {
      var before := state.frontier;
      MoveFrontier(state);
      if full {
        Sweep(state);
        return;
      }
      var id: uint64 := Wrap64(before + 1);
      ghost var reached := state.frontier;
      while id != 0 && id <= state.frontier
        invariant state.frontier == reached
        invariant id == 0 ==> state.frontier == TWO_64 - 1
        invariant id != 0 ==> before < id <= state.frontier + 1
        invariant completed == DeltaPrune(old(completed), before, if id == 0 then state.frontier else id - 1, state.restored)
        decreases if id == 0 then 0 else TWO_64 - id
      {
        PruneCompleted(id, state);
        id := Wrap64(id + 1);
      }
    }

    /** Ranges over the completed set in any order. */
    method Sweep(state: RunState)
      modifies this
      ensures completed == FullPrune(old(completed), state.frontier, state.restored)
    {
      var todo := completed;
      while todo != {}
        invariant todo <= completed <= old(completed)
        invariant forall c :: c in old(completed) && c !in todo ==>
                    (c in completed <==> c > state.frontier || c in state.restored)
        decreases todo
      {
        var id :| id in todo;
        PruneCompleted(id, state);
        todo := todo - {id};
      }
    }

    method PersistAdvancedProgress(state: RunState, full: bool, save: SaveOutcome, ghost sc: Scope, ghost r: Run)
      returns (ok: bool)
      requires state.For(sc) && r.frontier == state.frontier && r.completed == completed && r.store == store.progress
      modifies this, state`frontier, store
      ensures var r' := Persist(sc, r, full, save);
              && r'.frontier == state.frontier && r'.completed == completed && r'.store == store.progress
              && r'.failed == (r.failed || !ok) && r'.stopped == (r.stopped || (!ok && save.NotSaved? && save.canceled))
    {
      hide Advance;
      if !state.enabled {
        return true;
      }
      var before := state.frontier;
      AdvanceProgressFrontier(state, full);
      if state.frontier == before {
        return true;
      }
      ok := store.Save(Progress(state.frontier, state.signature), save);
    }

    /** Reports in batches of bounded size, so that every hit of a Block is reported. */
    method ReportDetections(id: uint64, detected: bool, detections: seq<Detection>, e: BlockEnv) returns (r: ScanOutcome)
      requires e.engine == EngineResult(detected, detections)
      modifies reporter
      ensures r == ScanOne(e, cfg.hasReporter)
      ensures old(reporter.batches) <= reporter.batches
      ensures AllFor(reporter.batches[|old(reporter.batches)|..], id)
      ensures r == ScanOk ==> Delivered(reporter.batches[|old(reporter.batches)|..]) == detections
    {
      if !ValidResult(detected, detections) {
        return ScanBad(false);
      }
      if detections == [] {
        return ScanOk;
      }
      if !cfg.hasReporter {
        return ScanBad(false);
      }
      NothingDelivered(id);
      r := SendBatches(id, detections, e);
    }

    /** The reporting loop: batches in order until one is refused. */
    method SendBatches(id: uint64, detections: seq<Detection>, e: BlockEnv) returns (r: ScanOutcome)
      modifies reporter
      ensures var n := BatchCount(|detections|);
              var k := FirstRefusal(e.report, 0, n);
              r == if k < n then ScanBad(e.report(k).canceled) else ScanOk
      ensures old(reporter.batches) <= reporter.batches
      ensures AllFor(reporter.batches[|old(reporter.batches)|..], id)
      ensures r == ScanOk ==> Delivered(reporter.batches[|old(reporter.batches)|..]) == detections
    {
      hide Sent, BatchCount, FirstRefusal;
      var start, k := 0, 0;
      ghost var n := BatchCount(|detections|);
      ghost var was := reporter.batches;
      SentNothing(was, id);
      assert detections[..0] == [];
      while start < |detections|
        invariant start == k * MAX_DETECTIONS_PER_BLOCK && k <= n
        invariant FirstRefusal(e.report, 0, n) == FirstRefusal(e.report, k, n)
        invariant Sent(was, reporter.batches, id, detections[..if start < |detections| then start else |detections|])
        decreases n - k
      {
        BatchesLeft(|detections|, k);
        RefusalStep(e.report, k, n);
        var end := if start + MAX_DETECTIONS_PER_BLOCK < |detections| then start + MAX_DETECTIONS_PER_BLOCK else |detections|;
        SentMore(was, reporter.batches, id, detections, start, end);
        var ok := reporter.Report(id, detections[start..end], e.report(k));
        if !ok {
          SentMeans(was, reporter.batches, id, detections[..start]);
          return ScanBad(e.report(k).canceled);
        }
        start, k := start + MAX_DETECTIONS_PER_BLOCK, k + 1;
      }
      BatchesLeft(|detections|, k);
      assert detections[..|detections|] == detections;
      SentMeans(was, reporter.batches, id, detections);
      r := ScanOk;
    }

    /** scanOne: the Block counts as completed only once every detection is reported. */
    method ScanBlock(b: Block, e: BlockEnv) returns (r: ScanOutcome)
      modifies this, reporter
      ensures r == ScanOne(e, cfg.hasReporter)
      ensures completed == if r == ScanOk then old(completed) + {b.id} else old(completed)
      ensures r == ScanOk ==> e.engine.EngineResult? && old(reporter.batches) <= reporter.batches
                              && Delivered(reporter.batches[|old(reporter.batches)|..]) == e.engine.detections
    {
      match e.engine {
        case EngineFailed(fatal) => return ScanBad(fatal);
        case EngineResult(detected, detections) =>
          r := ReportDetections(b.id, detected, detections, e);
          if r == ScanOk {
            completed := completed + {b.id};
          }
      }
    }

    /** The run state as the specification sees it, but for the ghost flags. */
    ghost predicate Matches(state: RunState, r: Run)
      reads this, state, store
    {
      r.frontier == state.frontier && r.completed == completed && r.store == store.progress
    }

    method TryScan(b: Block, e: BlockEnv, state: RunState, ghost sc: Scope, ghost r: Run) returns (ok: bool, fatal: bool)
      requires state.For(sc) && sc.hasReporter == cfg.hasReporter && Matches(state, r) && !r.stopped
      modifies this, state`frontier, store, reporter
      ensures var r' := TryScanBlock(sc, r, b, e, false);
              Matches(state, r') && r'.failed == (r.failed || !ok) && r'.stopped == (!ok && fatal)
    {
      hide Persist, ScanOne;
      var scan := ScanBlock(b, e);
      if scan.ScanBad? {
        return false, scan.fatal;
      }
      ghost var r1 := r.(completed := r.completed + {b.id}, cleared := r.cleared + {b.id});
      ok := PersistAdvancedProgress(state, false, e.save, sc, r1);
      fatal := e.save.NotSaved? && e.save.canceled;
    }

    method ScanAll(blocks: seq<Block>, env: RunEnv, state: RunState, ghost sc: Scope, ghost r: Run)
      returns (ok: bool, ghost r': Run)
      requires state.For(sc) && sc.hasReporter == cfg.hasReporter && Matches(state, r) && !r.stopped && !r.failed
      modifies this, state`frontier, store, reporter
      ensures r' == ScanBlocks(sc, r, blocks, env.firstSave, env.at, false)
      ensures Matches(state, r') && ok == !r'.failed
    {
      hide Persist, TryScanBlock;
      ok := PersistAdvancedProgress(state, true, env.firstSave, sc, r);
      r' := Persist(sc, r, true, env.firstSave);
      if !ok {
        return;
      }
      ghost var first := r';
      var firstErr := false;
      var i := 0;
      assert blocks[0..] == blocks;
      while i < |blocks|
        invariant 0 <= i <= |blocks| && Matches(state, r') && r'.failed == firstErr && !r'.stopped
        invariant ScanLoop(sc, first, blocks, env.at, false) == ScanLoop(sc, r', blocks[i..], env.at, false)
      {
        var b := blocks[i];
        assert blocks[i..][1..] == blocks[i + 1..];
        var e := env.at(b.id);
        if !e.proceeds {
          r' := r'.(failed := true, stopped := true);
          return false, r';
        }
        var scanned, fatal := TryScan(b, e, state, sc, r');
        r' := TryScanBlock(sc, r', b, e, false);
        i := i + 1;
        if !scanned {
          firstErr := true;
          if fatal {
            return false, r';
          }
        }
      }
      ok := !firstErr;
    }

    method EligibleBlocks(order: seq<Block>, enabled: bool, frontier: uint64) returns (out: seq<Block>)
      ensures out == Eligible(order, enabled, frontier, completed, {})
    {
      hide Eligible;
      out := [];
      var seen: set<uint64> := {};
      assert order[0..] == order;
      for i := 0 to |order|
        invariant Eligible(order, enabled, frontier, completed, {})
               == out + Eligible(order[i..], enabled, frontier, completed, seen)
      {
        var b := order[i];
        EligibleStep(order, i, enabled, frontier, completed, seen);
        if b.id in seen {
          assert seen + {b.id} == seen;
          continue;
        }
        seen := seen + {b.id};
        if enabled && b.id <= frontier && !b.restored {
          continue;
        }
        if b.id in completed {
          continue;
        }
        out := out + [b];
      }
      EligibleStep(order, |order|, enabled, frontier, completed, seen);
    }

    /** prepareScanRun: progress, signature reset, listing, reconciliation. */
    method PrepareScanRun(env: RunEnv) returns (ok: bool, frontier: uint64, signature: string, ghost p: Prepared)
      modifies this, store
      ensures p == Prepare(cfg, old(State()), env) && State() == p.s
      ensures ok == p.Prepared?
      ensures ok ==> p.frontier == frontier && p.signature == signature && env.listing.Some?
    {
      hide ValidSignature;
      p := Prepare(cfg, State(), env);
      frontier, signature := 0, "";
      if cfg.hasStore {
        if !env.loadOk || !ValidSignature(store.progress.signature) {
          return false, 0, "", p;
        }
        if env.signature == None || !ValidSignature(env.signature.value) {
          return false, 0, "", p;
        }
        frontier, signature := store.progress.frontier, store.progress.signature;
        if env.signature.value != signature {
          ok := store.Save(Progress(0, env.signature.value), env.resetSave);
          if !ok {
            return false, 0, "", p;
          }
          frontier, signature := 0, env.signature.value;
          completed := {};
        }
      }
      if env.listing == None {
        return false, 0, "", p;
      }
      var listing := env.listing.value;
      if cfg.hasStore && listing != [] && frontier > MaxListed(listing) {
        ok := store.Save(Progress(0, signature), env.reconcileSave);
        if !ok {
          return false, 0, "", p;
        }
        frontier := 0;
        completed := {};
      }
      ok := true;
    }

    /** One run of the scheduler does what the specification says. */
    method RunOnce(env: RunEnv) returns (ok: bool)
      modifies this, store, reporter
      ensures State() == OneRun(cfg, old(State()), env).s
      ensures ok == OneRun(cfg, old(State()), env).ok
    {
      hide Prepare, ScanBlocks, Eligible;
      if !env.leader || !env.hasLister {
        return true;
      }
      if !env.hasEngine {
        return false;
      }
      var frontier, signature;
      ghost var p;
      ok, frontier, signature, p := PrepareScanRun(env);
      if !ok {
        return;
      }
      var blocks := EligibleBlocks(env.order, cfg.hasStore, frontier);
      var sc := Scope(cfg.hasStore, signature, env.listing.value, cfg.hasReporter);
      var state := new RunState(sc, frontier);
      ghost var r;
      ok, r := ScanAll(blocks, env, state, sc, Start(p));
    }
  }
}
