/** Eviction planning: a greedy choice of Blocks, oldest first, under two caps. */
module Planner {
  import opened Bytes
  import opened Collections

  const REASON_EVIDENCE_RUN := "evidence_run"
  const REPAIR_IDLE := "idle"
  const SKIP_SHARD_FILTER := "shard_filter"
  const SKIP_NOT_HOT := "local_state_not_hot"
  const SKIP_NO_DURABLE_COPY := "no_durable_copy"
  const SKIP_LEADER := "leader_hot_copy_required"
  const SKIP_RESIDENCY := "hot_residency_window"
  const SKIP_BOUNDS := "plan_bounds"

  /** int64 addition, wrapping. */
  function Add64(a: int64, b: int64): int64
  {
    WrapInt64(a + b)
  }

  lemma Add64Exact(a: int64, b: int64)
    ensures 0 <= a && 0 <= b && a + b <= MAX_INT64 ==> Add64(a, b) == a + b
  {
  }

  lemma Add64Wraps(a: int64, b: int64)
    requires 0 <= a && 0 <= b && a + b > MAX_INT64
    ensures Add64(a, b) == a + b - TWO_64 < 0
  {
  }

  lemma Add64Small(a: int64, b: int64)
    requires -1000 < a < 1000 && -1000 < b < 1000
    ensures Add64(a, b) == a + b
  {
  }

  datatype Candidate = Candidate(
    blockId: uint64, shardId: uint64, sizeBytes: int64, backendKey: string, confirmedAtUs: int64, restoredAtUs: int64,
    localState: string, localEvictable: bool, openReaders: int, repairState: string)

  datatype PlanBlock = PlanBlock(
    blockId: uint64, shardId: uint64, sizeBytes: int64, backendKey: string, confirmedAtUs: int64, restoredAtUs: int64,
    eligibleAtUs: int64, localState: string, openReaders: int, repairState: string, reason: string)

  datatype Bounds = Bounds(maxBlocks: int, maxBytes: int64)

  datatype Config = Config(
    windowUs: int64, ttlUs: int64, recommended: Bounds, maxValidateSamples: int)

  datatype Request = Request(
    hostname: string, reason: string, shardId: Option<uint64>, maxBlocks: Option<int>, maxBytes: Option<int64>)

  datatype Input = Input(
    request: Request, config: Config, memberHostname: string, memberId: string, nowUs: int64, planId: string,
    isLeader: bool, candidates: seq<Candidate>)

  datatype Plan = Plan(
    effective: Bounds, selected: seq<PlanBlock>, skipped: seq<PlanBlock>, skipCounts: map<string, nat>,
    candidateBlocks: nat, candidateBytes: int64, eligibleBlocks: nat, eligibleBytes: int64, selectedBytes: int64)

  predicate InputAccepted(x: Input)
  {
    && x.planId != "" && x.memberHostname != "" && x.memberId != "" && x.request.hostname != ""
    && x.request.hostname == x.memberHostname
    && (x.request.reason == "" || x.request.reason == REASON_EVIDENCE_RUN)
    && x.config.windowUs >= 0 && x.config.ttlUs > 0 && x.config.recommended.maxBlocks > 0
    && x.config.recommended.maxBytes > 0 && x.config.maxValidateSamples >= 0
  }

  /** planBounds: a request may only narrow the recommendation. */
  function EffectiveBounds(req: Request, rec: Bounds): (r: Option<Bounds>)
    ensures r.Some? && rec.maxBlocks > 0 && rec.maxBytes > 0 ==>
              0 < r.value.maxBlocks <= rec.maxBlocks && 0 < r.value.maxBytes <= rec.maxBytes
  {
    if (req.maxBlocks.Some? && !(0 < req.maxBlocks.value <= rec.maxBlocks))
       || (req.maxBytes.Some? && !(0 < req.maxBytes.value <= rec.maxBytes)) then None
    else Some(Bounds(if req.maxBlocks.Some? then req.maxBlocks.value else rec.maxBlocks,
                     if req.maxBytes.Some? then req.maxBytes.value else rec.maxBytes))
  }

  /** When the hot-residency window began: the upload, or a later restore. */
  function Basis(c: Candidate): int64
  {
    if c.restoredAtUs > c.confirmedAtUs then c.restoredAtUs else c.confirmedAtUs
  }

  function BlockOf(c: Candidate, windowUs: int64): PlanBlock
  {
    PlanBlock(c.blockId, c.shardId, c.sizeBytes, c.backendKey, c.confirmedAtUs, c.restoredAtUs, Add64(Basis(c), windowUs),
              c.localState, c.openReaders, if c.repairState == "" then REPAIR_IDLE else c.repairState, "")
  }

  function SkipReason(c: Candidate, req: Request, isLeader: bool, nowUs: int64, eligibleAtUs: int64): string
  {
    if req.shardId.Some? && c.shardId != req.shardId.value then SKIP_SHARD_FILTER
    else if !c.localEvictable then SKIP_NOT_HOT
    else if c.backendKey == "" then SKIP_NO_DURABLE_COPY
    else if isLeader then SKIP_LEADER
    else if nowUs < eligibleAtUs then SKIP_RESIDENCY
    else ""
  }

  // -------------------------------------------------------------- the greedy choice

  /** A candidate's Block and why it is not eligible ("" when it is). */
  datatype Judged = Judged(block: PlanBlock, reason: string)

  datatype Choice = Choice(selected: seq<PlanBlock>, skipped: seq<PlanBlock>)

  function Total(bs: seq<PlanBlock>): int
  {
    if bs == [] then 0 else Total(bs[..|bs| - 1]) + bs[|bs| - 1].sizeBytes
  }

  function Sum64(bs: seq<PlanBlock>): int64
  {
    if bs == [] then 0 else Add64(Sum64(bs[..|bs| - 1]), bs[|bs| - 1].sizeBytes)
  }

  function Choose(js: seq<Judged>, caps: Bounds): Choice
  {
    if js == [] then Choice([], [])
    else
      var c, j := Choose(js[..|js| - 1], caps), js[|js| - 1];
      if j.reason != "" then c.(skipped := c.skipped + [j.block.(reason := j.reason)])
      else if |c.selected| >= caps.maxBlocks || Add64(Sum64(c.selected), j.block.sizeBytes) > caps.maxBytes then
        c.(skipped := c.skipped + [j.block.(reason := SKIP_BOUNDS)])
      else c.(selected := c.selected + [j.block])
  }

  function Blocks(js: seq<Judged>): seq<PlanBlock>
  {
    seq(|js|, i requires 0 <= i < |js| => js[i].block)
  }

  function Bare(bs: seq<PlanBlock>): seq<PlanBlock>
  {
    seq(|bs|, i requires 0 <= i < |bs| => bs[i].(reason := ""))
  }

  predicate Unlabelled(js: seq<Judged>)
  {
    forall j :: j in js ==> j.block.reason == "" && j.reason != SKIP_BOUNDS
  }

  lemma SnocBlocks(js: seq<Judged>, bs: seq<PlanBlock>, b: PlanBlock)
    ensures js != [] ==> Blocks(js) == Blocks(js[..|js| - 1]) + [js[|js| - 1].block]
    ensures Bare(bs + [b]) == Bare(bs) + [b.(reason := "")]
    ensures Total(bs + [b]) == Total(bs) + b.sizeBytes
    ensures Sum64(bs + [b]) == Add64(Sum64(bs), b.sizeBytes)
  {
    assert (bs + [b])[..|bs|] == bs;
  }

  /** Nothing is lost or invented: Blocks and bytes of the two lists are those of `all`. */
  ghost predicate Conserved(selected: seq<PlanBlock>, skipped: seq<PlanBlock>, all: seq<PlanBlock>)
  {
    && multiset(Bare(selected)) + multiset(Bare(skipped)) == multiset(all)
    && Total(selected) + Total(skipped) == Total(all)
    && |selected| + |skipped| == |all|
  }

  lemma ConservedStep(selected: seq<PlanBlock>, skipped: seq<PlanBlock>, all: seq<PlanBlock>, b: PlanBlock, reason: string)
    requires Conserved(selected, skipped, all) && b.reason == ""
    ensures Conserved(selected + [b], skipped, all + [b])
    ensures Conserved(selected, skipped + [b.(reason := reason)], all + [b])
  {
    hide Total, Bare;
    var labelled := b.(reason := reason);
    assert b.(reason := "") == b == labelled.(reason := "");
    SnocBlocks([], selected, b);
    SnocBlocks([], skipped, labelled);
    SnocBlocks([], all, b);
  }

  lemma {:induction false} ChoiceConserves(js: seq<Judged>, caps: Bounds)
    requires Unlabelled(js)
    ensures Conserved(Choose(js, caps).selected, Choose(js, caps).skipped, Blocks(js))
  {
    if js != [] {
      hide Conserved, Sum64, Add64, Blocks;
      var init, j := js[..|js| - 1], js[|js| - 1];
      ChoiceConserves(init, caps);
      var c := Choose(init, caps);
      SnocBlocks(js, [], j.block);
      ConservedStep(c.selected, c.skipped, Blocks(init), j.block, if j.reason == "" then SKIP_BOUNDS else j.reason);
    }
  }

  /** The caps as the loop sees them: of the number of Blocks, and of the wrapped byte total.
      SelectedBytesExactly says when the second is the number of bytes selected. */
  lemma {:induction false} ChoiceWithinCaps(js: seq<Judged>, caps: Bounds)
    requires caps.maxBlocks >= 0 && caps.maxBytes >= 0
    ensures var c := Choose(js, caps); |c.selected| <= caps.maxBlocks && Sum64(c.selected) <= caps.maxBytes
  {
    if js != [] {
      hide Add64;
      var init, j := js[..|js| - 1], js[|js| - 1];
      ChoiceWithinCaps(init, caps);
      SnocBlocks(js, Choose(init, caps).selected, j.block);
    }
  }

  ghost predicate NonNegative(js: seq<Judged>)
  {
    forall j :: j in js ==> j.block.sizeBytes >= 0
  }

  lemma {:induction false} SumsExactly(bs: seq<PlanBlock>)
    requires (forall b :: b in bs ==> b.sizeBytes >= 0) && Total(bs) <= MAX_INT64
    ensures Sum64(bs) == Total(bs) >= 0
  {
    if bs != [] {
      var init := bs[..|bs| - 1];
      TotalNonNegative(init);
      SumsExactly(init);
      Add64Exact(Sum64(init), bs[|bs| - 1].sizeBytes);
    }
  }

  lemma {:induction false} TotalNonNegative(bs: seq<PlanBlock>)
    requires forall b :: b in bs ==> b.sizeBytes >= 0
    ensures Total(bs) >= 0
  {
    if bs != [] {
      TotalNonNegative(bs[..|bs| - 1]);
    }
  }

  lemma {:induction false} ChosenNonNegative(js: seq<Judged>, caps: Bounds)
    requires NonNegative(js)
    ensures forall b :: b in Choose(js, caps).selected || b in Choose(js, caps).skipped ==> b.sizeBytes >= 0
  {
    if js != [] {
      hide Add64, Sum64;
      ChosenNonNegative(js[..|js| - 1], caps);
    }
  }

  lemma SelectedExactly(js: seq<Judged>, size: int64, caps: Bounds)
    requires Unlabelled(js) && NonNegative(js) && size >= 0 && Total(Blocks(js)) + size <= MAX_INT64
    ensures Add64(Sum64(Choose(js, caps).selected), size) == Total(Choose(js, caps).selected) + size
  {
    hide Choose, Total, Sum64, Blocks, Unlabelled, NonNegative;
    var c := Choose(js, caps);
    ChosenNonNegative(js, caps);
    ChoiceConserves(js, caps);
    TotalNonNegative(c.skipped);
    SumsExactly(c.selected);
    Add64Exact(Sum64(c.selected), size);
  }

  /** The byte cap holds of the bytes selected exactly when their sum is an int64 at all. */
  lemma SelectedBytesExactly(js: seq<Judged>, caps: Bounds)
    requires NonNegative(js) && caps.maxBlocks >= 0 && caps.maxBytes >= 0
    ensures var c := Choose(js, caps); Total(c.selected) <= caps.maxBytes <==> Total(c.selected) <= MAX_INT64
  {
    hide Choose, Total, Sum64;
    var c := Choose(js, caps);
    ChosenNonNegative(js, caps);
    ChoiceWithinCaps(js, caps);
    if Total(c.selected) <= MAX_INT64 {
      SumsExactly(c.selected);
    }
  }

  /** No candidate larger than the room above the cap. */
  ghost predicate NoneOversized(js: seq<Judged>, caps: Bounds)
  {
    forall j :: j in js ==> 0 <= j.block.sizeBytes <= MAX_INT64 - caps.maxBytes
  }

  /** What a caller can check beforehand: with no oversized candidate the byte cap holds. */
  lemma {:induction false} NoneOversizedWithinCap(js: seq<Judged>, caps: Bounds)
    requires NoneOversized(js, caps) && caps.maxBlocks >= 0 && caps.maxBytes >= 0
    ensures 0 <= Total(Choose(js, caps).selected) <= caps.maxBytes
    ensures Sum64(Choose(js, caps).selected) == Total(Choose(js, caps).selected)
  {
    if js != [] {
      hide Add64;
      var init, j := js[..|js| - 1], js[|js| - 1];
      assert j in js;
      NoneOversizedWithinCap(init, caps);
      var c := Choose(init, caps);
      Add64Exact(Sum64(c.selected), j.block.sizeBytes);
      SnocBlocks(js, c.selected, j.block);
    }
  }

  /** And that check is tight: next to a candidate that fills the cap, any oversized one wraps
      the sum, so both are selected and the cap is broken. */
  lemma OversizedBreaksCap(b: PlanBlock, size: int64, caps: Bounds)
    requires b.reason == "" && caps.maxBlocks >= 2 && caps.maxBytes > 0 && size > MAX_INT64 - caps.maxBytes
    ensures var js := [Judged(b.(sizeBytes := caps.maxBytes), ""), Judged(b.(sizeBytes := size), "")];
            var c := Choose(js, caps);
            && Unlabelled(js) && NonNegative(js) && |c.selected| == 2
            && Total(c.selected) == caps.maxBytes + size > MAX_INT64 >= caps.maxBytes >= Sum64(c.selected)
  {
    hide Choose, Total, Sum64, Add64;
    var full, big := b.(sizeBytes := caps.maxBytes), b.(sizeBytes := size);
    Add64Exact(0, caps.maxBytes);
    Add64Wraps(caps.maxBytes, size);
    BothSelected(full, big, caps);
  }

  lemma BothSelected(a: PlanBlock, b: PlanBlock, caps: Bounds)
    requires caps.maxBlocks >= 2 && 0 <= a.sizeBytes <= caps.maxBytes && Add64(a.sizeBytes, b.sizeBytes) <= caps.maxBytes
    ensures var c := Choose([Judged(a, ""), Judged(b, "")], caps);
            c.selected == [a, b] && Total(c.selected) == a.sizeBytes + b.sizeBytes
            && Sum64(c.selected) == Add64(a.sizeBytes, b.sizeBytes)
  {
    hide Choose, Total, Sum64, Add64, Eligible, Blocks, Bare;
    FirstSelected(a, caps);
    JudgedSnoc([Judged(a, "")], Judged(b, ""), caps);
    SnocBlocks([], [a], b);
    assert [Judged(a, "")] + [Judged(b, "")] == [Judged(a, ""), Judged(b, "")] && [a] + [b] == [a, b];
  }

  lemma FirstSelected(a: PlanBlock, caps: Bounds)
    requires caps.maxBlocks >= 1 && 0 <= a.sizeBytes <= caps.maxBytes
    ensures Choose([Judged(a, "")], caps) == Choice([a], []) && Total([a]) == Sum64([a]) == a.sizeBytes
  {
    hide Choose, Total, Sum64, Add64, Eligible, Blocks, Bare;
    EmptyChoice(caps);
    Add64Exact(0, a.sizeBytes);
    JudgedSnoc([], Judged(a, ""), caps);
    SnocBlocks([], [], a);
    assert [] + [Judged(a, "")] == [Judged(a, "")] && [] + [a] == [a];
  }

  /** The smallest instance: a cap of 10 bytes, and 5 + (2^63 - 1) bytes selected. */
  lemma CapBroken(b: PlanBlock)
    requires b.reason == ""
    ensures var js := [Judged(b.(sizeBytes := 5), ""), Judged(b.(sizeBytes := MAX_INT64), "")];
            var c := Choose(js, Bounds(9, 10));
            NonNegative(js) && |c.selected| == 2 && Total(c.selected) == 5 + MAX_INT64 > 10
  {
    hide Choose, Total, Sum64, Add64;
    var caps := Bounds(9, 10);
    var five, big := b.(sizeBytes := 5), b.(sizeBytes := MAX_INT64);
    Add64Wraps(5, MAX_INT64);
    BothSelected(five, big, caps);
  }

  /** With non-negative sizes and no overflow the choice is maximal: any Block left out for the
      bounds would still break a cap if added to the final selection. */
  lemma {:induction false} ChoiceMaximal(js: seq<Judged>, caps: Bounds)
    requires Unlabelled(js) && NonNegative(js) && Total(Blocks(js)) <= MAX_INT64
    ensures var c := Choose(js, caps);
            forall b :: b in c.skipped && b.reason == SKIP_BOUNDS ==>
              |c.selected| >= caps.maxBlocks || Total(c.selected) + b.sizeBytes > caps.maxBytes
  {
    if js != [] {
      hide Add64, Sum64, Total;
      var init, j := js[..|js| - 1], js[|js| - 1];
      var c := Choose(init, caps);
      assert Total(Blocks(js)) == Total(Blocks(init)) + j.block.sizeBytes by {
        SnocBlocks(js, Blocks(init), j.block);
      }
      ChoiceMaximal(init, caps);
      SelectedExactly(init, j.block.sizeBytes, caps);
      SnocBlocks(js, c.selected, j.block);
    }
  }

  lemma SelectedNoMore(js: seq<Judged>, caps: Bounds)
    requires Unlabelled(js) && NonNegative(js)
    ensures Total(Choose(js, caps).selected) <= Total(Blocks(js))
  {
    hide Choose, Total, Blocks, Unlabelled, NonNegative;
    ChosenNonNegative(js, caps);
    ChoiceConserves(js, caps);
    TotalNonNegative(Choose(js, caps).skipped);
  }

  /** Negative sizes are not refused, and with one the choice need not be maximal. */
  lemma NegativeSizeNotMaximal()
    ensures exists js: seq<Judged>, caps: Bounds ::
              && Unlabelled(js)
              && var c := Choose(js, caps);
              exists b :: b in c.skipped && b.reason == SKIP_BOUNDS && |c.selected| < caps.maxBlocks
                          && Total(c.selected) + b.sizeBytes <= caps.maxBytes
  {
    hide Choose, Total, Sum64, Add64;
    Add64Small(0, 10);
    Add64Small(10, 5);
    Add64Small(10, -8);
    var b := PlanBlock(1, 0, 10, "k", 1, 0, 1, "hot", 0, REPAIR_IDLE, "");
    var caps := Bounds(9, 10);
    var less, skip, minus := b.(sizeBytes := 5), b.(sizeBytes := 5, reason := SKIP_BOUNDS), b.(sizeBytes := -8);
    EmptyChoice(caps);
    JudgedSnoc([], Judged(b, ""), caps);
    SnocBlocks([], [], b);
    JudgedSnoc([] + [Judged(b, "")], Judged(less, ""), caps);
    SnocBlocks([], [] + [b], minus);
    var js := [] + [Judged(b, "")] + [Judged(less, "")];
    assert Choose(js, caps) == Choice([] + [b], [] + [skip]);
    JudgedSnoc(js, Judged(minus, ""), caps);
    var c := Choose(js + [Judged(minus, "")], caps);
    assert c == Choice([] + [b] + [minus], [] + [skip]);
    assert Total(c.selected) == 2 && skip in c.skipped;
    assert Unlabelled(js + [Judged(minus, "")]);
  }

  lemma EmptyChoice(caps: Bounds)
    ensures Choose([], caps) == Choice([], []) && Sum64([]) == 0 && Total([]) == 0
  {
  }

  /** Who is selected and why anyone else is skipped. */
  lemma {:induction false} ChoiceJustified(js: seq<Judged>, caps: Bounds)
    requires Unlabelled(js)
    ensures forall b :: b in Choose(js, caps).selected ==> Judged(b, "") in js
    ensures forall b :: b in Choose(js, caps).skipped ==>
              Judged(b.(reason := ""), if b.reason == SKIP_BOUNDS then "" else b.reason) in js
  {
    if js != [] {
      hide Add64, Sum64;
      var init, j := js[..|js| - 1], js[|js| - 1];
      ChoiceJustified(init, caps);
      assert j.block.(reason := "") == j.block;
    }
  }

  // --------------------------------------------------------------------- the plan

  function Judge(c: Candidate, x: Input): Judged
  {
    var b := BlockOf(c, x.config.windowUs);
    Judged(b, SkipReason(c, x.request, x.isLeader, x.nowUs, b.eligibleAtUs))
  }

  function JudgeAll(cs: seq<Candidate>, x: Input): seq<Judged>
  {
    seq(|cs|, i requires 0 <= i < |cs| => Judge(cs[i], x))
  }

  lemma JudgedUnlabelled(cs: seq<Candidate>, x: Input)
    ensures Unlabelled(JudgeAll(cs, x))
  {
  }

  lemma NeverBounds(c: Candidate, x: Input)
    ensures Judge(c, x).reason != SKIP_BOUNDS
  {
  }

  function CountOf(bs: seq<PlanBlock>, reason: string): nat
  {
    if bs == [] then 0 else CountOf(bs[..|bs| - 1], reason) + if bs[|bs| - 1].reason == reason then 1 else 0
  }

  lemma CountSnoc(bs: seq<PlanBlock>, b: PlanBlock)
    ensures forall reason :: CountOf(bs + [b], reason) == CountOf(bs, reason) + if b.reason == reason then 1 else 0
  {
    assert (bs + [b])[..|bs|] == bs;
  }

  predicate CountsMatch(counts: map<string, nat>, bs: seq<PlanBlock>)
  {
    && (forall reason :: reason in counts ==> counts[reason] == CountOf(bs, reason) > 0)
    && (forall b :: b in bs ==> b.reason in counts)
  }

  predicate ById(a: Candidate, b: Candidate)
  {
    a.blockId <= b.blockId
  }

  /** appendSkippedBlock, on the plan's list and its count map. */
  method AppendSkipped(plan: Plan, b: PlanBlock, reason: string) returns (after: Plan)
    requires CountsMatch(plan.skipCounts, plan.skipped)
    ensures CountsMatch(after.skipCounts, after.skipped)
    ensures after == plan.(skipped := plan.skipped + [b.(reason := reason)], skipCounts := after.skipCounts)
  {
    hide CountOf;
    var labelled := b.(reason := reason);
    CountSnoc(plan.skipped, labelled);
    NoneCounted(plan.skipped, reason);
    var n := if reason in plan.skipCounts then plan.skipCounts[reason] else 0;
    after := plan.(skipped := plan.skipped + [labelled], skipCounts := plan.skipCounts[reason := n + 1]);
  }

  lemma {:induction false} NoneCounted(bs: seq<PlanBlock>, reason: string)
    ensures CountOf(bs, reason) > 0 ==> exists b :: b in bs && b.reason == reason
  {
    if bs != [] {
      NoneCounted(bs[..|bs| - 1], reason);
    }
  }

  /** The Blocks with no reason to be skipped but the bounds. */
  function Eligible(js: seq<Judged>): seq<PlanBlock>
  {
    if js == [] then []
    else Eligible(js[..|js| - 1]) + if js[|js| - 1].reason == "" then [js[|js| - 1].block] else []
  }

  /** The plan's lists and totals, for candidates judged in this order. */
  ghost predicate PlanMatches(plan: Plan, js: seq<Judged>)
  {
    && plan.selected == Choose(js, plan.effective).selected && plan.skipped == Choose(js, plan.effective).skipped
    && plan.selectedBytes == Sum64(plan.selected)
    && plan.candidateBlocks == |js| && plan.candidateBytes == Sum64(Blocks(js))
    && plan.eligibleBlocks == |plan.selected| + CountOf(plan.skipped, SKIP_BOUNDS) == |Eligible(js)|
    && plan.eligibleBytes == Sum64(Eligible(js))
    && CountsMatch(plan.skipCounts, plan.skipped)
  }

  lemma JudgedSnoc(js: seq<Judged>, j: Judged, caps: Bounds)
    ensures var c := Choose(js, caps);
            Choose(js + [j], caps) ==
            if j.reason != "" then c.(skipped := c.skipped + [j.block.(reason := j.reason)])
            else if |c.selected| >= caps.maxBlocks || Add64(Sum64(c.selected), j.block.sizeBytes) > caps.maxBytes
            then c.(skipped := c.skipped + [j.block.(reason := SKIP_BOUNDS)])
            else c.(selected := c.selected + [j.block])
    ensures Eligible(js + [j]) == Eligible(js) + if j.reason == "" then [j.block] else []
    ensures Blocks(js + [j]) == Blocks(js) + [j.block]
  {
    assert (js + [j])[..|js|] == js;
  }

  /** One turn of BuildPlan's loop. */
  method PlanOne(plan: Plan, c: Candidate, x: Input, ghost js: seq<Judged>) returns (after: Plan)
    requires PlanMatches(plan, js)
    ensures PlanMatches(after, js + [Judge(c, x)]) && after.effective == plan.effective
  {
    hide Sum64, Add64, CountOf, Blocks, SkipReason, BlockOf, Choose, Eligible, CountsMatch;
    var block := BlockOf(c, x.config.windowUs);
    var reason := SkipReason(c, x.request, x.isLeader, x.nowUs, block.eligibleAtUs);
    JudgedSnoc(js, Judge(c, x), plan.effective);
    NeverBounds(c, x);
    SnocBlocks([], plan.selected, block);
    SnocBlocks([], Blocks(js), block);
    SnocBlocks([], Eligible(js), block);
    after := plan.(candidateBlocks := plan.candidateBlocks + 1, candidateBytes := Add64(plan.candidateBytes, block.sizeBytes));
    if reason != "" {
      CountSnoc(plan.skipped, block.(reason := reason));
      after := AppendSkipped(after, block, reason);
      assert Choose(js + [Judge(c, x)], plan.effective).skipped == after.skipped;
      assert CountOf(after.skipped, SKIP_BOUNDS) == CountOf(plan.skipped, SKIP_BOUNDS);
      assert Eligible(js + [Judge(c, x)]) == Eligible(js);
      return;
    }
    after := after.(eligibleBlocks := after.eligibleBlocks + 1, eligibleBytes := Add64(after.eligibleBytes, block.sizeBytes));
    if |plan.selected| >= plan.effective.maxBlocks || Add64(plan.selectedBytes, block.sizeBytes) > plan.effective.maxBytes {
      CountSnoc(plan.skipped, block.(reason := SKIP_BOUNDS));
      after := AppendSkipped(after, block, SKIP_BOUNDS);
      return;
    }
    after := after.(selected := after.selected + [block], selectedBytes := Add64(after.selectedBytes, block.sizeBytes));
  }

  /** All the planner asks of a Block besides its hot-residency window: the requested Shard, data
      that may go, a durable copy elsewhere, and no leadership. */
  predicate Spare(c: Candidate, x: Input)
  {
    && (x.request.shardId.Some? ==> c.shardId == x.request.shardId.value)
    && c.localEvictable && c.backendKey != "" && !x.isLeader
  }

  /** The instant the window ends; past the largest int64 the planner sees it 2^64 earlier. */
  function WindowEnd(c: Candidate, x: Input): int
  {
    Basis(c) + x.config.windowUs
  }

  /** A Block is eligible if and only if it is spare and its window is over, or ends beyond int64
      and the wrapped end is over. */
  lemma EligibleExactly(c: Candidate, x: Input)
    requires x.config.windowUs >= 0
    ensures Judge(c, x).reason == "" <==>
              Spare(c, x) && (if WindowEnd(c, x) <= MAX_INT64 then WindowEnd(c, x) else WindowEnd(c, x) - TWO_64) <= x.nowUs
  {
  }

  /** What the planner promises of a Block it selects: it is spare, and its window is over if and
      only if the end of the window is an int64 at all. */
  predicate MayEvict(c: Candidate, x: Input)
  {
    Spare(c, x) && (WindowEnd(c, x) <= x.nowUs <==> WindowEnd(c, x) <= MAX_INT64)
  }

  /** Every spare Block whose window would end beyond int64 is selected inside its window, from
      the beginning of time on, wherever the caps leave room. */
  lemma SelectedInsideWindow(js: seq<Judged>, c: Candidate, x: Input, caps: Bounds)
    requires x.config.windowUs >= 0 && x.nowUs >= 0 && Spare(c, x) && Basis(c) > MAX_INT64 - x.config.windowUs
    requires var chosen := Choose(js, caps).selected;
             |chosen| < caps.maxBlocks && Add64(Sum64(chosen), c.sizeBytes) <= caps.maxBytes
    ensures Choose(js + [Judge(c, x)], caps).selected == Choose(js, caps).selected + [BlockOf(c, x.config.windowUs)]
    ensures WindowEnd(c, x) > x.nowUs
  {
    hide Choose, Sum64, Add64, SkipReason, Eligible, Blocks;
    EligibleExactly(c, x);
    JudgedSnoc(js, Judge(c, x), caps);
  }

  /** And without such a Block every selected one is past its window. */
  predicate NoneBeyond(cs: seq<Candidate>, x: Input)
  {
    forall c :: c in cs ==> Basis(c) <= MAX_INT64 - x.config.windowUs
  }

  lemma SelectedMayBeEvicted(order: seq<Candidate>, x: Input, caps: Bounds)
    requires x.config.windowUs >= 0
    ensures forall b :: b in Choose(JudgeAll(order, x), caps).selected ==>
              exists c :: c in order && b == BlockOf(c, x.config.windowUs) && MayEvict(c, x)
  {
    hide Choose, Add64;
    var js := JudgeAll(order, x);
    JudgedUnlabelled(order, x);
    ChoiceJustified(js, caps);
    forall b | b in Choose(js, caps).selected
      ensures exists c :: c in order && b == BlockOf(c, x.config.windowUs) && MayEvict(c, x)
    {
      var i :| 0 <= i < |js| && js[i] == Judged(b, "");
      var c := order[i];
      EligibleExactly(c, x);
      assert c in order && MayEvict(c, x);
    }
  }

  lemma PastTheirWindows(order: seq<Candidate>, x: Input, caps: Bounds)
    requires x.config.windowUs >= 0 && multiset(order) == multiset(x.candidates) && NoneBeyond(x.candidates, x)
    ensures forall b :: b in Choose(JudgeAll(order, x), caps).selected ==>
              b.confirmedAtUs + x.config.windowUs <= x.nowUs && b.restoredAtUs + x.config.windowUs <= x.nowUs
  {
    hide Choose, Add64, JudgeAll;
    SelectedMayBeEvicted(order, x, caps);
    forall c | c in order
      ensures c in x.candidates
    {
      assert c in multiset(order);
    }
  }

  method BuildPlan(x: Input) returns (r: Option<Plan>, ghost order: seq<Candidate>)
    ensures r.Some? <==> InputAccepted(x) && EffectiveBounds(x.request, x.config.recommended).Some?
    ensures r.Some? ==>
              && Some(r.value.effective) == EffectiveBounds(x.request, x.config.recommended)
              && Sorted(order, ById) && multiset(order) == multiset(x.candidates)
              && PlanMatches(r.value, JudgeAll(order, x))
              && Conserved(r.value.selected, r.value.skipped, Blocks(JudgeAll(order, x)))
              && |r.value.selected| <= r.value.effective.maxBlocks && r.value.selectedBytes <= r.value.effective.maxBytes
              && forall b :: b in r.value.selected ==>
                   exists c :: c in order && b == BlockOf(c, x.config.windowUs) && MayEvict(c, x)
    ensures r.Some? && NoneBeyond(x.candidates, x) ==>
              forall b :: b in r.value.selected ==>
                b.confirmedAtUs + x.config.windowUs <= x.nowUs && b.restoredAtUs + x.config.windowUs <= x.nowUs
    ensures r.Some? && NonNegative(JudgeAll(order, x)) ==>
              (Total(r.value.selected) <= r.value.effective.maxBytes <==> Total(r.value.selected) <= MAX_INT64)
    ensures r.Some? && NoneOversized(JudgeAll(order, x), r.value.effective) ==>
              Total(r.value.selected) <= r.value.effective.maxBytes
    ensures r.Some? && NonNegative(JudgeAll(order, x)) && Total(Blocks(JudgeAll(order, x))) <= MAX_INT64 ==>
              Total(r.value.selected) <= r.value.effective.maxBytes
    ensures r.Some? && NonNegative(JudgeAll(order, x)) && Total(Blocks(JudgeAll(order, x))) <= MAX_INT64 ==>
              forall b :: b in r.value.skipped && b.reason == SKIP_BOUNDS ==>
                |r.value.selected| >= r.value.effective.maxBlocks
                || Total(r.value.selected) + b.sizeBytes > r.value.effective.maxBytes
  {
    hide Sorted, Choose, MayEvict, BlockOf, NoneBeyond, NoneOversized, Conserved, NonNegative, JudgeAll, Blocks, Total, Sum64, Add64, CountOf;
    order := [];
    if !InputAccepted(x) {
      return None, order;
    }
    var effective := EffectiveBounds(x.request, x.config.recommended);
    if effective == None {
      return None, order;
    }
    var sorted := Sort(x.candidates, ById);
    order := sorted;
    var plan := Plan(effective.value, [], [], map[], 0, 0, 0, 0, 0);
    StartMatches(effective.value, x);
    for i := 0 to |sorted|
      invariant PlanMatches(plan, JudgeAll(sorted[..i], x)) && plan.effective == effective.value
    {
      JudgeSnoc(sorted, i, x);
      plan := PlanOne(plan, sorted[i], x, JudgeAll(sorted[..i], x));
    }
    assert sorted[..|sorted|] == sorted;
    JudgedUnlabelled(sorted, x);
    ChoiceConserves(JudgeAll(sorted, x), effective.value);
    ChoiceWithinCaps(JudgeAll(sorted, x), effective.value);
    SelectedMayBeEvicted(sorted, x, effective.value);
    if NoneBeyond(x.candidates, x) {
      PastTheirWindows(sorted, x, effective.value);
    }
    if NonNegative(JudgeAll(sorted, x)) {
      SelectedBytesExactly(JudgeAll(sorted, x), effective.value);
      if Total(Blocks(JudgeAll(sorted, x))) <= MAX_INT64 {
        ChoiceMaximal(JudgeAll(sorted, x), effective.value);
        SelectedNoMore(JudgeAll(sorted, x), effective.value);
      }
    }
    if NoneOversized(JudgeAll(sorted, x), effective.value) {
      NoneOversizedWithinCap(JudgeAll(sorted, x), effective.value);
    }
    r := Some(plan);
  }

  lemma StartMatches(caps: Bounds, x: Input)
    ensures PlanMatches(Plan(caps, [], [], map[], 0, 0, 0, 0, 0), JudgeAll([], x))
  {
  }

  lemma JudgeSnoc(cs: seq<Candidate>, i: nat, x: Input)
    requires i < |cs|
    ensures JudgeAll(cs[..i + 1], x) == JudgeAll(cs[..i], x) + [Judge(cs[i], x)]
  {
  }
}
