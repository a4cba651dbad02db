/** Eviction and restore of a Block's local files, with a crash allowed between
    any two directory operations.  Directory operations are assumed ordered: a
    crash keeps some prefix of those since the last directory sync. */
module LocalBlock {
  import opened Bytes
  import opened Collections

  const MARKER_VERSION := 1

  datatype EvictionMarker = EvictionMarker(
    version: int, blockId: uint64, backendKey: string, sizeBytes: int64, validationToken: string,
    evictedAtUs: int64, trigger: string, reason: string)

  datatype RestoreMarker = RestoreMarker(version: int, blockId: uint64, restoredAtUs: int64, source: string, reason: string)

  datatype ScanRecord = ScanRecord(version: int, blockId: uint64, restoredAtUs: int64, scannedAtUs: int64)

  /** A JSON marker file: missing, not decodable, or a decoded value. */
  datatype MarkerFile<T> = NoFile | Garbled | Json(value: T)

  /** The Block data: absent, as sealed, or put back by restore number gen. */
  datatype BlkFile = NoBlk | Sealed | Restored(gen: nat)

  /** A Block's files.  restoreGen and scanGen are history, on no disk: which restore wrote the
      restore marker, and which restore's marker the recorder had read that wrote the record. */
  datatype Files = Files(
    blk: BlkFile, idx: bool, eviction: MarkerFile<EvictionMarker>, restore: MarkerFile<RestoreMarker>,
    scan: MarkerFile<ScanRecord>, restoreGen: nat, scanGen: nat)

  const SEALED: Files := Files(Sealed, true, NoFile, NoFile, NoFile, 0, 0)

  // -------------------------------------------------------------- validation

  predicate ValidHeader(version: int, markerBlockId: uint64, blockId: uint64)
  {
    version == MARKER_VERSION && markerBlockId == blockId && markerBlockId != 0
  }

  predicate ValidEviction(m: EvictionMarker, blockId: uint64)
  {
    && ValidHeader(m.version, m.blockId, blockId)
    && m.backendKey != "" && m.sizeBytes >= 0 && m.validationToken != "" && m.evictedAtUs > 0
    && m.trigger != "" && m.reason != ""
  }

  predicate ValidRestore(m: RestoreMarker, blockId: uint64)
  {
    ValidHeader(m.version, m.blockId, blockId) && m.restoredAtUs > 0 && m.source != "" && m.reason != ""
  }

  predicate ValidScan(r: ScanRecord, blockId: uint64)
  {
    ValidHeader(r.version, r.blockId, blockId) && r.restoredAtUs > 0 && r.scannedAtUs > 0
  }

  // ------------------------------------------------------------ classification

  datatype State = Hot | Evicted | HotCleanupNeeded | MetadataLoss | UnexpectedLoss

  datatype Lifecycle = Lifecycle(state: State, servingAllowed: bool, healthDegraded: bool)

  /** Classify; ok is false when a marker cannot be read. */
  function Classify(blockId: uint64, f: Files): (r: (Lifecycle, bool))
  {
    if !f.idx then (Lifecycle(MetadataLoss, false, true), true)
    else if f.eviction.Garbled? || (f.eviction.Json? && !ValidEviction(f.eviction.value, blockId)) then
      (Lifecycle(UnexpectedLoss, false, true), false)
    else if f.restore.Garbled? || (f.restore.Json? && !ValidRestore(f.restore.value, blockId)) then
      (Lifecycle(Hot, f.blk != NoBlk, true), false)
    else if f.blk != NoBlk && f.eviction.Json? then (Lifecycle(HotCleanupNeeded, true, true), true)
    else if f.blk != NoBlk then (Lifecycle(Hot, true, false), true)
    else if f.eviction.Json? then (Lifecycle(Evicted, false, false), true)
    else (Lifecycle(UnexpectedLoss, false, true), true)
  }

  /** RestorePendingScan: an unreadable marker or record keeps the Block pending. */
  predicate PendingScan(blockId: uint64, f: Files)
  {
    match f.restore
    case NoFile => false
    case Garbled => true
    case Json(m) =>
      !ValidRestore(m, blockId)
      || !(f.scan.Json? && ValidScan(f.scan.value, blockId) && f.scan.value.restoredAtUs == m.restoredAtUs)
  }

  /** No crash state may lose the Block: the index is there, markers are
      readable, and either the data or the marker that explains its absence is. */
  predicate NoLoss(blockId: uint64, f: Files)
  {
    && f.idx
    && (f.eviction == NoFile || (f.eviction.Json? && ValidEviction(f.eviction.value, blockId)))
    && (f.restore == NoFile || (f.restore.Json? && ValidRestore(f.restore.value, blockId)))
    && (f.blk == NoBlk ==> f.eviction.Json?)
  }

  /** NoLoss is exactly: classified without error, and as no kind of loss. */
  lemma NoLossMeans(blockId: uint64, f: Files)
    ensures NoLoss(blockId, f) <==>
              Classify(blockId, f).1 && Classify(blockId, f).0.state in {Hot, HotCleanupNeeded, Evicted}
  {
  }

  // ------------------------------------------------------ the directory and crashes

  class BlockDir {
    const blockId: uint64
    var now: Files
    /** The states since the last sync, oldest first; a crash may return to any of them. */
    var since: seq<Files>
    /** Restore timestamps in the order their markers were written: restore j wrote issued[j]. */
    var issued: seq<int64>
    /** The restores whose marker a RecordRestoreScan has read. */
    var read: set<nat>

    ghost predicate Valid()
      reads this
    {
      && since != [] && since[|since| - 1] == now
      && Good(now) && (forall f :: f in since ==> Good(f))
      && (forall j :: j in read ==> j < |issued|)
    }

    ghost predicate Good(f: Files)
      reads this`issued, this`read
    {
      NoLoss(blockId, f) && Marked(f) && Tracked(f)
    }

    /** A restored Block has its restore marker, of that restore or a later one. */
    ghost predicate Marked(f: Files)
      reads this`issued
    {
      && (f.restore.Json? ==> f.restoreGen < |issued| && issued[f.restoreGen] == f.restore.value.restoredAtUs)
      && (f.blk.Restored? ==> f.restore.Json? && f.blk.gen <= f.restoreGen)
    }

    /** A scan record speaks of a restore whose marker a recorder has read. */
    ghost predicate Tracked(f: Files)
      reads this`issued, this`read
    {
      f.scan.Json? && ValidScan(f.scan.value, blockId) ==>
        f.scanGen in read && f.scanGen < |issued| && issued[f.scanGen] == f.scan.value.restoredAtUs
    }

    /** A recorder has read the marker of restore gen or of a later one. */
    ghost predicate Vouched(gen: nat)
      reads this`read
    {
      exists j :: gen <= j && j in read
    }

    function State(): Past
      reads this
    {
      Past(now, issued, read)
    }

    constructor (blockId: uint64)
      requires blockId != 0
      ensures Valid() && this.blockId == blockId && State() == Past(SEALED, [], {})
    {
      this.blockId := blockId;
      now := SEALED;
      since := [SEALED];
      issued, read := [], {};
    }

    /** One atomic directory operation (a rename or a removal). */
    method Change(f: Files)
      requires Valid() && Good(f)
      modifies this`now, this`since
      ensures Valid() && now == f
    {
      now := f;
      since := since + [f];
    }

    method Sync() returns (ok: bool)
      requires Valid()
      modifies this`since
      ensures Valid()
    {
      ok := *;
      if ok {
        since := [now];
      }
    }

    /** Power loss: any prefix of the unsynced operations survives. */
    method Crash()
      requires Valid()
      modifies this`now, this`since
      ensures Valid() && now in old(since)
    {
      var i :| 0 <= i < |since|;
      now := since[i];
      since := [now];
    }

    /** PrepareEviction: the marker is renamed into place, then the directory is synced. */
    method PrepareEviction(backendKey: string, sizeBytes: int64, token: string, evictedAtUs: int64, trigger: string, reason: string)
      returns (ok: bool)
      requires Valid()
      modifies this`now, this`since
      ensures Valid()
      ensures ok ==> now == old(now).(eviction := Json(EvictionMarker(MARKER_VERSION, blockId, backendKey, sizeBytes, token,
                                                                      evictedAtUs, trigger, reason)))
      ensures ok ==> ValidEviction(EvictionMarker(MARKER_VERSION, blockId, backendKey, sizeBytes, token, evictedAtUs,
                                                  trigger, reason), blockId)
      ensures now == old(now) || (now == old(now).(eviction := now.eviction) && now.eviction.Json?)
    {
      var m := EvictionMarker(MARKER_VERSION, blockId, backendKey, sizeBytes, token, evictedAtUs, trigger, reason);
      if !ValidEviction(m, blockId) {
        return false;
      }
      ok := *;
      if !ok {
        return;
      }
      Change(now.(eviction := Json(m)));
      ok := Sync();
    }

    /** UnlinkBlockData, which callers reach only behind an eviction marker. */
    method UnlinkBlockData() returns (removed: bool, ok: bool)
      requires Valid() && now.eviction.Json?
      modifies this`now, this`since
      ensures Valid() && now == (if removed then old(now).(blk := NoBlk) else old(now))
      ensures ok && !removed ==> old(now).blk == NoBlk
    {
      if now.blk == NoBlk {
        return false, true;
      }
      removed := *;
      if !removed {
        return false, false;
      }
      Change(now.(blk := NoBlk));
      ok := Sync();
    }

    /** RemoveEvictionMarker, which callers reach only with the Block data in place. */
    method RemoveEvictionMarker() returns (ok: bool)
      requires Valid() && now.blk != NoBlk
      modifies this`now, this`since
      ensures Valid()
      ensures ok ==> now == old(now).(eviction := NoFile)
      ensures !ok ==> now == old(now) || now == old(now).(eviction := NoFile)
    {
      if now.eviction == NoFile {
        return true;
      }
      ok := *;
      if !ok {
        return;
      }
      Change(now.(eviction := NoFile));
      ok := Sync();
    }

    /** Writes the restore marker before the data appears, and drops the eviction
        marker only after it has. */
    method PublishRestoredBlock(restoredAtUs: int64, source: string, reason: string) returns (published: bool, ok: bool)
      requires Valid()
      modifies this`now, this`since, this`issued
      ensures Valid()
      ensures issued == old(issued) || issued == old(issued) + [restoredAtUs]
      ensures published ==> now.blk == Restored(|old(issued)|) && issued == old(issued) + [restoredAtUs]
                            && now.restore == Json(RestoreMarker(MARKER_VERSION, blockId, restoredAtUs, source, reason))
                            && now.restoreGen == |old(issued)|
      ensures published ==> (PendingScan(blockId, now) <==> !RecordCarries(blockId, old(now), restoredAtUs))
      ensures published && restoredAtUs !in old(issued) ==> PendingScan(blockId, now)
      ensures ok ==> published && now.eviction == NoFile
      ensures now.idx == old(now.idx) && now.scan == old(now.scan) && now.scanGen == old(now.scanGen)
      ensures !published ==> now.blk == old(now.blk) && now.eviction == old(now.eviction)
      ensures now.eviction == old(now.eviction) || now.eviction == NoFile
    {
      var m := RestoreMarker(MARKER_VERSION, blockId, restoredAtUs, source, reason);
      if !ValidRestore(m, blockId) {
        return false, false;
      }
      ok := *;
      if !ok {
        return false, false;
      }
      var gen := |issued|;
      issued := issued + [restoredAtUs];
      StillValid(old(issued));
      Change(now.(restore := Json(m), restoreGen := gen));
      ok := Sync();
      if !ok {
        return false, false;
      }
      ok := *;
      if !ok {
        return false, false;
      }
      Change(now.(blk := Restored(gen)));
      published := true;
      ok := Sync();
      if ok {
        ok := RemoveEvictionMarker();
      }
    }

    /** Issuing a further timestamp keeps what is known of earlier ones. */
    lemma StillValid(before: seq<int64>)
      requires since != [] && since[|since| - 1] == now && |issued| == |before| + 1 && issued[..|before|] == before
      requires forall f :: f in since ==> NoLoss(blockId, f) && KnownBefore(f, before)
      requires forall j :: j in read ==> j < |before|
      ensures Valid()
    {
      assert forall j :: 0 <= j < |before| ==> issued[j] == issued[..|before|][j];
      assert now in since;
    }

    ghost predicate KnownBefore(f: Files, before: seq<int64>)
      reads this`read
    {
      && (f.restore.Json? ==> f.restoreGen < |before| && before[f.restoreGen] == f.restore.value.restoredAtUs)
      && (f.blk.Restored? ==> f.restore.Json? && f.blk.gen <= f.restoreGen)
      && (f.scan.Json? && ValidScan(f.scan.value, blockId) ==>
            f.scanGen in read && f.scanGen < |before| && before[f.scanGen] == f.scan.value.restoredAtUs)
    }

    /** First half of RecordRestoreScan: reads the marker of the restore it will vouch for. */
    method ReadForRecord() returns (m: MarkerFile<RestoreMarker>, gen: nat)
      requires Valid()
      modifies this`read
      ensures Valid() && m == now.restore && gen == now.restoreGen
      ensures read == (if m.Json? then old(read) + {gen} else old(read))
    {
      m, gen := now.restore, now.restoreGen;
      if m.Json? {
        assert now in since;
        read := read + {gen};
      }
    }

    /** Second half: writes the record, possibly long after the marker was read. */
    method WriteRecord(restoredAtUs: int64, gen: nat, scannedAtUs: int64) returns (ok: bool)
      requires Valid() && gen in read && issued[gen] == restoredAtUs
      modifies this`now, this`since
      ensures Valid()
      ensures ok ==> ValidScan(ScanRecord(MARKER_VERSION, blockId, restoredAtUs, scannedAtUs), blockId)
      ensures ok ==> now == old(now).(scan := Json(ScanRecord(MARKER_VERSION, blockId, restoredAtUs, scannedAtUs)), scanGen := gen)
      ensures now == old(now).(scan := now.scan, scanGen := now.scanGen)
    {
      var r := ScanRecord(MARKER_VERSION, blockId, restoredAtUs, scannedAtUs);
      if !ValidScan(r, blockId) {
        return false;
      }
      ok := *;
      if !ok {
        return;
      }
      Change(now.(scan := Json(r), scanGen := gen));
      ok := Sync();
    }

    /** RecordRestoreScan with nothing happening between its two halves. */
    method RecordRestoreScan(scannedAtUs: int64) returns (ok: bool)
      requires Valid()
      modifies this`now, this`since, this`read
      ensures Valid()
      ensures old(read) <= read
      ensures ok && now.restore.Json? ==> !PendingScan(blockId, now)
      ensures now == old(now).(scan := now.scan, scanGen := now.scanGen)
    {
      if scannedAtUs <= 0 {
        return false;
      }
      assert now in since;
      var m, gen := ReadForRecord();
      match m {
        case NoFile => ok := true;
        case Garbled => ok := false;
        case Json(v) => ok := WriteRecord(v.restoredAtUs, gen, scannedAtUs);
      }
    }

    /** RemoveRestoreMarker: the marker, then its scan record, once the Block is evicted again. */
    method RemoveRestoreMarker() returns (ok: bool)
      requires Valid() && now.blk == NoBlk
      modifies this`now, this`since
      ensures Valid()
      ensures ok ==> now == old(now).(restore := NoFile, scan := NoFile)
      ensures now == old(now).(restore := now.restore, scan := now.scan)
    {
      var removed := false;
      if now.restore != NoFile {
        ok := *;
        if !ok {
          return;
        }
        Change(now.(restore := NoFile));
        removed := true;
      }
      if now.scan != NoFile {
        ok := *;
        if !ok {
          return;
        }
        Change(now.(scan := NoFile));
        removed := true;
      }
      if !removed {
        return true;
      }
      ok := Sync();
    }

    /** One Block's turn in CleanupHotMarkers, whose directory sync comes later. */
    method CleanupHotMarker() returns (removed: bool, ok: bool)
      requires Valid()
      modifies this`now, this`since
      ensures Valid()
      ensures now == (if removed then old(now).(eviction := NoFile) else old(now))
      ensures ok ==> Classify(blockId, now).0.state in {Hot, Evicted}
      ensures ok ==> (removed <==> Classify(blockId, old(now)).0.state == HotCleanupNeeded)
    {
      assert now in since;
      NoLossMeans(blockId, now);
      if Classify(blockId, now).0.state != HotCleanupNeeded {
        return false, true;
      }
      ok := *;
      if !ok {
        return false, false;
      }
      Change(now.(eviction := NoFile));
      removed := true;
    }

    /** With pairwise distinct restore timestamps, in every reachable directory, before or after
        a crash, a restored Block stays pending until a recorder has read the marker of that
        restore or of a later one. */
    lemma PendingUntilRecorded(f: Files)
      requires Valid() && f in since && f.blk.Restored?
      ensures f.restore.Json?
      ensures Distinct(issued) ==> PendingScan(blockId, f) || Vouched(f.blk.gen)
    {
      assert Good(f);
      if Distinct(issued) && !PendingScan(blockId, f) {
        assert issued[f.scanGen] == issued[f.restoreGen];
        assert f.scanGen == f.restoreGen && f.scanGen in read;
      }
    }
  }

  /** A readable scan record with this restore timestamp is there. */
  predicate RecordCarries(blockId: uint64, f: Files, t: int64)
  {
    f.scan.Json? && ValidScan(f.scan.value, blockId) && f.scan.value.restoredAtUs == t
  }

  // ------------------------------------------------------------------ whole histories

  datatype Op =
    | Evict(backendKey: string, sizeBytes: int64, token: string, evictedAtUs: int64, trigger: string, reason: string)
    | Unlink
    | Publish(restoredAtUs: int64, source: string, why: string)
    | DropEviction
    | Cleanup
    | BeginRecord
    | EndRecord(gen: nat, scannedAtUs: int64)
    | DropRestore
    | PowerLoss

  datatype Past = Past(now: Files, issued: seq<int64>, read: set<nat>)

  /** An operation all of whose calls succeed.  One whose caller would not reach it (no eviction
      marker yet, data still there, nothing read) or that refuses its input does nothing. */
  function Done(blockId: uint64, p: Past, op: Op): Past
  {
    match op
    case Evict(key, size, token, at, trigger, reason) =>
      var m := EvictionMarker(MARKER_VERSION, blockId, key, size, token, at, trigger, reason);
      if ValidEviction(m, blockId) then p.(now := p.now.(eviction := Json(m))) else p
    case Unlink => if p.now.eviction.Json? then p.(now := p.now.(blk := NoBlk)) else p
    case Publish(at, source, reason) =>
      var m := RestoreMarker(MARKER_VERSION, blockId, at, source, reason);
      var gen := |p.issued|;
      if ValidRestore(m, blockId) then
        p.(now := p.now.(blk := Restored(gen), eviction := NoFile, restore := Json(m), restoreGen := gen), issued := p.issued + [at])
      else p
    case DropEviction => if p.now.blk != NoBlk then p.(now := p.now.(eviction := NoFile)) else p
    case Cleanup =>
      if Classify(blockId, p.now).0.state == HotCleanupNeeded then p.(now := p.now.(eviction := NoFile)) else p
    case BeginRecord => if p.now.restore.Json? then p.(read := p.read + {p.now.restoreGen}) else p
    case EndRecord(gen, scannedAt) =>
      if gen in p.read && gen < |p.issued| && ValidScan(ScanRecord(MARKER_VERSION, blockId, p.issued[gen], scannedAt), blockId) then
        p.(now := p.now.(scan := Json(ScanRecord(MARKER_VERSION, blockId, p.issued[gen], scannedAt)), scanGen := gen))
      else p
    case DropRestore => if p.now.blk == NoBlk then p.(now := p.now.(restore := NoFile, scan := NoFile)) else p
    case PowerLoss => p
  }

  function DoneAll(blockId: uint64, p: Past, ops: seq<Op>): Past
  {
    if ops == [] then p else Done(blockId, DoneAll(blockId, p, ops[..|ops| - 1]), ops[|ops| - 1])
  }

  /** No two restores of a history carry one timestamp. */
  predicate DistinctRestores(ops: seq<Op>)
  {
    forall i, j :: 0 <= i < j < |ops| && ops[i].Publish? && ops[j].Publish? ==> ops[i].restoredAtUs != ops[j].restoredAtUs
  }

  /** Any timestamp used twice: the record of the first restore, written when that was scanned,
      passes for the second, whose marker no recorder has read. */
  lemma RepeatedTimestamp(blockId: uint64, t: int64, scannedAt: int64)
    requires blockId != 0 && t > 0 && scannedAt > 0
    ensures var ops := [Publish(t, "backend", "read"), BeginRecord, EndRecord(0, scannedAt),
                        Evict("k", 1, "t", 7, "manual", "run"), Unlink, Publish(t, "backend", "read")];
            var p := DoneAll(blockId, Past(SEALED, [], {}), ops);
            p.now.blk == Restored(1) && p.read == {0} && p.issued == [t, t] && !PendingScan(blockId, p.now)
  {
    hide DoneAll;
    var publish := Publish(t, "backend", "read");
    var evict := Evict("k", 1, "t", 7, "manual", "run");
    var p0 := Past(SEALED, [], {});
    Prefixes6(blockId, p0, publish, BeginRecord, EndRecord(0, scannedAt), evict, Unlink, publish);
    var p2 := Done(blockId, Done(blockId, p0, publish), BeginRecord);
    assert p2.read == {0} && p2.issued == [t];
    var p3 := Done(blockId, p2, EndRecord(0, scannedAt));
    assert p3.now.scan == Json(ScanRecord(MARKER_VERSION, blockId, t, scannedAt));
    var p5 := Done(blockId, Done(blockId, p3, evict), Unlink);
    assert p5.now.scan == p3.now.scan && p5.issued == [t];
  }

  /** Or written late, after the second restore, even though eviction had removed both markers. */
  lemma RepeatedTimestampLateRecord(blockId: uint64, t: int64, scannedAt: int64)
    requires blockId != 0 && t > 0 && scannedAt > 0
    ensures var ops := [Publish(t, "backend", "read"), BeginRecord, Evict("k", 1, "t", 7, "manual", "run"), Unlink,
                        DropRestore, Publish(t, "backend", "read"), EndRecord(0, scannedAt)];
            var p := DoneAll(blockId, Past(SEALED, [], {}), ops);
            p.now.blk == Restored(1) && p.read == {0} && p.issued == [t, t] && !PendingScan(blockId, p.now)
  {
    hide DoneAll;
    var publish := Publish(t, "backend", "read");
    var evict := Evict("k", 1, "t", 7, "manual", "run");
    var p0 := Past(SEALED, [], {});
    var init := [publish, BeginRecord, evict, Unlink, DropRestore, publish];
    DoneSnoc(blockId, p0, init, EndRecord(0, scannedAt));
    assert init + [EndRecord(0, scannedAt)]
           == [publish, BeginRecord, evict, Unlink, DropRestore, publish, EndRecord(0, scannedAt)];
    Prefixes6(blockId, p0, publish, BeginRecord, evict, Unlink, DropRestore, publish);
    var p2 := Done(blockId, Done(blockId, p0, publish), BeginRecord);
    assert p2.read == {0} && p2.issued == [t];
    var p5 := Done(blockId, Done(blockId, Done(blockId, p2, evict), Unlink), DropRestore);
    assert p5.issued == [t] && p5.now.blk == NoBlk;
  }

  lemma Prefixes6(blockId: uint64, p: Past, a: Op, b: Op, c: Op, d: Op, e: Op, f: Op)
    ensures DoneAll(blockId, p, [a, b, c, d, e, f]) ==
            Done(blockId, Done(blockId, Done(blockId, Done(blockId, Done(blockId, Done(blockId, p, a), b), c), d), e), f)
  {
    hide Done, DoneAll;
    NothingDone(blockId, p);
    Done3(blockId, p, [], a, b, c);
    Done3(blockId, p, [a, b, c], d, e, f);
    assert [] + [a, b, c] == [a, b, c] && [a, b, c] + [d, e, f] == [a, b, c, d, e, f];
  }

  lemma NothingDone(blockId: uint64, p: Past)
    ensures DoneAll(blockId, p, []) == p
  {
  }

  lemma Done3(blockId: uint64, p: Past, ops: seq<Op>, a: Op, b: Op, c: Op)
    ensures DoneAll(blockId, p, ops + [a, b, c]) ==
            Done(blockId, Done(blockId, Done(blockId, DoneAll(blockId, p, ops), a), b), c)
  {
    hide Done, DoneAll;
    DoneSnoc(blockId, p, ops, a);
    DoneSnoc(blockId, p, ops + [a], b);
    DoneSnoc(blockId, p, ops + [a] + [b], c);
    assert ops + [a, b, c] == ops + [a] + [b] + [c];
  }

  lemma DoneSnoc(blockId: uint64, p: Past, ops: seq<Op>, op: Op)
    ensures DoneAll(blockId, p, ops + [op]) == Done(blockId, DoneAll(blockId, p, ops), op)
  {
    hide Done;
    assert (ops + [op])[..|ops|] == ops;
  }

  /** Any interleaving of evictions, restores, scan records, failures and crashes.  With distinct
      restore timestamps a restored Block is pending, in every state a crash may leave, until a
      recorder has read the marker of that restore or of a later one. */
  method RunLifecycle(blockId: uint64, ops: seq<Op>) returns (d: BlockDir, ok: bool)
    requires blockId != 0
    ensures fresh(d) && d.Valid() && d.blockId == blockId
    ensures ok ==> d.State() == DoneAll(blockId, Past(SEALED, [], {}), ops)
    ensures forall f :: f in d.since ==>
              Classify(blockId, f).1 && Classify(blockId, f).0.state in {Hot, HotCleanupNeeded, Evicted}
    ensures forall f :: f in d.since && f.blk.Restored? ==> f.restore.Json?
    ensures DistinctRestores(ops) ==>
              forall f :: f in d.since && f.blk.Restored? ==> PendingScan(blockId, f) || d.Vouched(f.blk.gen)
  {
    hide Done;
    d := new BlockDir(blockId);
    ok := true;
    for i := 0 to |ops|
      invariant fresh(d) && d.Valid() && d.blockId == blockId
      invariant ok ==> d.State() == DoneAll(blockId, Past(SEALED, [], {}), ops[..i])
      invariant forall t :: t in d.issued ==> Published(ops[..i], t)
      invariant DistinctRestores(ops) ==> Distinct(d.issued)
    {
      assert ops[..i + 1][..i] == ops[..i];
      OneMorePublished(ops, i);
      var done := Perform(d, ops[i]);
      ok := ok && done;
    }
    assert ops[..|ops|] == ops;
    forall f | f in d.since
      ensures Classify(blockId, f).1 && Classify(blockId, f).0.state in {Hot, HotCleanupNeeded, Evicted}
    {
      NoLossMeans(blockId, f);
    }
    forall f | f in d.since && f.blk.Restored?
      ensures f.restore.Json? && (DistinctRestores(ops) ==> PendingScan(blockId, f) || d.Vouched(f.blk.gen))
    {
      d.PendingUntilRecorded(f);
    }
  }

  ghost predicate Published(ops: seq<Op>, t: int64)
  {
    exists i :: 0 <= i < |ops| && ops[i].Publish? && ops[i].restoredAtUs == t
  }

  lemma OneMorePublished(ops: seq<Op>, i: nat)
    requires i < |ops|
    ensures forall t :: Published(ops[..i], t) ==> Published(ops[..i + 1], t)
    ensures ops[i].Publish? ==> Published(ops[..i + 1], ops[i].restoredAtUs)
    ensures DistinctRestores(ops) && ops[i].Publish? ==> !Published(ops[..i], ops[i].restoredAtUs)
  {
    if ops[i].Publish? {
      assert ops[..i + 1][i] == ops[i];
    }
    forall t | Published(ops[..i], t)
      ensures Published(ops[..i + 1], t)
    {
      var j :| 0 <= j < |ops[..i]| && ops[..i][j].Publish? && ops[..i][j].restoredAtUs == t;
      assert ops[..i + 1][j] == ops[..i][j];
    }
  }

  method Perform(d: BlockDir, op: Op) returns (ok: bool)
    requires d.Valid()
    modifies d
    ensures d.Valid()
    ensures ok ==> d.State() == Done(d.blockId, old(d.State()), op)
    ensures d.issued == old(d.issued) || (op.Publish? && d.issued == old(d.issued) + [op.restoredAtUs])
  {
    assert d.now in d.since;
    ok := true;
    match op {
      case Evict(key, size, token, at, trigger, reason) =>
        ok := d.PrepareEviction(key, size, token, at, trigger, reason);
      case Unlink =>
        if d.now.eviction.Json? {
          var removed;
          removed, ok := d.UnlinkBlockData();
        }
      case Publish(at, source, reason) =>
        var published;
        published, ok := d.PublishRestoredBlock(at, source, reason);
      case DropEviction =>
        if d.now.blk != NoBlk {
          ok := d.RemoveEvictionMarker();
        }
      case Cleanup =>
        var removed;
        removed, ok := d.CleanupHotMarker();
      case BeginRecord =>
        var _, _ := d.ReadForRecord();
      case EndRecord(gen, scannedAt) =>
        if gen in d.read {
          ok := d.WriteRecord(d.issued[gen], gen, scannedAt);
        }
      case DropRestore =>
        if d.now.blk == NoBlk {
          ok := d.RemoveRestoreMarker();
        }
      case PowerLoss =>
        d.Crash();
        ok := false;
    }
  }

  /** Every Block's files in one directory, as the startup sweep sees them. */
  class BlocksDirectory {
    var files: map<uint64, Files>

    constructor (files: map<uint64, Files>)
      ensures this.files == files
    {
      this.files := files;
    }

    /** cleanupHotMarker, without the directory sync. */
    method SweepBlock(id: uint64) returns (failed: bool)
      requires id in files
      modifies this
      ensures id in files && files == old(files)[id := files[id]]
      ensures files[id] == old(files[id]) || Swept(id, old(files[id]), files[id])
      ensures !Classify(id, old(files[id])).1 ==> failed
      ensures !failed ==> Classify(id, files[id]).0.state != HotCleanupNeeded
    {
      hide Classify, Swept;
      SweepOne(id, files[id]);
      var (c, ok) := Classify(id, files[id]);
      failed := !ok;
      if ok && c.state == HotCleanupNeeded {
        failed := *;
        if !failed {
          files := files[id := files[id].(eviction := NoFile)];
        }
      }
    }

    /** CleanupHotMarkers: one bad marker never stops the sweep. */
    method CleanupHotMarkers() returns (failures: seq<uint64>)
      modifies this
      ensures files.Keys == old(files.Keys)
      ensures forall id :: id in files ==>
                files[id] == old(files[id]) || Swept(id, old(files[id]), files[id])
      ensures forall id :: id in files && old(files[id]).eviction != NoFile && !Classify(id, old(files[id])).1 ==> id in failures
      ensures forall id :: id in files && id !in failures ==> Classify(id, files[id]).0.state != HotCleanupNeeded
    {
      hide Classify, Swept, Turn;
      failures := [];
      ghost var was := files;
      var todo := set id | id in files && files[id].eviction != NoFile;
      forall id | id in files
        ensures Turn(id, was[id], files[id], id in todo, id in failures)
      {
        FirstTurn(id, files[id]);
      }
      while todo != {}
        invariant todo <= files.Keys == was.Keys
        invariant forall id :: id in files ==> Turn(id, was[id], files[id], id in todo, id in failures)
        decreases todo
      {
        var id :| id in todo;
        ghost var before := files[id];
        var failed := SweepBlock(id);
        TurnTaken(id, was[id], before, files[id], id in failures, failed);
        if failed {
          failures := failures + [id];
        }
        todo := todo - {id};
      }
      forall id | id in files
        ensures files[id] == was[id] || Swept(id, was[id], files[id])
        ensures was[id].eviction != NoFile && !Classify(id, was[id]).1 ==> id in failures
        ensures id !in failures ==> Classify(id, files[id]).0.state != HotCleanupNeeded
      {
        TurnMeans(id, was[id], files[id], id in failures);
      }
    }
  }

  /** Where a Block stands during the sweep. */
  predicate Turn(id: uint64, before: Files, after: Files, waiting: bool, failed: bool)
  {
    && (after == before || Swept(id, before, after))
    && (waiting ==> after == before)
    && (!waiting && before.eviction != NoFile && !Classify(id, before).1 ==> failed)
    && (!waiting && !failed ==> Classify(id, after).0.state != HotCleanupNeeded)
  }

  lemma FirstTurn(id: uint64, f: Files)
    ensures Turn(id, f, f, f.eviction != NoFile, false)
  {
  }

  lemma TurnTaken(id: uint64, was: Files, before: Files, after: Files, had: bool, failed: bool)
    requires Turn(id, was, before, true, had) && (after == before || Swept(id, before, after))
    requires (!Classify(id, before).1 ==> failed) && (!failed ==> Classify(id, after).0.state != HotCleanupNeeded)
    ensures Turn(id, was, after, false, had || failed)
  {
  }

  lemma TurnMeans(id: uint64, before: Files, after: Files, failed: bool)
    requires Turn(id, before, after, false, failed)
    ensures after == before || Swept(id, before, after)
    ensures before.eviction != NoFile && !Classify(id, before).1 ==> failed
    ensures !failed ==> Classify(id, after).0.state != HotCleanupNeeded
  {
  }

  /** What the sweep may do to a Block: drop the eviction marker of data that is present. */
  predicate Swept(id: uint64, before: Files, after: Files)
  {
    Classify(id, before) == (Lifecycle(HotCleanupNeeded, true, true), true) && after == before.(eviction := NoFile)
  }

  lemma SweepOne(id: uint64, f: Files)
    ensures f.eviction == NoFile ==> Classify(id, f).0.state != HotCleanupNeeded
    ensures Classify(id, f).0.state == HotCleanupNeeded ==>
              && Swept(id, f, f.(eviction := NoFile))
              && Classify(id, f.(eviction := NoFile)).0.state != HotCleanupNeeded
  {
  }

  /** With nothing lost beforehand, whatever the sweep reports as done is hot or evicted. */
  lemma SweepLeavesHotOrEvicted(id: uint64, before: Files, after: Files)
    requires NoLoss(id, before) && (after == before || Swept(id, before, after))
    requires Classify(id, after).0.state != HotCleanupNeeded
    ensures NoLoss(id, after) && Classify(id, after).0.state in {Hot, Evicted} && after.blk == before.blk
  {
  }
}
