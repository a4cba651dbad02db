/** Quarantine of a damaged Block and its replacement from a peer, with a crash or a
    failed call allowed at every directory operation.  Directory operations are assumed
    ordered: a crash keeps some prefix of those since the last directory sync. */
module Repair {
  import opened Bytes
  import opened Storage
  import opened Frame
  import opened Layout
  import opened Index
  import opened Collections
  import opened Verify

  datatype Kind = Blk | Idx | BlkQ | IdxQ | BlkStaged | IdxStaged | BlkTmp | IdxTmp

  datatype Name = Name(id: uint64, kind: Kind)

  /** The blocks directory.  `held` remembers the Blocks whose quarantine rename has landed and
      was not undone by its own rollback or by Unquarantine; `excused` the Blocks an
      Unquarantine has touched, or that were half-hidden to begin with. */
  datatype Dir = Dir(files: map<Name, Bytes>, held: set<uint64>, excused: set<uint64>)

  /** What verifyStagedReplacement accepts: the Block's own identity and a clean deep scan. */
  predicate Verified(h: Hashes, json: Bytes -> EnvelopeView, shardId: uint64, id: uint64, blk: Bytes, idx: Bytes)
  {
    && HeaderAccepted(h, blk, shardId, id)
    && var entries := ReadIndex(h, idx);
    entries.Some? && VerifyFrom(h, json, entries.value, BehindHeader(blk), VERIFY_START).corrupt == []
  }

  /** One peer's answer: what reached the staging files and whether the transfer reported success. */
  datatype Fetch = Fetch(blk: Option<Bytes>, idx: Option<Bytes>, ok: bool)

  predicate FetchCompletes(x: Fetch)
  {
    x.ok ==> x.blk.Some? && x.idx.Some?
  }

  /** The index in quarantine but not the data: listed nowhere, and skipped by the scrub. */
  predicate HalfHidden(files: map<Name, Bytes>, id: uint64)
  {
    Name(id, Blk) in files && Name(id, Idx) !in files && Name(id, BlkQ) !in files && Name(id, IdxQ) in files
  }

  /** Releasing data first makes this very state visible to a crash between the two renames. */
  lemma ReleaseHalfHides(files: map<Name, Bytes>, id: uint64)
    requires Name(id, BlkQ) in files && Name(id, Blk) !in files && Name(id, Idx) !in files
    ensures HalfHidden(Moved(files, Name(id, BlkQ), Name(id, Blk)), id) <==> Name(id, IdxQ) in files
  {
  }

  class Folder {
    const h: Hashes
    const json: Bytes -> EnvelopeView
    const shardId: uint64
    /** IDs that stray names in the directory, such as 1.blk.quarantine, parse to. */
    const strays: set<uint64>
    /** No directory operation and no read of the staged files fails. */
    const healthy: bool
    var now: Dir
    /** The states since the last sync, oldest first; a crash may return to any of them. */
    var since: seq<Dir>

    ghost predicate Valid()
      reads this
    {
      since != [] && since[|since| - 1] == now && Kept(now) && forall d :: d in since ==> Kept(d)
    }

    /** Every Block that went into quarantine is still there, or has a verified replacement. */
    ghost predicate Kept(d: Dir)
    {
      && (forall id :: id in d.held ==> Listed(d, id) || Installed(d, id))
      && (forall id :: HalfHidden(d.files, id) ==> id in d.excused || id in strays)
    }

    /** What ListQuarantined finds: the Block's own quarantined data, or a stray name. */
    predicate Listed(d: Dir, id: uint64)
    {
      Name(id, BlkQ) in d.files || id in strays
    }

    ghost predicate Installed(d: Dir, id: uint64)
    {
      && Name(id, Blk) in d.files && Name(id, Idx) in d.files
      && Verified(h, json, shardId, id, d.files[Name(id, Blk)], d.files[Name(id, Idx)])
    }

    constructor (h: Hashes, json: Bytes -> EnvelopeView, shardId: uint64, files: map<Name, Bytes>, strays: set<uint64>,
                 healthy: bool)
      ensures Valid() && now == Dir(files, {}, Hidden(files))
      ensures this.h == h && this.json == json && this.shardId == shardId && this.strays == strays && this.healthy == healthy
    {
      this.h, this.json, this.shardId, this.strays, this.healthy := h, json, shardId, strays, healthy;
      now := Dir(files, {}, Hidden(files));
      since := [Dir(files, {}, Hidden(files))];
    }

    /** A step on one Block's files that keeps that Block listed, replaced or excused. */
    ghost predicate LocalStep(d: Dir, d': Dir, id: uint64)
    {
      && SameOutside(d.files, d'.files, id)
      && (forall other :: other != id ==> (other in d'.held <==> other in d.held))
      && d.excused <= d'.excused
      && (id in d'.held ==> Listed(d', id) || Installed(d', id))
      && (HalfHidden(d'.files, id) ==> id in d'.excused || id in strays)
    }

    lemma StepKeeps(d: Dir, d': Dir, id: uint64)
      requires Kept(d) && LocalStep(d, d', id)
      ensures Kept(d')
    {
      hide Verified;
      forall other | other != id
        ensures other in d'.held ==> Listed(d', other) || Installed(d', other)
        ensures HalfHidden(d'.files, other) ==> other in d'.excused || other in strays
      {
        assert SameAt(d.files, d'.files, Name(other, Blk)) && SameAt(d.files, d'.files, Name(other, BlkQ));
        assert SameAt(d.files, d'.files, Name(other, Idx)) && SameAt(d.files, d'.files, Name(other, IdxQ));
      }
    }

    method Change(d: Dir, ghost id: uint64)
      requires Valid() && LocalStep(now, d, id)
      modifies this
      ensures Valid() && now == d && since == old(since) + [d]
    {
      hide Kept, LocalStep;
      StepKeeps(now, d, id);
      now := d;
      since := since + [d];
    }

    /** Nothing but the files of this Block was touched, at no moment. */
    ghost predicate OnlyAt(was: Dir, before: seq<Dir>, id: uint64)
      reads this
    {
      Confined(was, before, now, since, id)
    }

    method Sync() returns (ok: bool)
      requires Valid()
      modifies this`since
      ensures Valid() && forall d :: d in since ==> d in old(since)
      ensures healthy ==> ok
    {
      ok :| healthy ==> ok;
      if ok {
        since := [now];
      }
    }

    /** Power loss: any prefix of the unsynced operations survives. */
    method Crash()
      requires Valid()
      modifies this
      ensures Valid() && now in old(since) && since == [now]
    {
      var i :| 0 <= i < |since|;
      now := since[i];
      since := [now];
    }

    /** Quarantine: the .blk is renamed first, and put back if the .idx cannot follow. */
    method Quarantine(id: uint64) returns (ok: bool)
      requires Valid()
      modifies this
      ensures Valid() && OnlyAt(old(now), old(since), id)
      ensures ok ==> Name(id, Blk) in old(now.files)
      ensures healthy && Name(id, Blk) in old(now.files) ==> ok
      ensures ok ==> id in now.held && Name(id, BlkQ) in now.files && Name(id, Blk) !in now.files
                     && Name(id, Idx) !in now.files && now.files[Name(id, BlkQ)] == old(now.files)[Name(id, Blk)]
      ensures ok && Name(id, Idx) in old(now.files) ==>
                Name(id, IdxQ) in now.files && now.files[Name(id, IdxQ)] == old(now.files)[Name(id, Idx)]
      ensures forall other :: other != id ==> (other in now.held <==> other in old(now.held))
    {
      hide Verified, Kept, Installed;
      var statOk :| healthy ==> statOk;
      if !statOk {
        return false;
      }
      var hasIdx := Name(id, Idx) in now.files;
      ok :| healthy ==> ok;
      if !ok || Name(id, Blk) !in now.files {
        return false;
      }
      Change(Dir(Moved(now.files, Name(id, Blk), Name(id, BlkQ)), now.held + {id}, now.excused), id);
      if hasIdx {
        ok :| healthy ==> ok;
        if !ok {
          var undone := *;
          if undone {
            Change(Dir(Moved(now.files, Name(id, BlkQ), Name(id, Blk)), now.held - {id}, now.excused), id);
          }
          return false;
        }
        Change(now.(files := Moved(now.files, Name(id, Idx), Name(id, IdxQ))), id);
      }
      ok := Sync();
    }

    /** Unquarantine, which refuses to rename over a Block that has come back. */
    method Unquarantine(id: uint64) returns (ok: bool)
      requires Valid()
      modifies this
      ensures Valid() && OnlyAt(old(now), old(since), id)
      ensures ok ==> Releasable(old(now.files), id)
      ensures healthy && Releasable(old(now.files), id) ==> ok
      ensures !Releasable(old(now.files), id) ==> now == old(now) && since == old(since)
      ensures ok ==> id !in now.held && Name(id, Blk) in now.files && now.files[Name(id, Blk)] == old(now.files)[Name(id, BlkQ)]
      ensures ok && Name(id, IdxQ) in old(now.files) ==>
                Name(id, Idx) in now.files && now.files[Name(id, Idx)] == old(now.files)[Name(id, IdxQ)]
    {
      hide Verified, Kept, Installed;
      ok :| healthy ==> ok;
      if !ok || !Releasable(now.files, id) {
        return false;
      }
      ok :| healthy ==> ok;
      if !ok {
        return;
      }
      Change(Dir(Moved(now.files, Name(id, BlkQ), Name(id, Blk)), now.held - {id}, now.excused + {id}), id);
      if Name(id, IdxQ) in now.files {
        ok :| healthy ==> ok;
        if !ok {
          var undone := *;
          if undone {
            Change(Dir(Moved(now.files, Name(id, Blk), Name(id, BlkQ)), now.held + {id}, now.excused), id);
          }
          return;
        }
        Change(now.(files := Moved(now.files, Name(id, IdxQ), Name(id, Idx))), id);
      }
      ok := Sync();
    }

    /** cleanupRepairStaging touches staging names only. */
    method CleanupRepairStaging(id: uint64) returns (ok: bool)
      requires Valid()
      modifies this
      ensures Valid() && SameButStaging(old(now), now, id) && OnlyAt(old(now), old(since), id)
      ensures healthy ==> ok
    {
      hide Verified;
      var paths := [Name(id, BlkStaged), Name(id, IdxStaged), Name(id, BlkTmp), Name(id, IdxTmp)];
      for i := 0 to |paths|
        invariant Valid() && SameButStaging(old(now), now, id) && OnlyAt(old(now), old(since), id)
      {
        if paths[i] in now.files {
          ok :| healthy ==> ok;
          if !ok {
            return;
          }
          Change(now.(files := now.files - {paths[i]}), id);
        }
      }
      ok := true;
    }

    /** The transfer may leave anything in the staging files, whole or not. */
    method Transfer(id: uint64, x: Fetch) returns (ok: bool)
      requires Valid() && FetchCompletes(x)
      modifies this
      ensures Valid() && SameButStaging(old(now), now, id) && OnlyAt(old(now), old(since), id) && ok == x.ok
      ensures ok ==> Name(id, BlkStaged) in now.files && now.files[Name(id, BlkStaged)] == x.blk.value
                     && Name(id, IdxStaged) in now.files && now.files[Name(id, IdxStaged)] == x.idx.value
    {
      hide Verified;
      if x.blk.Some? {
        Change(now.(files := now.files[Name(id, BlkStaged) := x.blk.value]), id);
      }
      if x.idx.Some? {
        Change(now.(files := now.files[Name(id, IdxStaged) := x.idx.value]), id);
      }
      ok := x.ok;
    }

    /** promoteRepairStaging: data before metadata, and the data taken back if the metadata fails.
        The state after it, and every state a crash may find inside it, is one of four. */
    method PromoteRepairStaging(id: uint64) returns (p: Promotion)
      requires Valid() && Listed(now, id)
      requires Name(id, BlkStaged) in now.files && Name(id, IdxStaged) in now.files
      modifies this
      ensures Valid() && Listed(now, id) && now.held == old(now.held) && OnlyAt(old(now), old(since), id)
      ensures now.files == Reached(old(now.files), id, p)
      ensures p == NotBegun ==> since == old(since)
      ensures forall d :: d in since && d !in old(since) ==>
                exists q :: q in {DataOnly, TakenBack, Unsynced} && d.files == Reached(old(now.files), id, q)
      ensures healthy ==> p == Promoted
    {
      hide Verified, Kept, Installed;
      ghost var was := now.files;
      var ok :| healthy ==> ok;
      if !ok {
        return NotBegun;
      }
      Change(now.(files := Moved(now.files, Name(id, BlkStaged), Name(id, Blk))), id);
      assert now.files == Reached(was, id, DataOnly);
      ok :| healthy ==> ok;
      if !ok {
        var removed := *;
        if removed {
          Change(now.(files := now.files - {Name(id, Blk)}), id);
          assert now.files == Reached(was, id, TakenBack);
        }
        return if removed then TakenBack else DataOnly;
      }
      Change(now.(files := Moved(now.files, Name(id, IdxStaged), Name(id, Idx))), id);
      assert now.files == Reached(was, id, Unsynced);
      ok := Sync();
      p := if ok then Promoted else Unsynced;
    }

    /** removeQuarantineFiles, safe only because the replacement is in place and verified. */
    method RemoveQuarantineFiles(id: uint64) returns (ok: bool)
      requires Valid() && Installed(now, id)
      modifies this
      ensures Valid() && now.held == old(now.held) && OnlyAt(old(now), old(since), id)
      ensures SameAt(old(now.files), now.files, Name(id, Blk)) && SameAt(old(now.files), now.files, Name(id, Idx))
      ensures ok ==> Name(id, BlkQ) !in now.files && Name(id, IdxQ) !in now.files
      ensures healthy ==> ok
    {
      hide Verified;
      if Name(id, BlkQ) in now.files {
        ok :| healthy ==> ok;
        if !ok {
          return;
        }
        Change(now.(files := now.files - {Name(id, BlkQ)}), id);
      }
      if Name(id, IdxQ) in now.files {
        ok :| healthy ==> ok;
        if !ok {
          return;
        }
        Change(now.(files := now.files - {Name(id, IdxQ)}), id);
      }
      ok := Sync();
    }

    /** A peer's answer that may replace the Block. */
    predicate Suitable(id: uint64, x: Fetch)
      requires FetchCompletes(x)
    {
      x.ok && Verified(h, json, shardId, id, x.blk.value, x.idx.value)
    }

    /** Where a repair that got this far has left the Block's own files. */
    predicate LeftAt(was: map<Name, Bytes>, files: map<Name, Bytes>, id: uint64, x: Fetch, p: Promotion)
    {
      && (p == NotBegun ==> SameAt(was, files, Name(id, Blk)))
      && (p == TakenBack ==> Name(id, Blk) !in files)
      && (p in {DataOnly, Unsynced, Promoted} ==> Name(id, Blk) in files && Some(files[Name(id, Blk)]) == x.blk)
      && (if p in {Unsynced, Promoted} then Name(id, Idx) in files && Some(files[Name(id, Idx)]) == x.idx
          else SameAt(was, files, Name(id, Idx)))
    }

    /** Whether a verified pair that was in place is there still, or a new one: not if the promotion
        took the new data back, nor if it stopped between the renames and the old index does not
        verify with the new data. */
    predicate StillWhole(id: uint64, x: Fetch, p: Promotion, oldIdx: Bytes)
    {
      p != TakenBack && (p == DataOnly ==> x.blk.Some? && Verified(h, json, shardId, id, x.blk.value, oldIdx))
    }

    /** repairFromPeer: success means a verified replacement is installed, and failure
        leaves the Block in quarantine.  Where nothing fails, exactly the suitable answers succeed. */
    method RepairFromPeer(id: uint64, x: Fetch) returns (ok: bool, p: Promotion)
      requires Valid() && Listed(now, id) && FetchCompletes(x)
      modifies this
      ensures Valid() && now.held == old(now.held) && OnlyAt(old(now), old(since), id)
      ensures ok <==> p == Promoted
      ensures p != NotBegun ==> Suitable(id, x)
      ensures LeftAt(old(now.files), now.files, id, x, p)
      ensures ok ==> Installed(now, id)
      ensures !ok ==> Listed(now, id)
      ensures healthy ==> (ok <==> Suitable(id, x)) && p in {NotBegun, Promoted}
      ensures healthy && ok ==> Name(id, BlkQ) !in now.files && Name(id, IdxQ) !in now.files
      ensures old(Installed(now, id)) ==> (Installed(now, id) <==> StillWhole(id, x, p, old(now.files)[Name(id, Idx)]))
    {
      hide Verified, Valid, Confined, Reached;
      p := NotBegun;
      ok := FetchReplacement(id, x);
      if !ok {
        return;
      }
      ghost var staged, stagedSince := now, since;
      p := PromoteRepairStaging(id);
      ReachedMeans(old(now.files), staged.files, id, x, p);
      ConfinedTwice(old(now), old(since), staged, stagedSince, now, since, id);
      ghost var reached, reachedSince := now, since;
      ok := p == Promoted;
      if ok {
        var _ := RemoveQuarantineFiles(id);
      } else {
        var _ := CleanupRepairStaging(id);
      }
      ConfinedTwice(old(now), old(since), reached, reachedSince, now, since, id);
    }

    lemma ReachedMeans(was: map<Name, Bytes>, staged: map<Name, Bytes>, id: uint64, x: Fetch, p: Promotion)
      requires SameAt(was, staged, Name(id, Blk)) && SameAt(was, staged, Name(id, Idx))
      requires Name(id, BlkStaged) in staged && Some(staged[Name(id, BlkStaged)]) == x.blk
      requires Name(id, IdxStaged) in staged && Some(staged[Name(id, IdxStaged)]) == x.idx
      ensures LeftAt(was, Reached(staged, id, p), id, x, p)
    {
    }

    /** The steps before promotion: fetch into staging and verify there. */
    method FetchReplacement(id: uint64, x: Fetch) returns (ok: bool)
      requires Valid() && FetchCompletes(x)
      modifies this
      ensures Valid() && SameButStaging(old(now), now, id) && OnlyAt(old(now), old(since), id)
      ensures ok ==> Suitable(id, x)
      ensures ok ==> Name(id, BlkStaged) in now.files && now.files[Name(id, BlkStaged)] == x.blk.value
                     && Name(id, IdxStaged) in now.files && now.files[Name(id, IdxStaged)] == x.idx.value
      ensures healthy ==> (ok <==> Suitable(id, x))
    {
      hide Verified, Valid, Confined;
      ok := CleanupRepairStaging(id);
      if !ok {
        return;
      }
      ghost var clean, cleanSince := now, since;
      ok := Transfer(id, x);
      ConfinedTwice(old(now), old(since), clean, cleanSince, now, since, id);
      if ok {
        ok := VerifyStaged(h, json, shardId, id, now.files[Name(id, BlkStaged)], now.files[Name(id, IdxStaged)], healthy);
      }
      if !ok {
        ghost var fetched, fetchedSince := now, since;
        var _ := CleanupRepairStaging(id);
        ConfinedTwice(old(now), old(since), fetched, fetchedSince, now, since, id);
      }
    }

    /** repairFromPeers: peers are tried in turn until one succeeds.  `harmed` tells of a promotion
        that began and failed. */
    method RepairFromPeers(id: uint64, answers: seq<Fetch>) returns (ok: bool, harmed: bool)
      requires Valid() && Listed(now, id) && forall x :: x in answers ==> FetchCompletes(x)
      modifies this
      ensures Valid() && now.held == old(now.held) && OnlyAt(old(now), old(since), id)
      ensures if ok then Installed(now, id) else Listed(now, id)
      ensures ok ==> exists x :: x in answers && Suitable(id, x) && LeftAt(old(now.files), now.files, id, x, Promoted)
      ensures !ok && !harmed ==> SameAt(old(now.files), now.files, Name(id, Blk)) && SameAt(old(now.files), now.files, Name(id, Idx))
      ensures healthy ==> !harmed && (ok <==> exists x :: x in answers && Suitable(id, x))
      ensures healthy && ok ==> Name(id, BlkQ) !in now.files && Name(id, IdxQ) !in now.files
    {
      hide Verified, Valid;
      harmed := false;
      for i := 0 to |answers|
        invariant Valid() && now.held == old(now.held) && Listed(now, id) && OnlyAt(old(now), old(since), id)
        invariant !harmed ==> SameAt(old(now.files), now.files, Name(id, Blk)) && SameAt(old(now.files), now.files, Name(id, Idx))
        invariant healthy ==> !harmed && forall x :: x in answers[..i] ==> !Suitable(id, x)
      {
        var p;
        ok, p := RepairFromPeer(id, answers[i]);
        if ok {
          return;
        }
        harmed := harmed || p != NotBegun;
        assert answers[..i + 1] == answers[..i] + [answers[i]];
      }
      ok := false;
      assert answers[..|answers|] == answers;
    }
  }

  /** How far a promotion got: nothing renamed, the data alone, the data taken back, both renamed
      but the directory not synced, or all of it. */
  datatype Promotion = NotBegun | DataOnly | TakenBack | Unsynced | Promoted

  function Reached(files: map<Name, Bytes>, id: uint64, p: Promotion): map<Name, Bytes>
    requires Name(id, BlkStaged) in files && Name(id, IdxStaged) in files
  {
    var mid := Moved(files, Name(id, BlkStaged), Name(id, Blk));
    match p
    case NotBegun => files
    case DataOnly => mid
    case TakenBack => mid - {Name(id, Blk)}
    case Unsynced => Moved(mid, Name(id, IdxStaged), Name(id, Idx))
    case Promoted => Moved(mid, Name(id, IdxStaged), Name(id, Idx))
  }

  /** Between the two renames of a promotion the Block has data without an index if and only if it
      had no index before.  It has one when quarantine was cut behind its own first rename: then
      the new data stands beside the old index. */
  lemma BetweenTheRenames(files: map<Name, Bytes>, id: uint64, x: Fetch)
    requires x.blk.Some? && x.idx.Some?
    ensures var staged := files[Name(id, BlkStaged) := x.blk.value][Name(id, IdxStaged) := x.idx.value];
            var mid := Reached(staged, id, DataOnly);
            && mid[Name(id, Blk)] == x.blk.value && SameAt(files, mid, Name(id, Idx))
    ensures Name(id, Blk) in files && Name(id, Idx) in files ==>
              var cut := Moved(files, Name(id, Blk), Name(id, BlkQ));
              var staged := cut[Name(id, BlkStaged) := x.blk.value][Name(id, IdxStaged) := x.idx.value];
              var mid := Reached(staged, id, DataOnly);
              && Name(id, Idx) in mid && mid[Name(id, Idx)] == files[Name(id, Idx)]
              && mid[Name(id, BlkQ)] == files[Name(id, Blk)] && mid[Name(id, Blk)] == x.blk.value
  {
  }

  function Hidden(files: map<Name, Bytes>): set<uint64>
  {
    set n | n in files && HalfHidden(files, n.id) :: n.id
  }

  function Moved(files: map<Name, Bytes>, src: Name, dst: Name): map<Name, Bytes>
    requires src in files && src != dst
  {
    (files - {src})[dst := files[src]]
  }

  predicate SameAt(a: map<Name, Bytes>, b: map<Name, Bytes>, n: Name)
  {
    (n in a <==> n in b) && (n in a ==> a[n] == b[n])
  }

  /** No other Block's files differ. */
  ghost predicate SameOutside(a: map<Name, Bytes>, b: map<Name, Bytes>, id: uint64)
  {
    forall n: Name :: n.id != id ==> SameAt(a, b, n)
  }

  ghost predicate Confined(was: Dir, before: seq<Dir>, now: Dir, since: seq<Dir>, id: uint64)
  {
    && SameOutside(was.files, now.files, id)
    && forall d :: d in since ==> d in before || SameOutside(was.files, d.files, id)
  }

  lemma ConfinedTwice(was: Dir, before: seq<Dir>, mid: Dir, between: seq<Dir>, now: Dir, since: seq<Dir>, id: uint64)
    requires Confined(was, before, mid, between, id) && Confined(mid, between, now, since, id)
    ensures Confined(was, before, now, since, id)
  {
  }

  /** Something to release, and nothing in its way. */
  predicate Releasable(files: map<Name, Bytes>, id: uint64)
  {
    Name(id, BlkQ) in files && Name(id, Blk) !in files && Name(id, Idx) !in files
  }

  ghost predicate SameButStaging(a: Dir, b: Dir, id: uint64)
  {
    && a.held == b.held
    && forall n: Name :: (n.id == id ==> n.kind !in {BlkStaged, IdxStaged, BlkTmp, IdxTmp}) ==> SameAt(a.files, b.files, n)
  }

  /** VerifyHeader: opening or reading the file may fail on its own account. */
  method VerifyHeader(h: Hashes, f: File, shardId: uint64, id: uint64) returns (ok: bool)
    requires f.pos == 0
    modifies f`pos
    ensures ok ==> HeaderAccepted(h, f.data, shardId, id)
    ensures f.healthy ==> ok == HeaderAccepted(h, f.data, shardId, id)
  {
    ok :| f.healthy ==> ok;
    if !ok {
      return;
    }
    var hdr, err := f.ReadFull(BLOCK_HEADER_SIZE);
    if err != NoError {
      return false;
    }
    ghost var d := f.data;
    assert hdr[..4] == d[..4] && hdr[4..6] == d[4..6] && hdr[6..8] == d[6..8] && hdr[8..16] == d[8..16];
    assert hdr[16..24] == d[16..24] && hdr[36..40] == d[36..40] && hdr[..36] == d[..36];
    ok := && hdr[..4] == BLOCK_MAGIC && Uint16(hdr[4..6]) == 1 && Uint16(hdr[6..8]) == BLOCK_HEADER_SIZE
          && Uint64(hdr[8..16]) == shardId && Uint64(hdr[16..24]) == id && Uint32(hdr[36..40]) == h.crc(hdr[..36]);
  }

  lemma AcceptedIsIntact(h: Hashes, data: Bytes, shardId: uint64, id: uint64)
    requires HeaderAccepted(h, data, shardId, id)
    ensures HeaderIntact(h, data)
  {
  }

  /** verifyStagedReplacement, on the two staged files. */
  method VerifyStaged(h: Hashes, json: Bytes -> EnvelopeView, shardId: uint64, id: uint64, blk: Bytes, idx: Bytes,
                      healthy: bool)
    returns (ok: bool)
    ensures ok ==> Verified(h, json, shardId, id, blk, idx)
    ensures healthy ==> ok == Verified(h, json, shardId, id, blk, idx)
  {
    hide HeaderAccepted, ReadIndex, VerifyFrom, HeaderIntact;
    var b := new File(blk, healthy);
    ok := VerifyHeader(h, b, shardId, id);
    if !ok {
      return;
    }
    AcceptedIsIntact(h, blk, shardId, id);
    var again := new File(blk, healthy);
    var i := new File(idx, healthy);
    var r, faulted := VerifyBlock(h, json, again, i);
    ok := r.Some? && r.value.corrupt == [];
  }

  // ---------------------------------------------------------------- whole histories

  datatype Op =
    | DoQuarantine(id: uint64)
    | DoUnquarantine(id: uint64)
    | DoRepair(id: uint64, answers: seq<Fetch>)
    | PowerLoss

  /** Any sequence of quarantines, repair passes, manual releases and crashes over any Blocks:
      in every state a crash could leave, what went into quarantine is listed or replaced.
      Repair is reached only for Blocks that are listed.  A Block at rest, out of quarantine and
      not listed, is touched by nothing but its own quarantine. */
  method RunRepairs(f: Folder, ops: seq<Op>, strayNames: seq<string>) returns (listed: seq<uint64>)
    requires f.Valid() && f.strays == StrayIds(strayNames)
    requires forall op, x :: op in ops && op.DoRepair? && x in op.answers ==> FetchCompletes(x)
    modifies f
    ensures f.Valid()
    ensures forall d, id :: d in f.since && id in d.held ==> f.Listed(d, id) || f.Installed(d, id)
    ensures forall d, id :: d in f.since && HalfHidden(d.files, id) ==> id in d.excused || id in f.strays
    ensures forall id :: id in f.now.held ==> id in listed || f.Installed(f.now, id)
    ensures forall id :: id in listed <==> f.Listed(f.now, id)
    ensures forall id :: id !in f.strays && DoQuarantine(id) !in ops && AtRest(old(f.since), old(f.now.files), id) ==>
              AtRest(f.since, old(f.now.files), id)
  {
    hide AtRest;
    for i := 0 to |ops|
      invariant f.Valid()
      invariant forall id :: id !in f.strays && DoQuarantine(id) !in ops && AtRest(old(f.since), old(f.now.files), id) ==>
                  AtRest(f.since, old(f.now.files), id)
    {
      Perform(f, ops[i], old(f.now.files));
    }
    var own := EntryNames(f.now.files.Keys);
    var names := own + strayNames;
    listed := ListQuarantined(names);
    forall id
      ensures id in listed <==> f.Listed(f.now, id)
    {
      ListedExactly(f.now.files.Keys, own, strayNames, id);
    }
  }

  /** Out of quarantine in every state a crash may return to, with these very files. */
  ghost predicate AtRest(since: seq<Dir>, files: map<Name, Bytes>, id: uint64)
  {
    forall d :: d in since ==>
      Name(id, BlkQ) !in d.files && SameAt(files, d.files, Name(id, Blk)) && SameAt(files, d.files, Name(id, Idx))
  }

  method Perform(f: Folder, op: Op, ghost files: map<Name, Bytes>)
    requires f.Valid() && (op.DoRepair? ==> forall x :: x in op.answers ==> FetchCompletes(x))
    modifies f
    ensures f.Valid()
    ensures forall id :: id !in f.strays && op != DoQuarantine(id) && AtRest(old(f.since), files, id) ==> AtRest(f.since, files, id)
  {
    match op {
      case DoQuarantine(id) =>
        var _ := f.Quarantine(id);
      case DoUnquarantine(id) =>
        var _ := f.Unquarantine(id);
      case DoRepair(id, answers) =>
        if f.Listed(f.now, id) {
          var _, _ := f.RepairFromPeers(id, answers);
        }
      case PowerLoss =>
        f.Crash();
    }
  }

  // ------------------------------------------------------------- names and the listing

  const QUARANTINED := ".blk.quarantine"

  function Suffix(k: Kind): string
  {
    match k
    case Blk => ".blk"
    case Idx => ".idx"
    case BlkQ => ".blk.quarantine"
    case IdxQ => ".idx.quarantine"
    case BlkStaged => ".blk.repair"
    case IdxStaged => ".idx.repair"
    case BlkTmp => ".blk.repair.tmp"
    case IdxTmp => ".idx.repair.tmp"
  }

  function HexDigit(n: nat): char
    requires n < 16
  {
    "0123456789abcdef"[n]
  }

  /** The k low hexadecimal digits of n, most significant first. */
  function Hex(n: nat, k: nat): (s: string)
    ensures |s| == k
  {
    if k == 0 then "" else Hex(n / 16, k - 1) + [HexDigit(n % 16)]
  }

  function Text(n: Name): string
  {
    Hex(n.id, 16) + Suffix(n.kind)
  }

  function DigitValue(c: char): Option<nat>
  {
    if '0' <= c <= '9' then Some((c - '0') as nat)
    else if 'a' <= c <= 'f' then Some((c - 'a') as nat + 10)
    else if 'A' <= c <= 'F' then Some((c - 'A') as nat + 10)
    else None
  }

  /** The number a string of hexadecimal digits denotes, however long. */
  function Value(s: string): (r: Option<nat>)
  {
    if s == "" then Some(0)
    else
      var hi := Value(s[..|s| - 1]);
      var lo := DigitValue(s[|s| - 1]);
      if hi == None || lo == None then None else Some(16 * hi.value + lo.value)
  }

  /** strconv.ParseUint(s, 16, 64). */
  function ParseUint(s: string): Option<uint64>
  {
    if s == "" then None
    else
      var v := Value(s);
      if v == None || v.value >= TWO_64 then None else Some(v.value)
  }

  function QuarantinedId(name: string): Option<uint64>
  {
    var k := |name| - |QUARANTINED|;
    if k < 0 || name[k..] != QUARANTINED then None else ParseUint(name[..k])
  }

  function Pow16(k: nat): nat
  {
    if k == 0 then 1 else 16 * Pow16(k - 1)
  }

  lemma DigitRoundTrip(d: nat)
    requires d < 16
    ensures DigitValue(HexDigit(d)) == Some(d)
  {
  }

  lemma {:induction false} HexValue(n: nat, k: nat)
    requires n < Pow16(k)
    ensures Value(Hex(n, k)) == Some(n)
  {
    if k > 0 {
      hide HexDigit;
      var s := Hex(n, k);
      assert n / 16 < Pow16(k - 1);
      HexValue(n / 16, k - 1);
      DigitRoundTrip(n % 16);
      assert s[..|s| - 1] == Hex(n / 16, k - 1);
    }
  }

  lemma Pow16Is64Bits()
    ensures Pow16(16) == TWO_64
  {
    assert Pow16(4) == 0x1_0000;
    assert Pow16(8) == 0x1_0000_0000;
    assert Pow16(12) == 0x1_0000_0000_0000;
  }

  /** Only a quarantined .blk name is listed, and under its own Block ID. */
  lemma NameRoundTrip(n: Name)
    ensures QuarantinedId(Text(n)) == if n.kind == BlkQ then Some(n.id) else None
  {
    hide Hex;
    var t := Text(n);
    var hex, suffix := Hex(n.id, 16), Suffix(n.kind);
    assert t[|t| - 1] == suffix[|suffix| - 1];
    if n.kind == BlkQ {
      assert t[16..] == QUARANTINED && t[..16] == hex;
      Pow16Is64Bits();
      HexValue(n.id, 16);
    } else if n.kind == IdxQ {
      assert t[16..][1] == 'i' && QUARANTINED[1] == 'b';
    } else {
      var k := |t| - |QUARANTINED|;
      if k >= 0 {
        assert t[k..][|QUARANTINED| - 1] == t[|t| - 1] != 'e' == QUARANTINED[|QUARANTINED| - 1];
      }
    }
  }

  predicate UpTo(a: uint64, b: uint64)
  {
    a <= b
  }

  /** ListQuarantined over the directory's entries, in whatever order they come. */
  method ListQuarantined(names: seq<string>) returns (ids: seq<uint64>)
    ensures Sorted(ids, UpTo) && Distinct(ids)
    ensures forall id :: id in ids <==> exists name :: name in names && QuarantinedId(name) == Some(id)
  {
    hide QuarantinedId;
    var seen: seq<uint64> := [];
    for i := 0 to |names|
      invariant Distinct(seen)
      invariant forall id :: id in seen <==> exists name :: name in names[..i] && QuarantinedId(name) == Some(id)
    {
      assert names[..i + 1] == names[..i] + [names[i]];
      var id := QuarantinedId(names[i]);
      if id.Some? && id.value !in seen {
        seen := seen + [id.value];
      }
    }
    assert names[..|names|] == names;
    ids := Sort(seen, UpTo);
    SameElements(seen, ids);
    DistinctPermutation(seen, ids);
  }

  lemma SameElements(a: seq<uint64>, b: seq<uint64>)
    requires multiset(a) == multiset(b)
    ensures forall x :: x in a <==> x in b
  {
    assert forall x :: (x in a <==> x in multiset(a)) && (x in b <==> x in multiset(b));
  }

  lemma {:induction false} DistinctOnce(a: seq<uint64>)
    ensures Distinct(a) <==> forall x :: multiset(a)[x] <= 1
  {
    if a != [] {
      var b, y := a[..|a| - 1], a[|a| - 1];
      assert a == b + [y];
      DistinctOnce(b);
      assert forall x :: multiset(a)[x] == multiset(b)[x] + if x == y then 1 else 0;
      assert y in b <==> multiset(b)[y] > 0;
      assert Distinct(a) <==> Distinct(b) && y !in b;
    }
  }

  lemma DistinctPermutation(a: seq<uint64>, b: seq<uint64>)
    requires Distinct(a) && multiset(a) == multiset(b)
    ensures Distinct(b)
  {
    DistinctOnce(a);
    DistinctOnce(b);
  }

  method EntryNames(keys: set<Name>) returns (names: seq<string>)
    ensures forall t :: t in names <==> exists n :: n in keys && Text(n) == t
  {
    hide Text;
    names := [];
    var todo := keys;
    while todo != {}
      invariant todo <= keys
      invariant forall t :: t in names <==> exists n :: n in keys - todo && Text(n) == t
      decreases todo
    {
      var n :| n in todo;
      ghost var before := keys - todo;
      todo := todo - {n};
      assert keys - todo == before + {n};
      names := names + [Text(n)];
    }
    assert keys - todo == keys;
  }

  /** The IDs that names outside the store's own naming parse to. */
  function StrayIds(names: seq<string>): set<uint64>
  {
    set name | name in names && QuarantinedId(name).Some? :: QuarantinedId(name).value
  }

  /** A Block is listed if and only if its own quarantined data is there or a stray name parses
      to its ID; without such names, exactly for its own data. */
  lemma ListedExactly(keys: set<Name>, own: seq<string>, strayNames: seq<string>, id: uint64)
    requires forall t :: t in own <==> exists n :: n in keys && Text(n) == t
    ensures (exists name :: name in own + strayNames && QuarantinedId(name) == Some(id))
            <==> Name(id, BlkQ) in keys || id in StrayIds(strayNames)
  {
    hide Text, QuarantinedId;
    if exists name :: name in own + strayNames && QuarantinedId(name) == Some(id) {
      var name :| name in own + strayNames && QuarantinedId(name) == Some(id);
      if name in own {
        var n :| n in keys && Text(n) == name;
        NameRoundTrip(n);
      }
    }
    if Name(id, BlkQ) in keys {
      NameRoundTrip(Name(id, BlkQ));
      assert Text(Name(id, BlkQ)) in own + strayNames;
    }
    if id in StrayIds(strayNames) {
      var name :| name in strayNames && QuarantinedId(name) == Some(id);
      assert name in own + strayNames;
    }
  }

  /** A short name is listed like the padded one. */
  lemma ShortNameListed()
    ensures QuarantinedId("1.blk.quarantine") == Some(1) && "1.blk.quarantine" != Text(Name(1, BlkQ))
  {
    var name := "1.blk.quarantine";
    assert name[1..] == QUARANTINED && name[..1] == "1";
    assert "1"[..0] == "" && Value("") == Some(0) && DigitValue('1') == Some(1);
    assert Value("1") == Some(1);
    assert |Text(Name(1, BlkQ))| == 16 + |QUARANTINED|;
  }
}
