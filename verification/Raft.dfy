/** What the Raft node's durable state means: snapshot files and a write-ahead log of records,
    the entries a restart reads back from them, and the purging of snapshot files. */
module Raft {
  import opened Bytes
  import opened Collections

  datatype Entry = Entry(index: nat, term: nat, data: Bytes)

  /** A write-ahead log record: a snapshot's index, a log entry, or the hard state's commit. */
  datatype Record = SnapRec(index: nat) | EntryRec(entry: Entry) | StateRec(commit: nat)

  // ------------------------------------------------- what the log library reads back

  /** The commit index of the last hard state saved. */
  function Commit(recs: seq<Record>): nat
  {
    if recs == [] then 0
    else
      var r := recs[|recs| - 1];
      if r.StateRec? then r.commit else Commit(recs[..|recs| - 1])
  }

  function SnapIndexes(recs: seq<Record>): set<nat>
  {
    set r | r in recs && r.SnapRec? :: r.index
  }

  /** wal.ReadAll from a snapshot at index start: a later record for an index replaces it
      and everything behind it; an entry that would leave a gap is an error (None). */
  function ReadAll(recs: seq<Record>, start: nat): (r: Option<seq<Entry>>)
  {
    if recs == [] then Some([])
    else
      var before := ReadAll(recs[..|recs| - 1], start);
      var last := recs[|recs| - 1];
      if before == None || !last.EntryRec? || last.entry.index <= start then before
      else
        var offset := last.entry.index - start - 1;
        if offset > |before.value| then None else Some(before.value[..offset] + [last.entry])
  }

  /** The greatest member of s not above c, or 0. */
  function MaxUpTo(s: set<nat>, c: nat): (m: nat)
    ensures m <= c && (m in s || m == 0) && forall x :: x in s && x <= c ==> x <= m
  {
    if c == 0 || c in s then c else MaxUpTo(s, c - 1)
  }

  /** The newest snapshot restart can load: recorded, at or below the commit, file present. */
  function Newest(recs: seq<Record>, snaps: set<nat>): nat
  {
    MaxUpTo(SnapIndexes(recs) * snaps, Commit(recs))
  }

  /** A later log with more snapshot files never offers an older snapshot. */
  lemma NewestGrows(recs: seq<Record>, snaps: set<nat>, after: seq<Record>, snaps': set<nat>)
    requires SnapIndexes(recs) <= SnapIndexes(after) && snaps <= snaps' && Commit(recs) <= Commit(after)
    ensures Newest(recs, snaps) <= Newest(after, snaps')
  {
    hide Commit, SnapIndexes, MaxUpTo;
    var n := Newest(recs, snaps);
    assert n > 0 ==> n in SnapIndexes(after) * snaps';
  }

  // --------------------------------------------------- what restart has to find there

  /** The entry at index i of a log that starts behind base. */
  function At(base: nat, log: seq<Entry>, i: nat): Entry
    requires base < i <= base + |log|
  {
    log[i - base - 1]
  }

  /** Reading from a snapshot at s yields every index up to c, as the cluster committed it. */
  predicate Covers(recs: seq<Record>, s: nat, c: nat, chosen: nat -> Entry)
  {
    var r := ReadAll(recs, s);
    r.Some? && s + |r.value| >= c && forall i :: s < i <= c ==> At(s, r.value, i) == chosen(i)
  }

  /** Restart boots, and onto everything committed. */
  predicate Recovers(recs: seq<Record>, snaps: set<nat>, chosen: nat -> Entry)
  {
    Covers(recs, Newest(recs, snaps), Commit(recs), chosen)
  }

  /** And the log it would boot onto is the one in memory. */
  predicate InStep(recs: seq<Record>, snaps: set<nat>, base: nat, log: seq<Entry>)
  {
    Tracks(recs, Newest(recs, snaps), base, log)
  }

  /** Reading from s yields the in-memory log, and perhaps more behind its end. */
  predicate Tracks(recs: seq<Record>, s: nat, base: nat, log: seq<Entry>)
  {
    var r := ReadAll(recs, s);
    && r.Some? && s + |r.value| >= base + |log|
    && forall i :: s < i && base < i <= base + |log| ==> At(s, r.value, i) == At(base, log, i)
  }

  /** Reading from a later start succeeds whenever an earlier one does, reaches at least as
      far, and agrees where both speak. */
  lemma {:induction false} LaterStart(recs: seq<Record>, s: nat, t: nat)
    requires s <= t && ReadAll(recs, s).Some?
    ensures ReadAll(recs, t).Some?
    ensures s + |ReadAll(recs, s).value| <= t + |ReadAll(recs, t).value|
    ensures forall i :: t < i <= s + |ReadAll(recs, s).value| ==>
              At(t, ReadAll(recs, t).value, i) == At(s, ReadAll(recs, s).value, i)
  {
    if recs != [] {
      LaterStart(recs[..|recs| - 1], s, t);
      var a, b := ReadAll(recs[..|recs| - 1], s).value, ReadAll(recs[..|recs| - 1], t).value;
      forall i | t < i <= s + |ReadAll(recs, s).value|
        ensures At(t, ReadAll(recs, t).value, i) == At(s, ReadAll(recs, s).value, i)
      {
        if i <= s + |a| {
          assert At(t, b, i) == At(s, a, i);
        }
      }
    }
  }

  lemma CoversLater(recs: seq<Record>, s: nat, t: nat, c: nat, chosen: nat -> Entry)
    requires s <= t && Covers(recs, s, c, chosen)
    ensures Covers(recs, t, c, chosen)
  {
    hide ReadAll;
    LaterStart(recs, s, t);
  }

  lemma TracksLater(recs: seq<Record>, s: nat, t: nat, base: nat, log: seq<Entry>)
    requires s <= t && Tracks(recs, s, base, log)
    ensures Tracks(recs, t, base, log)
  {
    hide ReadAll;
    LaterStart(recs, s, t);
  }

  // ------------------------------------------------------------- appending records

  function EntryRecs(es: seq<Entry>): seq<Record>
  {
    seq(|es|, i requires 0 <= i < |es| => EntryRec(es[i]))
  }

  predicate Contiguous(es: seq<Entry>, first: nat)
  {
    forall i :: 0 <= i < |es| ==> es[i].index == first + i
  }

  lemma AppendOther(recs: seq<Record>, r: Record)
    ensures !r.StateRec? ==> Commit(recs + [r]) == Commit(recs)
    ensures r.StateRec? ==> Commit(recs + [r]) == r.commit
    ensures !r.EntryRec? ==> forall s: nat :: ReadAll(recs + [r], s) == ReadAll(recs, s)
    ensures SnapIndexes(recs + [r]) == SnapIndexes(recs) + if r.SnapRec? then {r.index} else {}
  {
    assert (recs + [r])[..|recs|] == recs;
    var all := recs + [r];
    assert forall x :: x in all <==> x in recs || x == r;
    forall n | n in SnapIndexes(recs) || (r.SnapRec? && n == r.index)
      ensures n in SnapIndexes(all)
    {
      assert SnapRec(n) in all;
    }
  }

  lemma ReadAllSnoc(recs: seq<Record>, e: Entry, s: nat, a: seq<Entry>)
    requires ReadAll(recs, s) == Some(a) && s < e.index <= s + |a| + 1
    ensures ReadAll(recs + [EntryRec(e)], s) == Some(a[..e.index - s - 1] + [e])
  {
    assert (recs + [EntryRec(e)])[..|recs|] == recs;
  }

  lemma {:induction false} AppendEntries(recs: seq<Record>, es: seq<Entry>, s: nat, first: nat, a: seq<Entry>)
    requires ReadAll(recs, s) == Some(a) && Contiguous(es, first) && s < first <= s + |a| + 1 && es != []
    ensures ReadAll(recs + EntryRecs(es), s) == Some(a[..first - s - 1] + es)
  {
    hide ReadAll;
    var n, kept := |es| - 1, a[..first - s - 1];
    var init, e := es[..n], es[n];
    assert recs + EntryRecs(es) == recs + EntryRecs(init) + [EntryRec(e)];
    assert kept + es == kept + init + [e];
    if n == 0 {
      assert recs + EntryRecs(init) == recs && kept + init == kept;
      ReadAllSnoc(recs, e, s, a);
    } else {
      AppendEntries(recs, init, s, first, a);
      ReadAllSnoc(recs + EntryRecs(init), e, s, kept + init);
      assert (kept + init)[..e.index - s - 1] == kept + init;
    }
  }

  /** Saving entries behind the commit keeps what is committed and follows the new log. */
  lemma SaveEntries(recs: seq<Record>, s: nat, c: nat, chosen: nat -> Entry,
                    base: nat, log: seq<Entry>, es: seq<Entry>, first: nat)
    requires Covers(recs, s, c, chosen) && Tracks(recs, s, base, log) && Contiguous(es, first)
    requires s <= c < first && base < first <= base + |log| + 1 && es != []
    ensures Covers(recs + EntryRecs(es), s, c, chosen)
    ensures Tracks(recs + EntryRecs(es), s, base, log[..first - base - 1] + es)
  {
    hide ReadAll;
    AppendEntries(recs, es, s, first, ReadAll(recs, s).value);
    var a, b := ReadAll(recs, s).value, ReadAll(recs + EntryRecs(es), s).value;
    var grown := log[..first - base - 1] + es;
    forall i | s < i && base < i <= base + |grown|
      ensures At(s, b, i) == At(base, grown, i)
    {
      if i < first {
        assert At(s, a, i) == At(base, log, i);
      }
    }
    forall i | s < i <= c
      ensures At(s, b, i) == chosen(i)
    {
      assert At(s, a, i) == chosen(i);
    }
  }

  /** Restart can use a snapshot at s: nothing, or a record with its file. */
  predicate Usable(recs: seq<Record>, snaps: set<nat>, s: nat)
  {
    s == 0 || s in SnapIndexes(recs) * snaps
  }

  /** Saving a commit: restart moves up to the newest snapshot the commit admits. */
  lemma SaveState(recs: seq<Record>, snaps: set<nat>, s: nat, c: nat, chosen: nat -> Entry, base: nat, log: seq<Entry>)
    requires Covers(recs, s, c, chosen) && Tracks(recs, s, base, log) && s <= c && Usable(recs, snaps, s)
    ensures Recovers(recs + [StateRec(c)], snaps, chosen) && InStep(recs + [StateRec(c)], snaps, base, log)
  {
    hide ReadAll, Commit, SnapIndexes;
    var after := recs + [StateRec(c)];
    AppendOther(recs, StateRec(c));
    var n := Newest(after, snaps);
    assert s > 0 ==> s in SnapIndexes(after) * snaps;
    CoversLater(recs, s, n, c, chosen);
    TracksLater(recs, s, n, base, log);
  }

  /** A snapshot file, recorded or not, keeps restart possible. */
  lemma SaveFile(recs: seq<Record>, s: nat, snaps: set<nat>, chosen: nat -> Entry)
    requires Recovers(recs, snaps, chosen)
    ensures Recovers(recs, snaps + {s}, chosen)
    ensures forall base, log :: InStep(recs, snaps, base, log) ==> InStep(recs, snaps + {s}, base, log)
  {
    hide ReadAll, Commit, SnapIndexes, Newest, Covers, Tracks;
    NewestGrows(recs, snaps, recs, snaps + {s});
    CoversLater(recs, Newest(recs, snaps), Newest(recs, snaps + {s}), Commit(recs), chosen);
    forall base, log | InStep(recs, snaps, base, log)
      ensures InStep(recs, snaps + {s}, base, log)
    {
      TracksLater(recs, Newest(recs, snaps), Newest(recs, snaps + {s}), base, log);
    }
  }

  /** So does a snapshot record, whichever side of the saved commit it falls. */
  lemma SaveSnapshotRecord(recs: seq<Record>, s: nat, snaps: set<nat>, chosen: nat -> Entry, base: nat, log: seq<Entry>)
    requires Recovers(recs, snaps, chosen) && InStep(recs, snaps, base, log)
    ensures Recovers(recs + [SnapRec(s)], snaps, chosen) && InStep(recs + [SnapRec(s)], snaps, base, log)
    ensures Commit(recs + [SnapRec(s)]) == Commit(recs)
  {
    hide ReadAll, Commit, SnapIndexes, Newest;
    var after := recs + [SnapRec(s)];
    AppendOther(recs, SnapRec(s));
    NewestGrows(recs, snaps, after, snaps);
    CoversLater(recs, Newest(recs, snaps), Newest(after, snaps), Commit(recs), chosen);
    TracksLater(recs, Newest(recs, snaps), Newest(after, snaps), base, log);
  }

  /** Entries the log already agrees with the cluster on may be committed. */
  lemma CommitTo(recs: seq<Record>, s: nat, c: nat, c': nat, chosen: nat -> Entry, base: nat, log: seq<Entry>)
    requires Covers(recs, s, c, chosen) && Tracks(recs, s, base, log) && base <= c <= c' <= base + |log|
    requires forall i :: base < i <= c' ==> At(base, log, i) == chosen(i)
    ensures Covers(recs, s, c', chosen)
  {
    hide ReadAll;
    var a := ReadAll(recs, s).value;
    forall i | s < i <= c'
      ensures At(s, a, i) == chosen(i)
    {
      if i > c {
        assert At(base, log, i) == chosen(i);
      }
    }
  }

  /** A crash inside the save that follows an incoming snapshot, after some entry and before
      the hard state, is survivable exactly when the old log reached the snapshot. */
  lemma TornInstall(recs: seq<Record>, s: nat, es: seq<Entry>, snaps: set<nat>, chosen: nat -> Entry)
    requires Recovers(recs, snaps, chosen) && s > Commit(recs) && es != [] && Contiguous(es, s + 1)
    ensures var torn := recs + [SnapRec(s)] + EntryRecs(es);
            var n := Newest(recs, snaps);
            && Newest(torn, snaps + {s}) == n
            && (ReadAll(torn, n).Some? <==> s <= n + |ReadAll(recs, n).value|)
            && (Recovers(torn, snaps + {s}, chosen) <==> s <= n + |ReadAll(recs, n).value|)
  {
    hide ReadAll, Commit, SnapIndexes, MaxUpTo;
    var mid := recs + [SnapRec(s)];
    var torn := mid + EntryRecs(es);
    AppendOther(recs, SnapRec(s));
    SameRecords(mid, es);
    var n := Newest(recs, snaps);
    assert Newest(torn, snaps + {s}) == n by {
      var m := Newest(torn, snaps + {s});
      assert m != s && (m > 0 ==> m in SnapIndexes(recs) * snaps);
      assert n > 0 ==> n in SnapIndexes(torn) * (snaps + {s});
    }
    var a := ReadAll(recs, n).value;
    if s <= n + |a| {
      AppendEntries(mid, es, n, s + 1, a);
      assert forall i :: n < i <= Commit(recs) ==> At(n, a[..s - n] + es, i) == At(n, a, i);
    } else {
      GapStays(mid, es, n, s + 1);
    }
  }

  lemma {:induction false} SameRecords(recs: seq<Record>, es: seq<Entry>)
    ensures Commit(recs + EntryRecs(es)) == Commit(recs) && SnapIndexes(recs + EntryRecs(es)) == SnapIndexes(recs)
  {
    if es == [] {
      assert recs + EntryRecs(es) == recs;
    } else {
      var n := |es| - 1;
      SameRecords(recs, es[..n]);
      AppendOther(recs + EntryRecs(es[..n]), EntryRec(es[n]));
      assert recs + EntryRecs(es) == recs + EntryRecs(es[..n]) + [EntryRec(es[n])];
    }
  }

  lemma {:induction false} GapStays(recs: seq<Record>, es: seq<Entry>, s: nat, first: nat)
    requires ReadAll(recs, s).Some? && es != [] && Contiguous(es, first) && first > s + |ReadAll(recs, s).value| + 1
    ensures ReadAll(recs + EntryRecs(es), s) == None
  {
    var n := |es| - 1;
    var init := recs + EntryRecs(es[..n]);
    assert recs + EntryRecs(es) == init + [EntryRec(es[n])];
    assert (init + [EntryRec(es[n])])[..|init|] == init;
    if n == 0 {
      assert init == recs;
    } else {
      GapStays(recs, es[..n], s, first);
    }
  }

  lemma {:induction false} ReadContiguous(recs: seq<Record>, s: nat)
    requires ReadAll(recs, s).Some?
    ensures Contiguous(ReadAll(recs, s).value, s + 1)
  {
    if recs != [] {
      ReadContiguous(recs[..|recs| - 1], s);
    }
  }

  // ------------------------------------------------------------- purging snapshot files

  const MAX_KEPT := 5

  function Newer(snaps: set<nat>, s: nat): set<nat>
  {
    set t | t in snaps && t > s
  }

  /** The oldest of a non-empty set of snapshot files. */
  method Oldest(snaps: set<nat>) returns (s: nat)
    requires snaps != {}
    ensures s in snaps && forall t :: t in snaps ==> s <= t
  {
    s :| s in snaps;
    var todo := snaps - {s};
    while todo != {}
      invariant todo <= snaps && s in snaps && forall t :: t in snaps && t !in todo ==> s <= t
      decreases todo
    {
      var t :| t in todo;
      if t < s {
        s := t;
      }
      todo := todo - {t};
    }
  }

  /** purgeOldestFiles over the .snap files: oldest first, stopping at the first failure. */
  method PurgeSnaps(snaps: set<nat>) returns (left: set<nat>, ok: bool)
    ensures left <= snaps
    ensures forall s :: s in snaps && s !in left ==> |Newer(snaps, s)| >= MAX_KEPT
    ensures ok ==> forall s :: s in left ==> |Newer(snaps, s)| < MAX_KEPT
  {
    left, ok := snaps, true;
    while |left| > MAX_KEPT
      invariant left <= snaps && forall s, t :: s in snaps && s !in left && t in left ==> s < t
      invariant forall s :: s in snaps && s !in left ==> |Newer(snaps, s)| >= MAX_KEPT
      decreases |left|
    {
      var s := Oldest(left);
      ok := *;
      if !ok {
        return;
      }
      SubsetSize(left - {s}, Newer(snaps, s));
      left := left - {s};
    }
    ok := true;
    forall s | s in left
      ensures |Newer(snaps, s)| < MAX_KEPT
    {
      SubsetSize(Newer(snaps, s), left - {s});
    }
  }

  /** The files a completed purge keeps. */
  function Kept(snaps: set<nat>): set<nat>
  {
    set s | s in snaps && |Newer(snaps, s)| < MAX_KEPT
  }

  /** Purging leaves restart its snapshot if fewer than five files are newer; otherwise a
      completed purge leaves it none at all, for the five kept are all newer and not usable. */
  lemma PurgeLeaves(recs: seq<Record>, snaps: set<nat>)
    ensures Newest(recs, Kept(snaps)) ==
            if |Newer(snaps, Newest(recs, snaps))| < MAX_KEPT then Newest(recs, snaps) else 0
  {
    hide Commit, SnapIndexes, MaxUpTo;
    var n, m := Newest(recs, snaps), Newest(recs, Kept(snaps));
    if |Newer(snaps, n)| < MAX_KEPT {
      assert n > 0 ==> n in SnapIndexes(recs) * Kept(snaps);
      assert m > 0 ==> m in SnapIndexes(recs) * snaps;
    } else if m > 0 {
      assert m in SnapIndexes(recs) * snaps && m <= n;
      SubsetSize(Newer(snaps, n), Newer(snaps, m));
    }
  }

  /** So restart recovers the commit after a completed purge if and only if fewer than five files
      are newer than its snapshot, or the log alone, from its first entry, covers the commit. */
  lemma PurgeRecoversExactly(recs: seq<Record>, snaps: set<nat>, chosen: nat -> Entry)
    requires Recovers(recs, snaps, chosen)
    ensures Recovers(recs, Kept(snaps), chosen) <==>
              |Newer(snaps, Newest(recs, snaps))| < MAX_KEPT || Covers(recs, 0, Commit(recs), chosen)
  {
    hide Commit, SnapIndexes, Newest, Covers, Kept;
    PurgeLeaves(recs, snaps);
    if Newest(recs, snaps) == 0 {
      assert Recovers(recs, snaps, chosen);
    }
  }

  /** A log on disk that no longer reaches the one in memory is lost with the next entry. */
  lemma NextEntryGaps(recs: seq<Record>, s: nat, base: nat, log: seq<Entry>, e: Entry)
    requires ReadAll(recs, s).Some? && s + |ReadAll(recs, s).value| < base + |log| && e.index == base + |log| + 1
    ensures ReadAll(recs + [EntryRec(e)], s) == None
  {
    assert (recs + [EntryRec(e)])[..|recs|] == recs;
  }
}
