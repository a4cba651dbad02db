/** The Raft node's handling of Readys, one durable step at a time, its local snapshots and
    purges, and its restart. */
module RaftNode {
  import opened Bytes
  import opened Collections
  import opened Raft

  /** What the Raft library hands over: an incoming snapshot, entries to append, a new
      commit index, and the index through which committed entries are to be applied. */
  datatype Ready = Ready(snapshot: Option<nat>, entries: seq<Entry>, commit: Option<nat>, apply: Option<nat>)

  /** A node's durable and in-memory state. */
  datatype View = View(
    snaps: set<nat>, wal: seq<Record>, base: nat, log: seq<Entry>, commit: nat, applied: nat, snapshotIndex: nat)

  const BLANK: View := View({}, [SnapRec(0)], 0, [], 0, 0, 0)

  predicate FollowsOn(es: seq<Entry>, base: nat, log: seq<Entry>, c: nat)
  {
    es != [] ==> c < es[0].index && base < es[0].index <= base + |log| + 1 && Contiguous(es, es[0].index)
  }

  /** storage.Append: entries that follow on replace what they overlap. */
  function Joined(base: nat, log: seq<Entry>, es: seq<Entry>): seq<Entry>
  {
    if es == [] || !(base < es[0].index <= base + |log| + 1) then log else log[..es[0].index - base - 1] + es
  }

  function BaseOf(v: View, rd: Ready): nat { if rd.snapshot.Some? then rd.snapshot.value else v.base }

  function LogOf(v: View, rd: Ready): seq<Entry> { if rd.snapshot.Some? then [] else v.log }

  function CommitOf(v: View, rd: Ready): nat { if rd.commit.Some? then rd.commit.value else v.commit }

  /** The Raft library's side: entries follow on from the log and never rewrite what is
      committed, a commit never exceeds the log or goes back, what is committed is what
      the cluster chose, and an incoming snapshot is news that its hard state commits. */
  predicate Honest(v: View, chosen: nat -> Entry, rd: Ready)
  {
    var b, l, c := BaseOf(v, rd), LogOf(v, rd), CommitOf(v, rd);
    && (rd.snapshot.Some? ==> rd.snapshot.value > v.commit && rd.commit.Some? && rd.commit.value >= b)
    && FollowsOn(rd.entries, b, l, v.commit)
    && v.commit <= c <= b + |Joined(b, l, rd.entries)|
    && (forall i :: b < i <= c ==> At(b, Joined(b, l, rd.entries), i) == chosen(i))
    && (rd.apply.Some? ==> v.applied <= rd.apply.value <= c && rd.apply.value >= b)
  }

  // ------------------------------------------------- a Ready in which nothing fails

  function Max(a: nat, b: nat): nat
  {
    if a < b then b else a
  }

  function StateRecs(rd: Ready): seq<Record>
  {
    if rd.commit.Some? then [StateRec(rd.commit.value)] else []
  }

  function SnapRecs(rd: Ready): seq<Record>
  {
    if rd.snapshot.Some? then [SnapRec(rd.snapshot.value)] else []
  }

  /** After persisting, adopting and applying. */
  function Accepted(v: View, rd: Ready): View
  {
    var b := BaseOf(v, rd);
    View(if rd.snapshot.Some? then v.snaps + {b} else v.snaps,
         v.wal + SnapRecs(rd) + EntryRecs(rd.entries) + StateRecs(rd),
         b, Joined(b, LogOf(v, rd), rd.entries), CommitOf(v, rd),
         if rd.apply.Some? then rd.apply.value else if rd.snapshot.Some? then b else v.applied,
         if rd.snapshot.Some? then b else v.snapshotIndex)
  }

  /** After the local snapshot, if one is due, its compaction and its purge. */
  function Snapshotted(v: View, maxSnapCount: nat, catchUp: nat): View
  {
    if v.applied <= v.snapshotIndex || v.applied - v.snapshotIndex < maxSnapCount then v
    else
      var base := Max(v.base, if v.applied > catchUp then v.applied - catchUp else 1);
      v.(snaps := Kept(v.snaps + {v.applied}), wal := v.wal + [SnapRec(v.applied)], base := base,
         log := if base - v.base <= |v.log| then v.log[base - v.base..] else [], snapshotIndex := v.applied)
  }

  function Finished(v: View, rd: Ready, maxSnapCount: nat, catchUp: nat): View
  {
    Snapshotted(Accepted(v, rd), maxSnapCount, catchUp)
  }

  /** Restart from a log that can be read. */
  function Rebooted(v: View): View
  {
    var n := Newest(v.wal, v.snaps);
    var r := ReadAll(v.wal, n);
    View(v.snaps, v.wal, n, if r.Some? then r.value else [], Max(Commit(v.wal), n), n, n)
  }

  // -------------------------------------------------------------- lemmas for the save

  /** Any part of the entries may reach the disk before a crash. */
  lemma EntriesSaved(w: seq<Record>, es: seq<Entry>, j: nat, chosen: nat -> Entry, snaps: set<nat>, base: nat, log: seq<Entry>)
    requires Recovers(w, snaps, chosen) && InStep(w, snaps, base, log)
    requires FollowsOn(es, base, log, Commit(w)) && 0 < j <= |es|
    ensures Recovers(w + EntryRecs(es[..j]), snaps, chosen)
  {
    hide ReadAll, Commit, SnapIndexes;
    SaveEntries(w, Newest(w, snaps), Commit(w), chosen, base, log, es[..j], es[0].index);
    SameRecords(w, es[..j]);
  }

  /** Or, beyond the old log, make it unreadable. */
  lemma EntriesGap(w: seq<Record>, es: seq<Entry>, j: nat, chosen: nat -> Entry, snaps: set<nat>, s: nat)
    requires ReadAll(w, Newest(w, snaps)).Some? && !InStep(w, snaps, s, []) && FollowsOn(es, s, [], Commit(w)) && 0 < j <= |es|
    ensures ReadAll(w + EntryRecs(es[..j]), Newest(w + EntryRecs(es[..j]), snaps)) == None
    ensures !Recovers(w + EntryRecs(es[..j]), snaps, chosen)
  {
    hide ReadAll, Commit, SnapIndexes;
    SameRecords(w, es[..j]);
    GapStays(w, es[..j], Newest(w, snaps), s + 1);
  }

  /** The snapshot lies beyond everything this log can be read to. */
  predicate Beyond(w: seq<Record>, snaps: set<nat>, s: nat)
  {
    var n := Newest(w, snaps);
    ReadAll(w, n) == None || n + |ReadAll(w, n).value| < s
  }

  /** The lengths that cut an install beyond the log between its first entry and its hard state. */
  predicate TornAt(v: View, rd: Ready, k: nat)
  {
    rd.snapshot.Some? && Beyond(v.wal, v.snaps, rd.snapshot.value) && |v.wal| + 1 < k <= |v.wal| + 1 + |rd.entries|
  }

  /** Recording an incoming snapshot leaves the log in step with it unless it lies beyond. */
  lemma InStepUnlessBeyond(w: seq<Record>, snaps: set<nat>, s: nat)
    requires s > Commit(w)
    ensures Newest(w + [SnapRec(s)], snaps + {s}) == Newest(w, snaps + {s}) == Newest(w, snaps)
    ensures InStep(w + [SnapRec(s)], snaps + {s}, s, []) <==> !Beyond(w, snaps, s)
  {
    hide ReadAll, Commit, SnapIndexes, MaxUpTo;
    AppendOther(w, SnapRec(s));
    var n := Newest(w, snaps);
    forall recs | recs == w || recs == w + [SnapRec(s)]
      ensures Newest(recs, snaps + {s}) == n
    {
      var m := Newest(recs, snaps + {s});
      assert m != s && (m > 0 ==> m in SnapIndexes(w) * snaps);
      assert n > 0 ==> n in SnapIndexes(recs) * (snaps + {s});
    }
  }

  lemma Followed(w: seq<Record>, es: seq<Entry>, s: nat, c: nat, chosen: nat -> Entry, base: nat, log: seq<Entry>)
    requires Covers(w, s, c, chosen) && Tracks(w, s, base, log) && FollowsOn(es, base, log, c) && s <= c
    ensures Covers(w + EntryRecs(es), s, c, chosen) && Tracks(w + EntryRecs(es), s, base, Joined(base, log, es))
  {
    hide ReadAll;
    if es == [] {
      assert w + EntryRecs(es) == w;
    } else {
      SaveEntries(w, s, c, chosen, base, log, es, es[0].index);
    }
  }

  lemma StateSaved(w: seq<Record>, s: nat, c: nat, c': nat, chosen: nat -> Entry, snaps: set<nat>, base: nat, log: seq<Entry>)
    requires Covers(w, s, c, chosen) && Tracks(w, s, base, log) && s <= c && Usable(w, snaps, s)
    requires base <= c <= c' <= base + |log| && Commit(w) <= c'
    requires forall i :: base < i <= c' ==> At(base, log, i) == chosen(i)
    ensures Recovers(w + [StateRec(c')], snaps, chosen) && InStep(w + [StateRec(c')], snaps, base, log)
    ensures Commit(w + [StateRec(c')]) == c'
  {
    hide ReadAll, Commit, SnapIndexes, Covers, Tracks;
    CommitTo(w, s, c, c', chosen, base, log);
    SaveState(w, snaps, s, c', chosen, base, log);
    AppendOther(w, StateRec(c'));
  }

  // --------------------------------------------------------------------- the node

  class Node {
    /** The log the cluster agrees on. */
    const chosen: nat -> Entry
    const maxSnapCount: nat
    const catchUpEntries: nat
    // Durable.
    var snaps: set<nat>
    var wal: seq<Record>
    /** The log lengths a crash may leave behind, and those of them that cannot be read. */
    var cuts: set<nat>
    var doomed: set<nat>
    /** Every snapshot whose file was ever saved. */
    var saved: set<nat>
    // In memory.
    var base: nat
    var log: seq<Entry>
    var commit: nat
    var applied: nat
    var snapshotIndex: nat

    function State(): View
      reads this
    {
      View(snaps, wal, base, log, commit, applied, snapshotIndex)
    }

    /** Every length a crash may leave behind restarts onto everything committed, the doomed
        ones not at all, and no snapshot was recorded before its file was saved. */
    ghost predicate CutsOk()
      reads this`snaps, this`wal, this`cuts, this`doomed, this`saved
    {
      && wal != [] && wal[0] == SnapRec(0) && doomed <= cuts && cuts != {}
      && (forall k :: k in cuts ==> 0 < k <= |wal|)
      && (forall k :: k in cuts && k !in doomed ==> Recovers(wal[..k], snaps, chosen))
      && (forall k :: k in doomed ==> ReadAll(wal[..k], Newest(wal[..k], snaps)) == None)
      && FilesFirst(wal, saved) && snaps <= saved
    }

    static ghost predicate FilesFirst(wal: seq<Record>, saved: set<nat>)
    {
      forall r :: r in wal && r.SnapRec? && r.index > 0 ==> r.index in saved
    }

    /** Between durable steps: the whole log is readable. */
    ghost predicate DiskOk()
      reads this`snaps, this`wal, this`cuts, this`doomed, this`saved
    {
      CutsOk() && |wal| in cuts && doomed == {}
    }

    lemma DiskRecovers()
      requires DiskOk()
      ensures Recovers(wal, snaps, chosen)
    {
      assert wal[..|wal|] == wal;
    }

    /** The in-memory log, its commit, and the log on disk move together. */
    ghost predicate MemOk()
      reads this`snaps, this`wal, this`base, this`log, this`commit, this`applied, this`snapshotIndex
    {
      MemShape() && commit == Commit(wal) && InStep(wal, snaps, base, log)
    }

    /** The part of MemOk that does not look at the disk. */
    ghost predicate MemShape()
      reads this`base, this`log, this`commit, this`applied, this`snapshotIndex
    {
      && base <= commit <= base + |log|
      && base <= snapshotIndex && applied <= commit && snapshotIndex <= commit && Contiguous(log, base + 1)
      && (forall i :: base < i <= commit ==> At(base, log, i) == chosen(i))
    }

    constructor (chosen: nat -> Entry, maxSnapCount: nat, catchUpEntries: nat)
      ensures DiskOk() && MemOk() && State() == BLANK
      ensures this.chosen == chosen && this.maxSnapCount == maxSnapCount && this.catchUpEntries == catchUpEntries
    {
      this.chosen, this.maxSnapCount, this.catchUpEntries := chosen, maxSnapCount, catchUpEntries;
      snaps, wal, cuts, doomed, saved := {}, [SnapRec(0)], {1}, {}, {};
      base, log, commit, applied, snapshotIndex := 0, [], 0, 0, 0;
      new;
      assert wal[..1] == wal && wal[..0] == [];
      assert Newest(wal, snaps) == 0;
    }

    /** Adds one record, behind which a crash may cut. */
    method AppendRecord(r: Record)
      requires CutsOk() && (r.SnapRec? && r.index > 0 ==> r.index in saved)
      requires Recovers(wal + [r], snaps, chosen) || ReadAll(wal + [r], Newest(wal + [r], snaps)) == None
      modifies this`wal, this`cuts, this`doomed
      ensures wal == old(wal) + [r] && cuts == old(cuts) + {|wal|}
      ensures doomed == old(doomed) + (if Recovers(wal, snaps, chosen) then {} else {|wal|})
      ensures CutsOk()
    {
      hide Recovers, ReadAll, Newest;
      ghost var before := wal;
      wal := wal + [r];
      cuts := cuts + {|wal|};
      if !Recovers(wal, snaps, chosen) {
        doomed := doomed + {|wal|};
      }
      assert wal[..|wal|] == wal;
      assert forall k :: 0 < k <= |before| ==> wal[..k] == before[..k];
    }

    /** SaveSnap then wal.SaveSnapshot: the file first, so a record never lacks it. */
    method PersistSnapshot(s: nat) returns (ok: bool)
      requires DiskOk() && InStep(wal, snaps, base, log)
      modifies this`snaps, this`wal, this`cuts, this`doomed, this`saved
      ensures DiskOk() && InStep(wal, snaps, base, log) && Commit(wal) == old(Commit(wal))
      ensures (snaps == old(snaps) && wal == old(wal)) || (snaps == old(snaps) + {s} && (wal == old(wal) || wal == old(wal) + [SnapRec(s)]))
      ensures ok ==> wal == old(wal) + [SnapRec(s)] && snaps == old(snaps) + {s} && cuts == {|wal|}
      ensures forall k :: k in cuts ==> k in old(cuts) || k > |old(wal)|
    {
      hide Recovers, InStep, Newest, Commit, ReadAll;
      ok := *;
      if !ok {
        return;
      }
      SaveSnapFile(s);
      ok := *;
      if !ok {
        return;
      }
      DiskRecovers();
      SaveSnapshotRecord(wal, s, snaps, chosen, base, log);
      AppendRecord(SnapRec(s));
      ok := *;
      if ok {
        Synced();
      }
    }

    method SaveSnapFile(s: nat)
      requires DiskOk()
      modifies this`snaps, this`saved
      ensures DiskOk() && snaps == old(snaps) + {s}
      ensures forall b, l :: old(InStep(wal, snaps, b, l)) ==> InStep(wal, snaps, b, l)
    {
      hide Recovers, InStep, Newest, ReadAll;
      forall k | k in cuts
        ensures Recovers(wal[..k], snaps + {s}, chosen)
      {
        SaveFile(wal[..k], s, snaps, chosen);
      }
      DiskRecovers();
      SaveFile(wal, s, snaps, chosen);
      snaps := snaps + {s};
      saved := saved + {s};
    }

    /** The log is on disk to its end. */
    method Synced()
      requires CutsOk() && |wal| in cuts && |wal| !in doomed
      modifies this`cuts, this`doomed
      ensures DiskOk() && cuts == {|wal|}
    {
      hide Recovers, Newest, ReadAll;
      cuts, doomed := {|wal|}, {};
    }

    /** Where reading must start for this Ready, and what is known there beforehand. */
    lemma StartOf(rd: Ready)
      requires MemOk() && Honest(State(), chosen, rd) && Recovers(wal, snaps, chosen)
      requires rd.snapshot.Some? ==> rd.snapshot.value in SnapIndexes(wal) * snaps
      ensures var s := if rd.snapshot.Some? then rd.snapshot.value else Newest(wal, snaps);
              var c := if rd.snapshot.Some? then s else commit;
              && Usable(wal, snaps, s) && s <= c && Covers(wal, s, c, chosen)
              && Tracks(wal, s, BaseOf(State(), rd), LogOf(State(), rd)) && BaseOf(State(), rd) <= c
              && FollowsOn(rd.entries, BaseOf(State(), rd), LogOf(State(), rd), c)
    {
      hide ReadAll, SnapIndexes, Commit;
      if rd.snapshot.Some? {
        LaterStart(wal, Newest(wal, snaps), rd.snapshot.value);
      }
    }

    /** wal.Save: the entries, then the hard state.  A crash may tear it anywhere.  Only in the
        middle of an install whose snapshot lies beyond the old log is the result unreadable. */
    method Save(rd: Ready) returns (ok: bool)
      requires DiskOk() && MemOk() && Honest(State(), chosen, rd)
      requires rd.snapshot.Some? ==> rd.snapshot.value in SnapIndexes(wal) * snaps
      modifies this`wal, this`cuts, this`doomed
      ensures CutsOk()
      ensures doomed != {} ==> !ok && rd.snapshot.Some? && wal <= old(wal) + EntryRecs(rd.entries)
      ensures forall k :: k in cuts ==>
                (k in doomed <==> rd.snapshot.Some? && !old(InStep(wal, snaps, rd.snapshot.value, []))
                                  && |old(wal)| < k <= |old(wal)| + |rd.entries|)
      ensures ok ==> DiskOk() && (rd.entries != [] ==> cuts == {|wal|})
      ensures ok ==> wal == old(wal) + EntryRecs(rd.entries) + StateRecs(rd) && Commit(wal) == CommitOf(old(State()), rd)
      ensures old(wal) <= wal
      ensures ok ==> InStep(wal, snaps, BaseOf(old(State()), rd), Joined(BaseOf(old(State()), rd), LogOf(old(State()), rd), rd.entries))
    {
      hide Recovers, InStep, Newest, Commit, Covers, Tracks, ReadAll, SnapIndexes;
      ghost var b, l := BaseOf(State(), rd), LogOf(State(), rd);
      ghost var start := if rd.snapshot.Some? then b else Newest(wal, snaps);
      ghost var c := if rd.snapshot.Some? then b else commit;
      DiskRecovers();
      StartOf(rd);
      ok := SaveAll(rd.entries, b, l);
      if !ok {
        return;
      }
      ghost var w := old(wal);
      Followed(w, rd.entries, start, c, chosen, b, l);
      SameRecords(w, rd.entries);
      assert Usable(wal, snaps, start);
      if rd.commit.Some? {
        ok := *;
        if !ok {
          return;
        }
        StateSaved(wal, start, c, rd.commit.value, chosen, snaps, b, Joined(b, l, rd.entries));
        AppendRecord(StateRec(rd.commit.value));
      } else {
        SameNewest(w, rd.entries, snaps);
        InStepNow(wal, snaps, start, b, Joined(b, l, rd.entries));
      }
      ok := *;
      if rd.entries != [] || ok {
        Synced();
      }
      ok := true;
    }

    lemma InStepNow(w: seq<Record>, snaps: set<nat>, s: nat, b: nat, l: seq<Entry>)
      requires s == Newest(w, snaps) && Tracks(w, s, b, l)
      ensures InStep(w, snaps, b, l)
    {
    }

    lemma SameNewest(w: seq<Record>, es: seq<Entry>, snaps: set<nat>)
      ensures Newest(w + EntryRecs(es), snaps) == Newest(w, snaps)
    {
      hide SnapIndexes, Commit;
      SameRecords(w, es);
    }

    /** The entries of a save, one record each. */
    method SaveAll(es: seq<Entry>, ghost b: nat, ghost l: seq<Entry>) returns (ok: bool)
      requires DiskOk() && FollowsOn(es, b, l, Commit(wal))
      requires InStep(wal, snaps, b, l) || (l == [] && b > Commit(wal))
      modifies this`wal, this`cuts, this`doomed
      ensures CutsOk() && old(wal) <= wal
      ensures ok ==> wal == old(wal) + EntryRecs(es)
      ensures ok && (es == [] || old(InStep(wal, snaps, b, l))) ==> |wal| in cuts && doomed == {}
      ensures forall k :: k in cuts ==> k <= |wal| && (k in doomed <==> k > |old(wal)| && !old(InStep(wal, snaps, b, l)))
      ensures |old(wal)| in cuts && wal <= old(wal) + EntryRecs(es)
    {
      hide Recovers, InStep, Newest, Commit, ReadAll;
      ghost var w := wal;
      DiskRecovers();
      RecoversReads(w, snaps);
      assert EntryRecs(es[..0]) == [] && w + [] == w;
      for j := 0 to |es|
        invariant wal == w + EntryRecs(es[..j]) && CutsOk() && |w| in cuts
        invariant InStep(w, snaps, b, l) || j == 0 ==> |wal| in cuts && doomed == {}
        invariant forall k :: k in cuts ==> k <= |wal| && (k in doomed <==> k > |w| && !InStep(w, snaps, b, l))
      {
        ok := *;
        if !ok {
          return;
        }
        if InStep(w, snaps, b, l) {
          EntriesSaved(w, es, j + 1, chosen, snaps, b, l);
        } else {
          EntriesGap(w, es, j + 1, chosen, snaps, b);
        }
        assert w + EntryRecs(es[..j + 1]) == wal + [EntryRec(es[j])];
        AppendRecord(EntryRec(es[j]));
      }
      assert es[..|es|] == es;
      ok := true;
    }

    lemma RecoversReads(w: seq<Record>, snaps: set<nat>)
      requires Recovers(w, snaps, chosen)
      ensures ReadAll(w, Newest(w, snaps)).Some?
    {
    }

    /** persistIncomingSnapshotLocked: the application may refuse before anything is written. */
    method PersistIncoming(s: nat) returns (ok: bool)
      requires DiskOk() && MemOk()
      modifies this`snaps, this`wal, this`cuts, this`doomed, this`saved
      ensures DiskOk() && MemOk() && old(wal) <= wal && old(snaps) <= snaps && |wal| <= |old(wal)| + 1
      ensures ok ==> snaps == old(snaps) + {s} && wal == old(wal) + [SnapRec(s)] && s in SnapIndexes(wal) * snaps
    {
      hide Recovers, InStep, Newest, Commit, SnapIndexes, ReadAll;
      ok := *;
      if !ok {
        return;
      }
      ok := PersistSnapshot(s);
      if ok {
        AppendOther(old(wal), SnapRec(s));
      }
    }

    /** processReadyLocked.  A false `ok` is the process stopping, by a crash or a panic, at some
        durable write; `stranded` says that a purge took away what restart needs; `full` that a
        due snapshot was taken and its purge completed. */
    method ProcessReady(rd: Ready) returns (ok: bool, stranded: bool, full: bool)
      requires DiskOk() && MemOk() && Honest(State(), chosen, rd)
      modifies this
      ensures !stranded ==> CutsOk()
      ensures stranded ==> !(Recovers(wal, snaps, chosen) && InStep(wal, snaps, base, log))
      ensures !stranded ==> forall k :: k in cuts ==> (k in doomed <==> TornAt(old(State()), rd, k))
      ensures doomed != {} ==> !ok && rd.snapshot.Some? && snaps == old(snaps) + {rd.snapshot.value}
                               && wal <= old(wal) + SnapRecs(rd) + EntryRecs(rd.entries)
      ensures ok && !stranded ==> DiskOk() && MemOk()
      ensures ok && full ==> State() == Finished(old(State()), rd, maxSnapCount, catchUpEntries)
      ensures ok ==> commit == CommitOf(old(State()), rd) && applied == Accepted(old(State()), rd).applied
                     && base + |log| == Accepted(old(State()), rd).base + |Accepted(old(State()), rd).log|
      ensures old(wal) <= wal && (ok && rd.entries != [] ==> cuts == {|wal|})
    {
      hide Recovers, InStep, Newest, Commit, SnapIndexes, ReadAll, CutsOk, MemShape, Honest, EntryRecs, Joined, Beyond;
      stranded, full := false, false;
      ghost var v := State();
      ok := PersistReady(rd);
      if !ok {
        return;
      }
      StillHonest(v, State(), rd);
      Adopt(rd, v);
      ok := ApplyCommitted(rd.apply);
      if ok {
        assert State() == Accepted(v, rd);
        ok, stranded, full := MaybeTriggerSnapshot();
      }
    }

    /** The durable half of a Ready: incoming snapshot, entries, hard state. */
    method PersistReady(rd: Ready) returns (ok: bool)
      requires DiskOk() && MemOk() && Honest(State(), chosen, rd)
      modifies this`snaps, this`wal, this`cuts, this`doomed, this`saved
      ensures CutsOk() && old(wal) <= wal && MemShape()
      ensures forall k :: k in cuts ==> (k in doomed <==> TornAt(old(State()), rd, k))
      ensures doomed != {} ==> !ok && rd.snapshot.Some? && snaps == old(snaps) + {rd.snapshot.value}
                               && wal <= old(wal) + SnapRecs(rd) + EntryRecs(rd.entries)
      ensures ok ==> DiskOk() && (rd.entries != [] ==> cuts == {|wal|})
      ensures ok ==> wal == old(wal) + SnapRecs(rd) + EntryRecs(rd.entries) + StateRecs(rd) && Commit(wal) == CommitOf(old(State()), rd)
      ensures ok ==> snaps == if rd.snapshot.Some? then old(snaps) + {rd.snapshot.value} else old(snaps)
      ensures ok ==> InStep(wal, snaps, BaseOf(old(State()), rd), Joined(BaseOf(old(State()), rd), LogOf(old(State()), rd), rd.entries))
    {
      hide Recovers, InStep, Newest, Commit, SnapIndexes, ReadAll, MemShape, Honest, Joined, Beyond, FilesFirst;
      ghost var v := State();
      if rd.snapshot.Some? {
        NewsBeyondCommit(v, rd);
        InStepUnlessBeyond(wal, snaps, rd.snapshot.value);
        ok := PersistIncoming(rd.snapshot.value);
        if !ok {
          return;
        }
        StillHonest(v, State(), rd);
      }
      ok := Save(rd);
    }

    lemma NewsBeyondCommit(v: View, rd: Ready)
      requires Honest(v, chosen, rd) && rd.snapshot.Some?
      ensures rd.snapshot.value > v.commit
    {
    }

    lemma StillHonest(v: View, v': View, rd: Ready)
      requires Honest(v, chosen, rd) && v' == v.(snaps := v'.snaps, wal := v'.wal)
      ensures Honest(v', chosen, rd)
    {
    }

    /** The in-memory half: commit index, incoming snapshot, appended entries. */
    method Adopt(rd: Ready, ghost v: View)
      requires Honest(State(), chosen, rd) && MemShape() && v == State().(snaps := v.snaps, wal := v.wal)
      requires Commit(wal) == CommitOf(State(), rd)
      requires InStep(wal, snaps, BaseOf(State(), rd), Joined(BaseOf(State(), rd), LogOf(State(), rd), rd.entries))
      modifies this`base, this`log, this`commit, this`applied, this`snapshotIndex
      ensures MemOk() && (rd.apply.Some? ==> rd.apply.value <= commit)
      ensures base == BaseOf(v, rd) && log == Joined(base, LogOf(v, rd), rd.entries) && commit == CommitOf(v, rd)
      ensures applied == (if rd.snapshot.Some? then base else v.applied)
      ensures snapshotIndex == (if rd.snapshot.Some? then base else v.snapshotIndex)
    {
      hide InStep, Commit;
      if rd.commit.Some? {
        commit := rd.commit.value;
      }
      if rd.snapshot.Some? {
        base, log := rd.snapshot.value, [];
        snapshotIndex := rd.snapshot.value;
        applied := rd.snapshot.value;
        commit := Max(commit, rd.snapshot.value);
      }
      log := Joined(base, log, rd.entries);
    }

    /** Applying committed entries; a failure stops the process. */
    method ApplyCommitted(through: Option<nat>) returns (ok: bool)
      requires MemOk() && (through.Some? ==> through.value <= commit)
      modifies this`applied
      ensures ok ==> MemOk() && applied == if through.Some? then through.value else old(applied)
    {
      hide InStep, Commit;
      ok := true;
      if through.Some? {
        ok := *;
        if ok {
          applied := through.value;
        }
      }
    }

    /** maybeTriggerSnapshotLocked and commitSnapshotLocked. */
    method MaybeTriggerSnapshot() returns (ok: bool, stranded: bool, full: bool)
      requires DiskOk() && MemOk()
      modifies this`snaps, this`wal, this`cuts, this`doomed, this`saved, this`base, this`log, this`snapshotIndex
      ensures (!stranded ==> DiskOk()) && doomed == {}
      ensures stranded ==> !(Recovers(wal, snaps, chosen) && InStep(wal, snaps, base, log))
      ensures ok && !stranded ==> MemOk()
      ensures ok && full ==> State() == Snapshotted(old(State()), maxSnapCount, catchUpEntries)
      ensures base + |log| == old(base) + |old(log)| && old(wal) <= wal
      ensures forall k :: k in cuts ==> k in old(cuts) || k > |old(wal)|
      ensures ok && old(cuts) == {|old(wal)|} ==> cuts == {|wal|}
    {
      hide Recovers, InStep, Newest, Commit, ReadAll, CutsOk, MemShape;
      if applied <= snapshotIndex || applied - snapshotIndex < maxSnapCount {
        return true, false, true;
      }
      ok, stranded, full := true, false, false;
      var available := *;
      if !available {
        return;
      }
      ok := PersistSnapshot(applied);
      if !ok {
        return;
      }
      Compact(if applied > catchUpEntries then applied - catchUpEntries else 1);
      stranded, full := Purge();
    }

    /** storage.Compact, where already compacted is no error, and the new snapshot index. */
    method Compact(index: nat)
      requires MemOk() && 0 < index <= applied && snapshotIndex <= applied
      modifies this`base, this`log, this`snapshotIndex
      ensures MemOk() && snapshotIndex == applied
      ensures base == Max(old(base), index) && base - old(base) <= |old(log)| && log == old(log)[base - old(base)..]
    {
      hide Newest, Commit, ReadAll;
      snapshotIndex := applied;
      if index <= base {
        return;
      }
      ghost var was, start := log, base;
      log := log[index - base..];
      base := index;
      assert forall i :: base < i <= base + |log| ==> At(base, log, i) == At(start, was, i);
    }

    /** purgeObsoleteFiles, for the snapshot files.  The node is stranded exactly if restart would
        no longer recover the commit, or would boot onto another log than the one in memory. */
    method Purge() returns (stranded: bool, full: bool)
      requires DiskOk() && MemOk() && cuts == {|wal|}
      modifies this`snaps
      ensures stranded <==> !(Recovers(wal, snaps, chosen) && InStep(wal, snaps, base, log))
      ensures |Newer(old(snaps), Newest(wal, old(snaps)))| < MAX_KEPT ==> !stranded
      ensures !stranded ==> DiskOk() && MemOk()
      ensures snaps <= old(snaps) && (full ==> snaps == Kept(old(snaps)))
    {
      hide ReadAll, Commit, SnapIndexes;
      DiskRecovers();
      var left;
      left, full := PurgeSnaps(snaps);
      FewNewer(wal, snaps, left);
      snaps := left;
      stranded := !(Recovers(wal, snaps, chosen) && InStep(wal, snaps, base, log));
      assert wal[..|wal|] == wal;
    }

    /** A crash, then restartNode: it boots exactly if the log was not cut inside an install beyond
        its end, on the newest usable snapshot, with a log that reaches the recovered commit and
        holds what the cluster committed. */
    method Restart() returns (ok: bool)
      requires CutsOk()
      modifies this
      ensures ok <==> |wal| !in old(doomed)
      ensures !ok ==> ReadAll(wal, Newest(wal, snaps)) == None
      ensures |wal| in old(cuts) && wal <= old(wal) && snaps == old(snaps)
      ensures ok ==> DiskOk() && MemOk() && State() == Rebooted(old(State()).(wal := wal))
      ensures ok ==> Usable(wal, snaps, base) && base <= commit <= base + |log| && commit == Commit(wal)
      ensures ok ==> forall i :: base < i <= commit ==> At(base, log, i) == chosen(i)
    {
      hide Commit, SnapIndexes, ReadAll, Newest, CutsOk;
      var k := CutAnywhere();
      var newest := Newest(wal, snaps);
      Openable(wal, newest);
      if newest !in SnapIndexes(wal) {
        return false;
      }
      var r := ReadAll(wal, newest);
      if r == None {
        return false;
      }
      commit := Max(Commit(wal), newest);
      base, applied, snapshotIndex := newest, newest, newest;
      log := r.value;
      ok := true;
      BootsInStep();
    }

    /** Power loss leaves the log cut at any of its lengths. */
    method CutAnywhere() returns (k: nat)
      requires CutsOk()
      modifies this`wal, this`cuts, this`doomed
      ensures k in old(cuts) && k <= |old(wal)| && wal == old(wal)[..k] && wal != [] && wal[0] == SnapRec(0)
      ensures if k in old(doomed) then ReadAll(wal, Newest(wal, snaps)) == None
              else DiskOk() && Recovers(wal, snaps, chosen) && ReadAll(wal, Newest(wal, snaps)).Some?
    {
      hide Newest, ReadAll;
      k :| k in cuts;
      ghost var whole := wal;
      wal := wal[..k];
      assert wal[..k] == wal;
      assert forall r :: r in wal ==> r in whole;
      doomed := doomed * {k};
      cuts := {k};
    }

    lemma BootsInStep()
      requires Recovers(wal, snaps, chosen) && base == Newest(wal, snaps) && ReadAll(wal, base) == Some(log)
      requires commit == Max(Commit(wal), base) && applied == snapshotIndex == base
      ensures MemOk() && Usable(wal, snaps, base) && commit == Commit(wal)
    {
      hide ReadAll, Commit, SnapIndexes;
      ReadContiguous(wal, base);
    }

    lemma Openable(w: seq<Record>, n: nat)
      requires w != [] && w[0] == SnapRec(0) && n == Newest(w, snaps)
      ensures n in SnapIndexes(w)
    {
      assert SnapRec(0) in w;
    }
  }

  lemma FewNewer(recs: seq<Record>, snaps: set<nat>, left: set<nat>)
    requires left <= snaps && forall s :: s in snaps && s !in left ==> |Newer(snaps, s)| >= MAX_KEPT
    ensures |Newer(snaps, Newest(recs, snaps))| < MAX_KEPT ==> Newest(recs, left) == Newest(recs, snaps)
  {
    hide Commit, SnapIndexes, MaxUpTo;
    var n, m := Newest(recs, snaps), Newest(recs, left);
    if |Newer(snaps, n)| < MAX_KEPT {
      assert n > 0 ==> n in SnapIndexes(recs) * left;
      assert m > 0 ==> m in SnapIndexes(recs) * snaps;
    }
  }

  // ---------------------------------------------------------------- whole histories

  datatype Op = Deliver(ready: Ready) | PowerLoss

  /** How a history ends: booted again, unable to read its log, or purged of what it needs. */
  datatype Fate = Booted | Unreadable | Stranded

  /** The log was w, the snapshot lay beyond it, and the save stopped behind some entry and before
      the hard state: what is left cannot be read. */
  ghost predicate TornInstallOf(rd: Ready, w: seq<Record>, wal: seq<Record>, snaps: set<nat>)
  {
    && rd.snapshot.Some? && Beyond(w, snaps, rd.snapshot.value)
    && w + SnapRecs(rd) < wal <= w + SnapRecs(rd) + EntryRecs(rd.entries)
    && ReadAll(wal, Newest(wal, snaps)) == None
  }

  lemma TornFound(v: View, rd: Ready, wal: seq<Record>, whole: seq<Record>, snaps: set<nat>)
    requires TornAt(v, rd, |wal|) && rd.snapshot.value > Commit(v.wal) && snaps == v.snaps + {rd.snapshot.value}
    requires wal <= whole <= v.wal + SnapRecs(rd) + EntryRecs(rd.entries)
    requires ReadAll(wal, Newest(wal, snaps)) == None
    ensures TornInstallOf(rd, v.wal, wal, snaps)
  {
    hide ReadAll, Commit, Newest;
    InStepUnlessBeyond(v.wal, v.snaps, rd.snapshot.value);
    assert wal <= v.wal + SnapRecs(rd) + EntryRecs(rd.entries);
    var start := v.wal + SnapRecs(rd);
    assert wal[..|start|] == start;
  }

  /** Any sequence of Readys with the process stopping at any durable write.  Unless a crash cuts
      an install beyond the old log, or a purge strands it, the node boots again onto everything
      the cluster committed. */
  method RunNode(n: Node, ops: seq<Op>) returns (fate: Fate)
    requires n.DiskOk() && n.MemOk()
    modifies n
    ensures fate == Booted ==> n.DiskOk() && n.MemOk() && Usable(n.wal, n.snaps, n.base)
    ensures fate == Booted ==> n.base <= n.commit <= n.base + |n.log|
    ensures fate == Booted ==> forall i :: n.base < i <= n.commit ==> At(n.base, n.log, i) == n.chosen(i)
    ensures fate == Stranded ==> !(Recovers(n.wal, n.snaps, n.chosen) && InStep(n.wal, n.snaps, n.base, n.log))
    ensures fate == Unreadable ==> exists op, w :: op in ops && op.Deliver? && TornInstallOf(op.ready, w, n.wal, n.snaps)
  {
    hide Newest, Commit, Recovers, InStep, Honest, ReadAll, SnapIndexes, TornAt, TornInstallOf;
    for i := 0 to |ops|
      invariant n.DiskOk() && n.MemOk()
    {
      assert ops[i] in ops;
      ghost var v := n.State();
      var ok, stranded := false, false;
      if ops[i].Deliver? && Honest(n.State(), n.chosen, ops[i].ready) {
        var full;
        ok, stranded, full := n.ProcessReady(ops[i].ready);
        if stranded {
          return Stranded;
        }
      }
      if !ok {
        ghost var whole := n.wal;
        ok := n.Restart();
        if !ok {
          n.NewsBeyondCommit(v, ops[i].ready);
          TornFound(v, ops[i].ready, n.wal, whole, n.snaps);
          return Unreadable;
        }
      }
    }
    var ok := n.Restart();
    fate := Booted;
  }

  // -------------------------------------------------------- reachable instances

  /** A cluster that commits empty entries of term 1. */
  const CHOSEN: nat -> Entry := (i: nat) => Entry(i, 1, [])

  /** Installing snapshot 1 and entry 2 on a blank node: cut between the entry and the hard state,
      the log cannot be read again. */
  lemma TornInstallReachable(maxSnapCount: nat, catchUp: nat)
    ensures var rd := Ready(Some(1), [CHOSEN(2)], Some(2), None);
            var done := Finished(BLANK, rd, maxSnapCount, catchUp);
            && Honest(BLANK, CHOSEN, rd) && done.snaps == {1} && |done.wal| == 4
            && var torn := done.wal[..3]; ReadAll(torn, Newest(torn, done.snaps)) == None
  {
    var rd := Ready(Some(1), [CHOSEN(2)], Some(2), None);
    var done := Finished(BLANK, rd, maxSnapCount, catchUp);
    assert Joined(1, [], [CHOSEN(2)]) == [CHOSEN(2)];
    assert EntryRecs([CHOSEN(2)]) == [EntryRec(CHOSEN(2))];
    assert done.wal == [SnapRec(0), SnapRec(1), EntryRec(CHOSEN(2)), StateRec(2)];
    assert done.wal[..3] == [SnapRec(0)] + [SnapRec(1)] + EntryRecs([CHOSEN(2)]);
    BlankLog({});
    TornInstall([SnapRec(0)], 1, [CHOSEN(2)], {}, CHOSEN);
    assert {} + {1} == {1};
  }

  lemma BlankLog(snaps: set<nat>)
    ensures Commit([SnapRec(0)]) == 0 && Newest([SnapRec(0)], snaps) == 0 && ReadAll([SnapRec(0)], 0) == Some([])
    ensures Recovers([SnapRec(0)], snaps, CHOSEN)
  {
    assert [SnapRec(0)][..0] == [];
  }

  /** A blank node with snapshot files that were saved but never recorded. */
  function Orphaned(files: set<nat>): View { BLANK.(snaps := files) }

  /** How such a file comes about: an honest incoming snapshot, a stop right behind its file. */
  lemma OrphanReachable(files: set<nat>, s: nat)
    requires s > 0
    ensures Honest(Orphaned(files), CHOSEN, Ready(Some(s), [], Some(s), None))
    ensures Rebooted(Orphaned(files + {s})) == Orphaned(files + {s})
  {
    BlankLog(files + {s});
  }

  const ORPHANS: set<nat> := {10, 11, 12, 13, 14}

  /** Five files newer than s and t crowd both out. */
  lemma CrowdOut(s: nat, t: nat)
    requires s <= t < 10
    ensures Kept(ORPHANS + {s} + {t}) == ORPHANS
  {
    hide ORPHANS;
    var all := ORPHANS + {s} + {t};
    forall x | x in all
      ensures |Newer(all, x)| < MAX_KEPT <==> x in ORPHANS
    {
      OrphanNewer(s, t, x);
    }
    assert forall x :: x in Kept(all) <==> x in ORPHANS;
  }

  lemma OrphanNewer(s: nat, t: nat, x: nat)
    requires s <= t < 10 && x in ORPHANS + {s} + {t}
    ensures |Newer(ORPHANS + {s} + {t}, x)| < MAX_KEPT <==> x in ORPHANS
  {
    var newer := Newer(ORPHANS + {s} + {t}, x);
    if x in ORPHANS {
      SubsetSize(newer, {11, 12, 13, 14});
    } else {
      SubsetSize(ORPHANS, newer);
    }
  }

  /** Five orphans, an installed snapshot 5, entry 6 and a local snapshot at 6, all by honest
      Readys that complete: the purge leaves nothing restart can boot from. */
  lemma StrandedReachable()
    ensures var install := Ready(Some(5), [], Some(5), None);
            var one := Ready(None, [CHOSEN(6)], Some(6), Some(6));
            var v := Finished(Orphaned(ORPHANS), install, 1, 0);
            var v' := Finished(v, one, 1, 0);
            && Honest(Orphaned(ORPHANS), CHOSEN, install) && Honest(v, CHOSEN, one)
            && v'.snaps == ORPHANS && ReadAll(v'.wal, Newest(v'.wal, v'.snaps)) == None
  {
    hide ORPHANS, Kept, ReadAll, Newest;
    var install := Ready(Some(5), [], Some(5), None);
    var one := Ready(None, [CHOSEN(6)], Some(6), Some(6));
    var v := Finished(Orphaned(ORPHANS), install, 1, 0);
    assert EntryRecs([]) == [];
    assert v == View(ORPHANS + {5}, [SnapRec(0), SnapRec(5), StateRec(5)], 5, [], 5, 5, 5);
    assert Joined(5, [], [CHOSEN(6)]) == [CHOSEN(6)];
    var v' := Finished(v, one, 1, 0);
    CrowdOut(5, 6);
    var start := [SnapRec(0)] + [SnapRec(5)] + [StateRec(5)];
    assert v.wal == start;
    assert v'.wal == start + EntryRecs([CHOSEN(6)]) + [StateRec(6)] + [SnapRec(6)] by {
      assert EntryRecs([CHOSEN(6)]) == [EntryRec(CHOSEN(6))];
    }
    StrandedLog(start);
  }

  lemma StrandedLog(start: seq<Record>)
    requires start == [SnapRec(0)] + [SnapRec(5)] + [StateRec(5)]
    ensures var w := start + EntryRecs([CHOSEN(6)]) + [StateRec(6)] + [SnapRec(6)];
            Newest(w, ORPHANS) == 0 && ReadAll(w, 0) == None
  {
    hide ReadAll, Commit, SnapIndexes;
    BlankLog({});
    AppendOther([SnapRec(0)], SnapRec(5));
    AppendOther([SnapRec(0)] + [SnapRec(5)], StateRec(5));
    var grown := start + EntryRecs([CHOSEN(6)]);
    GapStays(start, [CHOSEN(6)], 0, 6);
    SameRecords(start, [CHOSEN(6)]);
    AppendOther(grown, StateRec(6));
    AppendOther(grown + [StateRec(6)], SnapRec(6));
    BlankSnaps();
    assert SnapIndexes(grown + [StateRec(6)] + [SnapRec(6)]) * ORPHANS == {};
  }

  lemma BlankSnaps()
    ensures SnapIndexes([SnapRec(0)]) == {0}
  {
    assert SnapRec(0) in [SnapRec(0)];
  }

  /** Crowding alone is not fatal: with entry 1 still in the log the node boots from its start. */
  lemma CrowdedButRecovers()
    ensures var one := Ready(None, [CHOSEN(1)], Some(1), Some(1));
            var v := Finished(Orphaned(ORPHANS), one, 1, 0);
            && Honest(Orphaned(ORPHANS), CHOSEN, one) && v.snaps == ORPHANS && 1 in SnapIndexes(v.wal)
            && Newest(v.wal, v.snaps) == 0 && Recovers(v.wal, v.snaps, CHOSEN)
  {
    hide ORPHANS, Kept, ReadAll, Newest, SnapIndexes, Recovers;
    var one := Ready(None, [CHOSEN(1)], Some(1), Some(1));
    var v := Finished(Orphaned(ORPHANS), one, 1, 0);
    assert Joined(0, [], [CHOSEN(1)]) == [CHOSEN(1)];
    CrowdOut(1, 1);
    assert ORPHANS + {1} + {1} == ORPHANS + {1};
    assert v.wal == [SnapRec(0)] + EntryRecs([CHOSEN(1)]) + [StateRec(1)] + [SnapRec(1)];
    CrowdedLog();
  }

  lemma CrowdedLog()
    ensures var w := [SnapRec(0)] + EntryRecs([CHOSEN(1)]) + [StateRec(1)] + [SnapRec(1)];
            1 in SnapIndexes(w) && Newest(w, ORPHANS) == 0 && Recovers(w, ORPHANS, CHOSEN)
  {
    hide ReadAll, Commit, SnapIndexes;
    BlankLog({});
    BlankSnaps();
    var grown := [SnapRec(0)] + EntryRecs([CHOSEN(1)]);
    AppendEntries([SnapRec(0)], [CHOSEN(1)], 0, 1, []);
    SameRecords([SnapRec(0)], [CHOSEN(1)]);
    AppendOther(grown, StateRec(1));
    AppendOther(grown + [StateRec(1)], SnapRec(1));
    var w := grown + [StateRec(1)] + [SnapRec(1)];
    assert SnapIndexes(w) * ORPHANS == {};
    assert ReadAll(w, 0) == Some([][..0] + [CHOSEN(1)]);
    assert [][..0] + [CHOSEN(1)] == [CHOSEN(1)];
    assert At(0, [CHOSEN(1)], 1) == CHOSEN(1);
  }
}
