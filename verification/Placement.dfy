/** Slot placement: which Shard owns each of the 1024 routing slots, and the summary string
    whose digest pins a deployment to its placement. */
module Placement {
  import opened Bytes
  import opened Collections

  const SLOT_COUNT := 1024

  datatype SlotRange = SlotRange(shardId: uint64, startSlot: int, endSlot: int)

  datatype Config = Config(slotCount: int, shards: seq<uint64>, ranges: seq<SlotRange>)

  predicate Within(r: SlotRange, slot: int)
  {
    r.startSlot <= slot <= r.endSlot
  }

  predicate RangeOk(r: SlotRange, shards: set<uint64>)
  {
    r.shardId in shards && 0 <= r.startSlot <= r.endSlot < SLOT_COUNT
  }

  /** How many of the ranges cover a slot. */
  function Owners(rs: seq<SlotRange>, slot: int): nat
  {
    if rs == [] then 0 else Owners(rs[..|rs| - 1], slot) + if Within(rs[|rs| - 1], slot) then 1 else 0
  }

  /** The ranges name known Shards and partition the slots. */
  predicate Partition(c: Config)
  {
    && (forall r :: r in c.ranges ==> RangeOk(r, set x | x in c.shards))
    && forall slot :: 0 <= slot < SLOT_COUNT ==> Owners(c.ranges, slot) == 1
  }

  predicate ValidConfig(c: Config)
  {
    c.slotCount == SLOT_COUNT && c.shards != [] && Distinct(c.shards) && Partition(c)
  }

  lemma {:induction false} OwnersAppend(a: seq<SlotRange>, b: seq<SlotRange>, slot: int)
    ensures Owners(a + b, slot) == Owners(a, slot) + Owners(b, slot)
  {
    if b == [] {
      assert a + b == a;
    } else {
      assert (a + b)[..|a + b| - 1] == a + b[..|b| - 1];
      OwnersAppend(a, b[..|b| - 1], slot);
    }
  }

  lemma Without<T>(xs: seq<T>, i: nat)
    requires i < |xs|
    ensures multiset(xs[..i] + xs[i + 1..]) == multiset(xs) - multiset{xs[i]}
  {
    assert xs == xs[..i] + [xs[i]] + xs[i + 1..];
  }

  lemma {:induction false} OwnersPermute(a: seq<SlotRange>, b: seq<SlotRange>, slot: int)
    requires multiset(a) == multiset(b)
    ensures Owners(a, slot) == Owners(b, slot)
  {
    if a == [] {
      assert |multiset(b)| == |b|;
    } else {
      var n := |a| - 1;
      assert a[n] in multiset(b);
      var i :| 0 <= i < |b| && b[i] == a[n];
      Without(a, n);
      Without(b, i);
      assert a[..n] + a[n + 1..] == a[..n];
      OwnersPermute(a[..n], b[..i] + b[i + 1..], slot);
      OwnersWithout(b, i, slot);
    }
  }

  lemma OwnersWithout(rs: seq<SlotRange>, i: nat, slot: int)
    requires i < |rs|
    ensures Owners(rs, slot) == Owners(rs[..i] + rs[i + 1..], slot) + if Within(rs[i], slot) then 1 else 0
  {
    assert rs == rs[..i + 1] + rs[i + 1..];
    assert rs[..i + 1][..i] == rs[..i];
    OwnersAppend(rs[..i + 1], rs[i + 1..], slot);
    OwnersAppend(rs[..i], rs[i + 1..], slot);
  }

  predicate ByStart(a: SlotRange, b: SlotRange)
  {
    a.startSlot < b.startSlot || (a.startSlot == b.startSlot && a.endSlot <= b.endSlot)
  }

  /** The Shard the ranges give a slot: that of the last range that covers it. */
  function Owner(rs: seq<SlotRange>, slot: int): uint64
    requires Owners(rs, slot) > 0
  {
    if Within(rs[|rs| - 1], slot) then rs[|rs| - 1].shardId else Owner(rs[..|rs| - 1], slot)
  }

  lemma {:induction false} OwnerFound(rs: seq<SlotRange>, slot: int)
    requires Owners(rs, slot) > 0
    ensures exists r :: r in rs && Within(r, slot) && r.shardId == Owner(rs, slot)
  {
    if !Within(rs[|rs| - 1], slot) {
      OwnerFound(rs[..|rs| - 1], slot);
    }
  }

  ghost predicate SlotHolds(rs: seq<SlotRange>, slot: int, seen: bool, shardId: uint64)
  {
    Owners(rs, slot) <= 1 && (seen <==> Owners(rs, slot) == 1) && (seen ==> shardId == Owner(rs, slot))
  }

  class Placed {
    const slots: array<uint64>
    const seen: array<bool>
    var ranges: seq<SlotRange>

    /** The first i ranges, none overlapping, are entered and nothing else is. */
    ghost predicate Holds(rs: seq<SlotRange>)
      reads this, slots, seen
    {
      && slots.Length == seen.Length == SLOT_COUNT
      && forall s :: 0 <= s < SLOT_COUNT ==> SlotHolds(rs, s, seen[s], slots[s])
    }

    constructor ()
      ensures Holds([]) && ranges == [] && fresh(slots) && fresh(seen)
    {
      slots := new uint64[SLOT_COUNT](_ => 0);
      seen := new bool[SLOT_COUNT](_ => false);
      ranges := [];
    }

    /** addRange: fails exactly when the range is unknown, out of bounds, reversed or overlaps. */
    method AddRange(shards: set<uint64>, r: SlotRange, ghost done: seq<SlotRange>) returns (ok: bool)
      requires Holds(done)
      modifies slots, seen
      ensures ok <==> RangeOk(r, shards) && forall s :: 0 <= s < SLOT_COUNT && Within(r, s) ==> Owners(done, s) == 0
      ensures ok ==> Holds(done + [r])
    {
      if r.shardId !in shards || r.startSlot < 0 || r.endSlot < 0 || r.startSlot >= SLOT_COUNT
         || r.endSlot >= SLOT_COUNT || r.startSlot > r.endSlot {
        return false;
      }
      hide Owners, Owner;
      ghost var all := done + [r];
      forall s: int
        ensures Owners(all, s) == Owners(done, s) + if Within(r, s) then 1 else 0
        ensures Within(r, s) ==> Owner(all, s) == r.shardId
        ensures !Within(r, s) && Owners(done, s) > 0 ==> Owner(all, s) == Owner(done, s)
      {
        AddOwner(done, r, s);
      }
      var slot := r.startSlot;
      while slot <= r.endSlot
        invariant r.startSlot <= slot <= r.endSlot + 1
        invariant forall s :: 0 <= s < SLOT_COUNT && r.startSlot <= s < slot ==> Owners(done, s) == 0 && seen[s] && slots[s] == r.shardId
        invariant forall s :: 0 <= s < SLOT_COUNT && !(r.startSlot <= s < slot) ==> SlotHolds(done, s, seen[s], slots[s])
      {
        assert SlotHolds(done, slot, seen[slot], slots[slot]);
        if seen[slot] {
          return false;
        }
        seen[slot] := true;
        slots[slot] := r.shardId;
        slot := slot + 1;
      }
      ok := true;
    }
  }

  lemma AddOwner(done: seq<SlotRange>, r: SlotRange, s: int)
    ensures Owners(done + [r], s) == Owners(done, s) + if Within(r, s) then 1 else 0
    ensures Within(r, s) ==> Owner(done + [r], s) == r.shardId
    ensures !Within(r, s) && Owners(done, s) > 0 ==> Owner(done + [r], s) == Owner(done, s)
  {
    assert (done + [r])[..|done|] == done;
  }

  /** knownShards: None when a Shard is listed twice. */
  method KnownShards(shards: seq<uint64>) returns (known: set<uint64>, ok: bool)
    ensures ok <==> Distinct(shards)
    ensures ok ==> known == set x | x in shards
  {
    known := {};
    for i := 0 to |shards|
      invariant Distinct(shards[..i]) && known == set x | x in shards[..i]
    {
      if shards[i] in known {
        assert shards[i] in shards[..i];
        return known, false;
      }
      assert shards[..i + 1] == shards[..i] + [shards[i]];
      known := known + {shards[i]};
    }
    assert shards[..|shards|] == shards;
    ok := true;
  }

  /** Entering the ranges in some order succeeds exactly when they do not overlap. */
  method AddRanges(p: Placed, shards: set<uint64>, rs: seq<SlotRange>) returns (ok: bool)
    requires p.Holds([])
    modifies p.slots, p.seen
    ensures ok ==> p.Holds(rs) && forall r :: r in rs ==> RangeOk(r, shards)
    ensures !ok ==> !((forall r :: r in rs ==> RangeOk(r, shards)) && forall s :: 0 <= s < SLOT_COUNT ==> Owners(rs, s) <= 1)
  {
    for i := 0 to |rs|
      invariant p.Holds(rs[..i]) && forall r :: r in rs[..i] ==> RangeOk(r, shards)
    {
      assert rs[..i + 1] == rs[..i] + [rs[i]];
      ok := p.AddRange(shards, rs[i], rs[..i]);
      if !ok {
        if RangeOk(rs[i], shards) {
          var s :| 0 <= s < SLOT_COUNT && Within(rs[i], s) && Owners(rs[..i], s) != 0;
          AddOwner(rs[..i], rs[i], s);
          assert rs == rs[..i + 1] + rs[i + 1..];
          OwnersAppend(rs[..i + 1], rs[i + 1..], s);
        }
        return;
      }
    }
    assert rs[..|rs|] == rs;
    ok := true;
  }

  /** NewPlacement succeeds exactly for valid configurations, and then every slot belongs to
      the Shard of the one range that covers it. */
  method NewPlacement(c: Config) returns (p: Placed, ok: bool)
    ensures fresh(p) && fresh(p.slots) && fresh(p.seen)
    ensures ok <==> ValidConfig(c)
    ensures ok ==> p.Holds(p.ranges) && Sorted(p.ranges, ByStart) && multiset(p.ranges) == multiset(c.ranges)
    ensures ok ==> forall s :: 0 <= s < SLOT_COUNT ==> p.seen[s] && Owners(p.ranges, s) == 1
    ensures ok ==> forall r :: r in p.ranges ==> 0 <= r.startSlot && 0 <= r.endSlot
  {
    hide Sorted;
    p := new Placed();
    if c.slotCount != SLOT_COUNT || c.shards == [] {
      return p, false;
    }
    if c.ranges == [] {
      assert Owners(c.ranges, 0) == 0;
      return p, false;
    }
    var shards, distinct := KnownShards(c.shards);
    if !distinct {
      return p, false;
    }
    var ranges := Sort(c.ranges, ByStart);
    p.ranges := ranges;
    Permuted(c, ranges);
    ok := AddRanges(p, shards, ranges);
    if !ok {
      return;
    }
    for slot := 0 to SLOT_COUNT
      invariant p.Holds(ranges) && p.ranges == ranges
      invariant forall s :: 0 <= s < slot ==> Owners(ranges, s) == 1
    {
      assert SlotHolds(ranges, slot, p.seen[slot], p.slots[slot]);
      if !p.seen[slot] {
        return p, false;
      }
    }
    ok := true;
  }

  lemma Permuted(c: Config, ranges: seq<SlotRange>)
    requires multiset(ranges) == multiset(c.ranges)
    ensures forall s :: Owners(ranges, s) == Owners(c.ranges, s)
    ensures forall r :: r in ranges <==> r in c.ranges
  {
    forall s: int
      ensures Owners(ranges, s) == Owners(c.ranges, s)
    {
      OwnersPermute(ranges, c.ranges, s);
    }
    assert forall r :: r in ranges <==> r in multiset(ranges);
    assert forall r :: r in c.ranges <==> r in multiset(c.ranges);
  }

  datatype Route = Route(slot: nat, shardId: uint64)

  /** Lookup, over an arbitrary hash; an empty Transaction ID is refused. */
  method Lookup(p: Placed, hash: string -> uint64, tx: string) returns (r: Option<Route>)
    requires p.Holds(p.ranges)
    ensures r == RouteOf(p.ranges, hash, tx)
  {
    if tx == "" {
      return None;
    }
    var slot := hash(tx) % SLOT_COUNT;
    assert SlotHolds(p.ranges, slot, p.seen[slot], p.slots[slot]);
    if !p.seen[slot] {
      return None;
    }
    r := Some(Route(slot, p.slots[slot]));
  }

  /** Where a Transaction goes, as a function of the ranges alone. */
  ghost function RouteOf(rs: seq<SlotRange>, hash: string -> uint64, tx: string): Option<Route>
  {
    var slot := hash(tx) % SLOT_COUNT;
    if tx == "" || Owners(rs, slot) == 0 then None else Some(Route(slot, Owner(rs, slot)))
  }

  // -------------------------------------------------------------- the summary string

  predicate IsDigit(c: char)
  {
    '0' <= c <= '9'
  }

  function Decimal(n: nat): (s: string)
    ensures s != "" && forall i :: 0 <= i < |s| ==> IsDigit(s[i])
  {
    if n < 10 then ["0123456789"[n]] else Decimal(n / 10) + ["0123456789"[n % 10]]
  }

  predicate NoDigitFirst(s: string)
  {
    s != "" ==> !IsDigit(s[0])
  }

  function Part(r: SlotRange): string
    requires 0 <= r.startSlot && 0 <= r.endSlot
  {
    Decimal(r.startSlot) + "-" + Decimal(r.endSlot) + ":shard=" + Decimal(r.shardId)
  }

  predicate Printable(rs: seq<SlotRange>)
  {
    forall r :: r in rs ==> 0 <= r.startSlot && 0 <= r.endSlot
  }

  function Parts(rs: seq<SlotRange>): seq<string>
    requires Printable(rs)
  {
    seq(|rs|, i requires 0 <= i < |rs| => assert rs[i] in rs; Part(rs[i]))
  }

  /** strings.Join(parts, ","). */
  function Join(parts: seq<string>): string
  {
    if parts == [] then "" else if |parts| == 1 then parts[0] else parts[0] + "," + Join(parts[1..])
  }

  /** RouteMapSummaryString. */
  method SummaryString(rs: seq<SlotRange>) returns (s: string)
    requires Printable(rs)
    ensures s == Join(Parts(rs))
  {
    var parts: seq<string> := [];
    for i := 0 to |rs|
      invariant parts == Parts(rs)[..i]
    {
      assert rs[i] in rs;
      parts := parts + [Part(rs[i])];
    }
    assert Parts(rs)[..|rs|] == Parts(rs);
    s := Join(parts);
  }

  lemma {:induction false} DecimalInjective(n: nat, m: nat)
    requires Decimal(n) == Decimal(m)
    ensures n == m
  {
    var s := Decimal(n);
    if n >= 10 && m >= 10 {
      assert s[..|s| - 1] == Decimal(n / 10) && s[..|s| - 1] == Decimal(m / 10);
      DecimalInjective(n / 10, m / 10);
      SameDigit(n % 10, m % 10);
    } else if n < 10 && m < 10 {
      SameDigit(n, m);
    }
  }

  lemma SameDigit(a: nat, b: nat)
    requires a < 10 && b < 10 && "0123456789"[a] == "0123456789"[b]
    ensures a == b
  {
  }

  /** A number followed by a non-digit is read back in one way only. */
  lemma ReadNumber(n: nat, m: nat, x: string, y: string)
    requires Decimal(n) + x == Decimal(m) + y && NoDigitFirst(x) && NoDigitFirst(y)
    ensures n == m && x == y
  {
    hide Decimal;
    var a, b := Decimal(n), Decimal(m);
    var whole := a + x;
    assert forall i :: 0 <= i < |b| ==> IsDigit((b + y)[i]);
    assert forall i :: 0 <= i < |a| ==> IsDigit(whole[i]);
    assert |a| < |whole| ==> !IsDigit(whole[|a|]);
    assert |b| < |whole| ==> !IsDigit((b + y)[|b|]);
    assert |a| == |b|;
    assert whole[..|a|] == a && (b + y)[..|b|] == b;
    assert whole[|a|..] == x && (b + y)[|b|..] == y;
    DecimalInjective(n, m);
  }

  lemma ReadPart(r: SlotRange, q: SlotRange, x: string, y: string)
    requires 0 <= r.startSlot && 0 <= r.endSlot && 0 <= q.startSlot && 0 <= q.endSlot
    requires NoDigitFirst(x) && NoDigitFirst(y) && Part(r) + x == Part(q) + y
    ensures r == q && x == y
  {
    hide Decimal;
    var a, b := Decimal(r.shardId) + x, Decimal(q.shardId) + y;
    var c, d := Decimal(r.endSlot) + (":shard=" + a), Decimal(q.endSlot) + (":shard=" + b);
    assert Part(r) + x == Decimal(r.startSlot) + ("-" + c);
    assert Part(q) + y == Decimal(q.startSlot) + ("-" + d);
    ReadNumber(r.startSlot, q.startSlot, "-" + c, "-" + d);
    assert c == ("-" + c)[1..] == d;
    ReadNumber(r.endSlot, q.endSlot, ":shard=" + a, ":shard=" + b);
    assert a == (":shard=" + a)[7..] == b;
    ReadNumber(r.shardId, q.shardId, x, y);
  }

  /** What the summary holds behind its first part. */
  function Behind(rs: seq<SlotRange>): string
    requires Printable(rs) && rs != []
  {
    if |rs| == 1 then "" else "," + Join(Parts(rs[1..]))
  }

  lemma SummaryHead(rs: seq<SlotRange>)
    requires Printable(rs) && rs != []
    ensures 0 <= rs[0].startSlot && 0 <= rs[0].endSlot && Printable(rs[1..])
    ensures Join(Parts(rs)) == Part(rs[0]) + Behind(rs) && NoDigitFirst(Behind(rs))
  {
    hide Part, Join;
    assert rs[0] in rs && forall r :: r in rs[1..] ==> r in rs;
    assert Parts(rs)[1..] == Parts(rs[1..]);
    JoinHead(Parts(rs));
  }

  lemma JoinHead(parts: seq<string>)
    requires parts != []
    ensures Join(parts) == parts[0] + if |parts| == 1 then "" else "," + Join(parts[1..])
  {
    if |parts| == 1 {
      assert parts[0] + "" == parts[0];
    } else {
      assert parts[0] + "," + Join(parts[1..]) == parts[0] + ("," + Join(parts[1..]));
    }
  }

  lemma BehindInjective(rs: seq<SlotRange>, qs: seq<SlotRange>)
    requires Printable(rs) && Printable(qs) && rs != [] && qs != [] && Behind(rs) == Behind(qs)
    ensures |rs| == 1 <==> |qs| == 1
    ensures |rs| > 1 ==> Join(Parts(rs[1..])) == Join(Parts(qs[1..]))
  {
    hide Join, Parts;
    if |rs| > 1 {
      assert Behind(rs)[0] == ',' && Behind(rs)[1..] == Join(Parts(rs[1..]));
      assert Behind(qs)[1..] == Join(Parts(qs[1..]));
    }
  }

  /** The summary determines the ranges. */
  lemma {:induction false} SummaryInjective(rs: seq<SlotRange>, qs: seq<SlotRange>)
    requires Printable(rs) && Printable(qs) && rs != [] && qs != []
    requires Join(Parts(rs)) == Join(Parts(qs))
    ensures rs == qs
  {
    hide Part, Parts, Join, Behind, Printable, NoDigitFirst;
    SummaryHead(rs);
    SummaryHead(qs);
    ReadPart(rs[0], qs[0], Behind(rs), Behind(qs));
    BehindInjective(rs, qs);
    assert rs == [rs[0]] + rs[1..] && qs == [qs[0]] + qs[1..];
    if |rs| > 1 {
      SummaryInjective(rs[1..], qs[1..]);
    } else {
      assert rs[1..] == qs[1..];
    }
  }

  /** What the persisted identity relies on: placements with one summary string route every
      Transaction alike, whatever the slot hash is. */
  lemma SameSummarySameRoutes(rs: seq<SlotRange>, qs: seq<SlotRange>, hash: string -> uint64)
    requires Printable(rs) && Printable(qs) && rs != [] && qs != [] && Join(Parts(rs)) == Join(Parts(qs))
    ensures forall tx :: RouteOf(rs, hash, tx) == RouteOf(qs, hash, tx)
  {
    SummaryInjective(rs, qs);
  }

  datatype Identity = NoRecord | Unreadable | Recorded(digest: Bytes)

  /** persistPlacementIdentity: a first start records the digest, a later one must match it. */
  method PersistIdentity(existing: Identity, summary: string, digest: string -> Bytes) returns (ok: bool, after: Identity)
    ensures ok ==> after == Recorded(digest(summary)) && (existing == NoRecord || existing == after)
    ensures !ok ==> after == existing
    ensures existing.Recorded? ==> (ok <==> existing.digest != [] && existing.digest == digest(summary))
  {
    match existing {
      case NoRecord =>
        ok := *;
        after := if ok then Recorded(digest(summary)) else existing;
      case Unreadable =>
        ok, after := false, existing;
      case Recorded(d) =>
        ok, after := d != [] && d == digest(summary), existing;
    }
  }
}
