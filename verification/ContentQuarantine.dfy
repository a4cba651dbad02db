/** The content-quarantine projection: byte-level keys and values in an ordered store,
    and the replicated put, confirm and release operations applied to it. */
module ContentQuarantine {
  import opened Bytes

  const MAX_TX_BYTES := 256
  const MAX_DOC_BYTES := 512
  const MAX_UNIX_MICRO := 253402300799999999

  const PREFIX: Bytes := [0x71, 0x01]

  datatype Record = Record(
    tx: Bytes, doc: Bytes, blockId: uint64, detectedAtUs: int64, confirmedAtUs: int64, scanType: byte, reason: byte)

  // ------------------------------------------------------------------- validation

  /** A control character, as the UTF-8 text would decode: U+0000-U+001F, U+007F-U+009F. */
  predicate ControlAt(s: Bytes, i: nat)
    requires i < |s|
  {
    s[i] < 0x20 || s[i] == 0x7f || (s[i] == 0xc2 && i + 1 < |s| && 0x80 <= s[i + 1] <= 0x9f)
  }

  predicate ValidText(s: Bytes, max: nat)
  {
    0 < |s| <= max && forall i :: 0 <= i < |s| ==> !ControlAt(s, i)
  }

  predicate ValidIdentity(tx: Bytes, doc: Bytes)
  {
    ValidText(tx, MAX_TX_BYTES) && ValidText(doc, MAX_DOC_BYTES)
  }

  predicate ValidRecord(r: Record)
  {
    && ValidIdentity(r.tx, r.doc)
    && 0 < r.detectedAtUs <= MAX_UNIX_MICRO && 0 <= r.confirmedAtUs <= MAX_UNIX_MICRO
    && (r.scanType == 1 || r.scanType == 2) && r.reason == 1
  }

  // ----------------------------------------------------------------- key and value codecs

  function Key(tx: Bytes, doc: Bytes): Bytes
  {
    PREFIX + tx + [0] + doc
  }

  /** bytes.IndexByte(s, 0), with |s| for "not found". */
  function FirstZero(s: Bytes): (i: nat)
    ensures i <= |s| && (i < |s| ==> s[i] == 0) && forall j :: 0 <= j < i ==> s[j] != 0
  {
    if s == [] || s[0] == 0 then 0
    else
      assert forall j :: 0 < j < |s| ==> s[j] == s[1..][j - 1];
      1 + FirstZero(s[1..])
  }

  function DecodeKey(key: Bytes): Option<(Bytes, Bytes)>
  {
    if !(PREFIX <= key) then None
    else
      var rest := key[2..];
      var sep := FirstZero(rest);
      if sep == |rest| || !ValidIdentity(rest[..sep], rest[sep + 1..]) then None
      else Some((rest[..sep], rest[sep + 1..]))
  }

  function EncodeValue(r: Record): Bytes
  {
    [2] + LE(r.blockId, 8) + LE(ToUint64(r.detectedAtUs), 8) + [r.scanType, r.reason] + LE(ToUint64(r.confirmedAtUs), 8)
  }

  /** decodeContentQuarantine: version 1 values have no confirmation time. */
  function Decode(key: Bytes, val: Bytes): (r: Option<Record>)
    ensures r.Some? ==> ValidRecord(r.value) && DecodeKey(key) == Some((r.value.tx, r.value.doc))
  {
    var id := DecodeKey(key);
    if id == None || val == [] || !((val[0] == 1 && |val| == 19) || (val[0] == 2 && |val| == 27)) then None
    else
      var detected := Uint64(val[9..17]);
      var confirmed := if val[0] == 2 then Uint64(val[19..27]) else 0;
      if detected > MAX_INT64 || confirmed > MAX_INT64 then None
      else
        var r := Record(id.value.0, id.value.1, Uint64(val[1..9]), detected, confirmed, val[17], val[18]);
        if ValidRecord(r) then Some(r) else None
  }

  /** A key decodes to the identity it was built from, so no two identities share a key. */
  lemma KeyRoundTrip(tx: Bytes, doc: Bytes)
    requires ValidIdentity(tx, doc)
    ensures DecodeKey(Key(tx, doc)) == Some((tx, doc))
  {
    var k := Key(tx, doc);
    var rest := k[2..];
    assert rest == tx + [0] + doc;
    assert rest[|tx|] == 0;
    forall j | 0 <= j < |tx|
      ensures rest[j] != 0
    {
      assert !ControlAt(tx, j);
    }
    assert FirstZero(rest) == |tx|;
    assert rest[..|tx|] == tx && rest[|tx| + 1..] == doc;
  }

  /** And every key that decodes is the key of what it decodes to. */
  lemma KeyIsCanonical(key: Bytes)
    requires DecodeKey(key).Some?
    ensures var (tx, doc) := DecodeKey(key).value; key == Key(tx, doc) && ValidIdentity(tx, doc)
  {
    var rest := key[2..];
    var sep := FirstZero(rest);
    assert rest == rest[..sep] + [0] + rest[sep + 1..];
    assert key == key[..2] + rest;
  }

  lemma ValueRoundTrip(r: Record)
    requires ValidRecord(r)
    ensures Decode(Key(r.tx, r.doc), EncodeValue(r)) == Some(r)
  {
    hide LE, FromLE, DecodeKey, Key, ValidIdentity;
    KeyRoundTrip(r.tx, r.doc);
    var v := EncodeValue(r);
    assert v[1..9] == LE(r.blockId, 8) && v[9..17] == LE(r.detectedAtUs, 8) && v[19..27] == LE(r.confirmedAtUs, 8);
    assert v[17] == r.scanType && v[18] == r.reason;
    LE8(r.blockId);
    LE8(r.detectedAtUs);
    LE8(r.confirmedAtUs);
  }

  // ------------------------------------------------------------ operations and replay

  datatype Op =
    | Put(record: Record)
    | Confirm(tx: Bytes, doc: Bytes, at: int64)
    | Release(tx: Bytes, doc: Bytes)

  type Store = map<Bytes, Bytes>

  function Apply(m: Store, op: Op): Store
  {
    match op
    case Put(r) => if ValidRecord(r) then m[Key(r.tx, r.doc) := EncodeValue(r)] else m
    case Confirm(tx, doc, at) =>
      var key := Key(tx, doc);
      if at <= 0 || !ValidIdentity(tx, doc) || key !in m then m
      else
        var r := Decode(key, m[key]);
        if r == None || r.value.confirmedAtUs > 0 then m
        else if at > MAX_UNIX_MICRO then m
        else m[key := EncodeValue(r.value.(confirmedAtUs := at))]
    case Release(tx, doc) =>
      var key := Key(tx, doc);
      if !ValidIdentity(tx, doc) || key !in m || Decode(key, m[key]) == None then m else m - {key}
  }

  function Run(m: Store, ops: seq<Op>): Store
  {
    if ops == [] then m else Apply(Run(m, ops[..|ops| - 1]), ops[|ops| - 1])
  }

  /** What the store holds under one key. */
  function Slot(m: Store, k: Bytes): Option<Bytes>
  {
    if k in m then Some(m[k]) else None
  }

  function KeyOf(op: Op): Bytes
  {
    match op
    case Put(r) => Key(r.tx, r.doc)
    case Confirm(tx, doc, _) => Key(tx, doc)
    case Release(tx, doc) => Key(tx, doc)
  }

  /** One operation's effect on one key's slot. */
  function ApplyAt(v: Option<Bytes>, op: Op, k: Bytes): Option<Bytes>
  {
    if KeyOf(op) != k then v
    else
      match op
      case Put(r) => if ValidRecord(r) then Some(EncodeValue(r)) else v
      case Confirm(tx, doc, at) =>
        if !(0 < at <= MAX_UNIX_MICRO) || !ValidIdentity(tx, doc) || !Unconfirmed(v, k) then v
        else Some(EncodeValue(Decode(k, v.value).value.(confirmedAtUs := at)))
      case Release(tx, doc) =>
        if !ValidIdentity(tx, doc) || v == None || Decode(k, v.value) == None then v else None
  }

  predicate Unconfirmed(v: Option<Bytes>, k: Bytes)
  {
    v.Some? && var r := Decode(k, v.value); r.Some? && r.value.confirmedAtUs == 0
  }

  predicate Confirmed(v: Option<Bytes>, k: Bytes)
  {
    v.Some? && var r := Decode(k, v.value); r.Some? && r.value.confirmedAtUs > 0
  }

  function RunAt(v: Option<Bytes>, ops: seq<Op>, k: Bytes): Option<Bytes>
  {
    if ops == [] then v else ApplyAt(RunAt(v, ops[..|ops| - 1], k), ops[|ops| - 1], k)
  }

  lemma SlotOfApply(m: Store, op: Op, k: Bytes)
    ensures Slot(Apply(m, op), k) == ApplyAt(Slot(m, k), op, k)
  {
    hide Decode, EncodeValue, Key, ValidIdentity, ValidRecord;
    if op.Confirm? && Slot(m, k).Some? {
      DecodedIsValid(k, m[k]);
    }
  }

  lemma DecodedIsValid(k: Bytes, b: Bytes)
    ensures Decode(k, b).Some? ==> Decode(k, b).value.confirmedAtUs >= 0
  {
  }

  lemma {:induction false} SlotOfRun(m: Store, ops: seq<Op>, k: Bytes)
    ensures Slot(Run(m, ops), k) == RunAt(Slot(m, k), ops, k)
  {
    if ops != [] {
      hide Apply, ApplyAt;
      SlotOfRun(m, ops[..|ops| - 1], k);
      SlotOfApply(Run(m, ops[..|ops| - 1]), ops[|ops| - 1], k);
    }
  }

  /** A stored confirmation decodes as confirmed, and a put as what was put. */
  lemma ConfirmSticks(v: Option<Bytes>, op: Op, k: Bytes)
    requires op.Confirm? && KeyOf(op) == k && 0 < op.at <= MAX_UNIX_MICRO && ValidIdentity(op.tx, op.doc) && Unconfirmed(v, k)
    ensures Confirmed(ApplyAt(v, op, k), k)
  {
    hide EncodeValue;
    var r := Decode(k, v.value).value;
    KeyIsCanonical(k);
    ValueRoundTrip(r.(confirmedAtUs := op.at));
  }

  lemma PutDecodes(r: Record)
    requires ValidRecord(r)
    ensures Decode(Key(r.tx, r.doc), EncodeValue(r)).Some?
  {
    ValueRoundTrip(r);
  }

  /** The record the store holds for a document, if it can be read. */
  function Lookup(m: Store, tx: Bytes, doc: Bytes): Option<Record>
  {
    var k := Key(tx, doc);
    if k in m then Decode(k, m[k]) else None
  }

  /** What each operation means for the document it names: a put stores the record, the first
      valid confirmation sticks and changes nothing else, a release removes it. */
  lemma OperationMeans(m: Store, op: Op)
    ensures op.Put? && ValidRecord(op.record) ==> Lookup(Apply(m, op), op.record.tx, op.record.doc) == Some(op.record)
    ensures op.Put? && !ValidRecord(op.record) ==> Apply(m, op) == m
    ensures op.Confirm? && ValidIdentity(op.tx, op.doc) ==>
              var was, now := Lookup(m, op.tx, op.doc), Lookup(Apply(m, op), op.tx, op.doc);
              if was.Some? && was.value.confirmedAtUs == 0 && 0 < op.at <= MAX_UNIX_MICRO
              then now == Some(was.value.(confirmedAtUs := op.at))
              else now == was && Apply(m, op) == m
    ensures op.Release? && ValidIdentity(op.tx, op.doc) ==> Lookup(Apply(m, op), op.tx, op.doc) == None
    ensures !op.Put? && !ValidIdentity(op.tx, op.doc) ==> Apply(m, op) == m
  {
    hide EncodeValue, ValidIdentity;
    match op {
      case Put(r) =>
        if ValidRecord(r) {
          ValueRoundTrip(r);
        }
      case Confirm(tx, doc, at) =>
        var was := Lookup(m, tx, doc);
        if was.Some? && was.value.confirmedAtUs == 0 && 0 < at <= MAX_UNIX_MICRO {
          KeyIsCanonical(Key(tx, doc));
          ValueRoundTrip(was.value.(confirmedAtUs := at));
        }
      case Release(_, _) =>
    }
  }

  /** No operation touches another document's slot. */
  lemma OthersUntouched(m: Store, op: Op, tx: Bytes, doc: Bytes)
    requires ValidIdentity(tx, doc) && KeyOf(op) != Key(tx, doc)
    ensures Lookup(Apply(m, op), tx, doc) == Lookup(m, tx, doc)
  {
    hide Decode, EncodeValue, Key, ValidIdentity, ValidRecord;
  }

  /** An undecodable value survives everything but a put and is never created. */
  lemma {:induction false} BadStays(v: Option<Bytes>, ops: seq<Op>, k: Bytes)
    requires RunAt(v, ops, k).Some? && Decode(k, RunAt(v, ops, k).value) == None
    ensures RunAt(v, ops, k) == v
  {
    if ops != [] {
      var op, w := ops[|ops| - 1], RunAt(v, ops[..|ops| - 1], k);
      hide Decode, EncodeValue, Key, ValidIdentity, ValidRecord;
      if op.Put? && ValidRecord(op.record) {
        PutDecodes(op.record);
      }
      if op.Confirm? && KeyOf(op) == k && 0 < op.at <= MAX_UNIX_MICRO && ValidIdentity(op.tx, op.doc) && Unconfirmed(w, k) {
        ConfirmSticks(w, op, k);
      }
      BadStays(v, ops[..|ops| - 1], k);
    }
  }

  /** Operations that leave one slot unconfirmed either overwrite every slot alike or
      leave a confirmed slot alone. */
  lemma {:induction false} UnconfirmedMeans(v: Option<Bytes>, w: Option<Bytes>, ops: seq<Op>, k: Bytes)
    requires Unconfirmed(RunAt(v, ops, k), k) && Confirmed(w, k)
    ensures RunAt(w, ops, k) == RunAt(v, ops, k) || RunAt(w, ops, k) == w
  {
    if ops != [] {
      var op, x := ops[|ops| - 1], RunAt(v, ops[..|ops| - 1], k);
      hide Decode, EncodeValue, Key, ValidIdentity, ValidRecord;
      if KeyOf(op) == k && op.Put? && ValidRecord(op.record) {
        return;
      }
      if op.Confirm? && KeyOf(op) == k && 0 < op.at <= MAX_UNIX_MICRO && ValidIdentity(op.tx, op.doc) && Unconfirmed(x, k) {
        ConfirmSticks(x, op, k);
      }
      UnconfirmedMeans(v, w, ops[..|ops| - 1], k);
    }
  }

  /** Running the same operations again over their own result changes nothing. */
  lemma {:induction false} RunAtTwice(v: Option<Bytes>, ops: seq<Op>, k: Bytes)
    ensures RunAt(RunAt(v, ops, k), ops, k) == RunAt(v, ops, k)
  {
    if ops != [] {
      var init, op := ops[..|ops| - 1], ops[|ops| - 1];
      var x := RunAt(v, init, k);
      var f := RunAt(v, ops, k);
      hide Decode, EncodeValue, Key, ValidIdentity, ValidRecord;
      RunAtTwice(v, init, k);
      if f != x {
        match op {
          case Put(_) =>
          case Release(_, _) =>
            var y := RunAt(None, init, k);
            if y.Some? && Decode(k, y.value) == None {
              BadStays(None, init, k);
            }
          case Confirm(_, _, _) =>
            ConfirmSticks(x, op, k);
            UnconfirmedMeans(v, f, init, k);
        }
      }
    }
  }

  lemma {:induction false} RunSplit(m: Store, p: seq<Op>, q: seq<Op>)
    ensures Run(m, p + q) == Run(Run(m, p), q)
  {
    if q == [] {
      assert p + q == p;
    } else {
      var n := |q| - 1;
      assert (p + q)[..|p + q| - 1] == p + q[..n];
      RunSplit(m, p, q[..n]);
    }
  }

  /** From any store, valid operations or not: replaying any suffix of a log over the state
      the whole log produced leaves that state unchanged. */
  lemma ReplaySuffix(m: Store, ops: seq<Op>, from: nat)
    requires from <= |ops|
    ensures Run(Run(m, ops), ops[from..]) == Run(m, ops)
  {
    var p, q := ops[..from], ops[from..];
    assert ops == p + q;
    RunSplit(m, p, q);
    var x := Run(m, p);
    var final := Run(x, q);
    forall k
      ensures Slot(Run(final, q), k) == Slot(final, k)
    {
      SlotOfRun(x, q, k);
      SlotOfRun(final, q, k);
      RunAtTwice(Slot(x, k), q, k);
    }
    SameSlots(Run(final, q), final);
  }

  lemma SameSlots(a: Store, b: Store)
    requires forall k :: Slot(a, k) == Slot(b, k)
    ensures a == b
  {
    forall k
      ensures k in a <==> k in b
      ensures k in a ==> a[k] == b[k]
    {
      assert Slot(a, k) == Slot(b, k);
    }
  }

  // ------------------------------------------------------------------- ordered scans

  /** The store's key order. */
  predicate Less(a: Bytes, b: Bytes)
  {
    b != [] && (a == [] || a[0] < b[0] || (a[0] == b[0] && Less(a[1..], b[1..])))
  }

  predicate InRange(k: Bytes, lower: Bytes, upper: Bytes)
  {
    !Less(k, lower) && Less(k, upper)
  }

  /** The index just behind the last byte that is not 0xff, or 0. */
  function Incrementable(s: Bytes): (n: nat)
    ensures n <= |s| && (n > 0 ==> s[n - 1] != 0xff) && forall i :: n <= i < |s| ==> s[i] == 0xff
  {
    if s == [] then 0
    else if s[|s| - 1] != 0xff then |s|
    else Incrementable(s[..|s| - 1])
  }

  function PrefixSuccessor(prefix: Bytes): Bytes
  {
    var n := Incrementable(prefix);
    if n == 0 then prefix + [0] else prefix[..n - 1] + [prefix[n - 1] + 1]
  }

  lemma IncrementableIs(s: Bytes, n: nat)
    requires n <= |s| && (n > 0 ==> s[n - 1] != 0xff) && forall i :: n <= i < |s| ==> s[i] == 0xff
    ensures Incrementable(s) == n
  {
    hide Incrementable;
  }

  /** contentQuarantinePrefixSuccessor works on the array from its end. */
  method ComputeSuccessor(prefix: Bytes) returns (upper: Bytes)
    ensures upper == PrefixSuccessor(prefix)
  {
    hide Incrementable;
    var buf := new byte[|prefix|](i requires 0 <= i < |prefix| => prefix[i]);
    assert buf[..] == prefix;
    var i := |prefix|;
    while i > 0
      invariant 0 <= i <= |prefix| == buf.Length && buf[..] == prefix
      invariant forall j :: i <= j < |prefix| ==> prefix[j] == 0xff
    {
      assert buf[i - 1] == prefix[i - 1];
      if buf[i - 1] != 0xff {
        IncrementableIs(prefix, i);
        buf[i - 1] := buf[i - 1] + 1;
        assert buf[..i] == prefix[..i - 1] + [prefix[i - 1] + 1];
        return buf[..i];
      }
      i := i - 1;
    }
    IncrementableIs(prefix, 0);
    upper := buf[..] + [0];
  }

  lemma IncrementableTail(p: Bytes)
    requires Incrementable(p) > 1
    ensures Incrementable(p[1..]) == Incrementable(p) - 1
  {
    hide Incrementable;
    assert forall i :: 0 <= i < |p[1..]| ==> p[1..][i] == p[i + 1];
    IncrementableIs(p[1..], Incrementable(p) - 1);
  }

  lemma SuccessorTail(p: Bytes)
    requires Incrementable(p) > 1
    ensures Incrementable(p[1..]) > 0 && PrefixSuccessor(p) == [p[0]] + PrefixSuccessor(p[1..])
  {
    hide Incrementable;
    var n, q := Incrementable(p), p[1..];
    IncrementableTail(p);
    assert p[..n - 1] == [p[0]] + q[..n - 2];
    assert [p[0]] + q[..n - 2] + [p[n - 1] + 1] == [p[0]] + (q[..n - 2] + [q[n - 2] + 1]);
  }

  lemma PrefixByHead(p: Bytes, k: Bytes)
    requires p != [] && k != []
    ensures p <= k <==> p[0] == k[0] && p[1..] <= k[1..]
  {
    if p[0] == k[0] && p[1..] <= k[1..] {
      assert p == [p[0]] + p[1..] && k == [k[0]] + k[1..];
    }
  }

  /** With some byte below 0xff, the range is exactly the keys that carry the prefix. */
  lemma {:induction false} RangeIsPrefix(p: Bytes, k: Bytes)
    requires Incrementable(p) > 0
    ensures InRange(k, p, PrefixSuccessor(p)) <==> p <= k
  {
    hide Incrementable;
    var n, u := Incrementable(p), PrefixSuccessor(p);
    if k != [] {
      PrefixByHead(p, k);
      if n > 1 {
        SuccessorTail(p);
        assert u[0] == p[0] && u[1..] == PrefixSuccessor(p[1..]);
        RangeIsPrefix(p[1..], k[1..]);
      } else {
        assert u == [p[0] + 1] && u[1..] == [];
        assert forall i :: 0 <= i < |p[1..]| ==> p[1..][i] == p[i + 1];
        OnlyMaxBytes(p[1..], k[1..]);
        assert !Less(k[1..], u[1..]);
        assert Less(k, u) <==> k[0] <= p[0];
      }
    }
  }

  lemma {:induction false} OnlyMaxBytes(p: Bytes, k: Bytes)
    requires forall i :: 0 <= i < |p| ==> p[i] == 0xff
    ensures !Less(k, p) <==> p <= k
  {
    if p != [] && k != [] {
      OnlyMaxBytes(p[1..], k[1..]);
      PrefixByHead(p, k);
    }
  }

  /** All bytes 0xff: the range ends right behind the prefix itself, so it holds nothing else. */
  lemma {:induction false} MaxPrefixRange(p: Bytes, k: Bytes)
    requires Incrementable(p) == 0
    ensures InRange(k, p, PrefixSuccessor(p)) <==> k == p
  {
    hide Incrementable;
    var u := p + [0];
    if p == [] {
      assert u == [0] && u[1..] == [];
      assert k != [] ==> !Less(k[1..], u[1..]);
    } else if k != [] {
      IncrementableIs(p[1..], 0);
      assert u[1..] == p[1..] + [0];
      MaxPrefixRange(p[1..], k[1..]);
      assert p == [p[0]] + p[1..] && k == [k[0]] + k[1..];
    }
  }

  function Lower(tx: Bytes): Bytes
  {
    PREFIX + tx + [0]
  }

  /** The scan range of a transaction holds exactly the keys that decode to it. */
  lemma ScanRange(tx: Bytes, k: Bytes)
    requires ValidText(tx, MAX_TX_BYTES) && DecodeKey(k).Some?
    ensures InRange(k, Lower(tx), PrefixSuccessor(Lower(tx))) <==> DecodeKey(k).value.0 == tx
  {
    hide Less, ValidIdentity, ControlAt, Incrementable;
    var lower := Lower(tx);
    assert lower[|lower| - 1] == 0 != 0xff;
    RangeIsPrefix(lower, k);
    KeyIsCanonical(k);
    var (tx', doc) := DecodeKey(k).value;
    if tx' == tx {
      assert k == lower + doc;
    }
    if lower <= k {
      assert tx + [0] <= k[2..];
      FirstZeroBehind(tx, k[2..]);
    }
  }

  lemma FirstZeroBehind(tx: Bytes, rest: Bytes)
    requires ValidText(tx, MAX_TX_BYTES) && tx + [0] <= rest
    ensures FirstZero(rest) == |tx| && rest[..|tx|] == tx
  {
    hide ValidText;
    forall j | 0 <= j < |tx|
      ensures rest[j] != 0
    {
      assert rest[..|tx| + 1][j] == tx[j];
      NoZero(tx, j);
    }
    assert rest[|tx|] == rest[..|tx| + 1][|tx|] == 0;
  }

  lemma NoZero(tx: Bytes, j: nat)
    requires ValidText(tx, MAX_TX_BYTES) && j < |tx|
    ensures tx[j] != 0
  {
    assert !ControlAt(tx, j);
  }

  /** And the unrestricted scan holds every quarantine key. */
  lemma ScanAll(k: Bytes)
    ensures InRange(k, PREFIX, PrefixSuccessor(PREFIX)) <==> PREFIX <= k
  {
    assert PREFIX[1] != 0xff;
    RangeIsPrefix(PREFIX, k);
  }

  lemma {:induction false} LessTotal(a: Bytes, b: Bytes)
    ensures Less(a, b) || Less(b, a) || a == b
  {
    if a != [] && b != [] && a[0] == b[0] {
      LessTotal(a[1..], b[1..]);
      assert a == [a[0]] + a[1..] && b == [b[0]] + b[1..];
    }
  }

  /** What is not below b is not below anything below b. */
  lemma {:induction false} LessTrans(a: Bytes, b: Bytes, c: Bytes)
    requires !Less(b, a) && Less(b, c)
    ensures Less(a, c)
  {
    if a != [] && b != [] && a[0] == b[0] == c[0] {
      LessTrans(a[1..], b[1..], c[1..]);
    }
  }

  method LeastKey(keys: set<Bytes>) returns (k: Bytes)
    requires keys != {}
    ensures k in keys && forall j :: j in keys && j != k ==> Less(k, j)
  {
    hide Less;
    k :| k in keys;
    var todo := keys - {k};
    while todo != {}
      invariant todo <= keys && k in keys && forall j :: j in keys && j !in todo && j != k ==> Less(k, j)
      decreases todo
    {
      var j :| j in todo;
      LessTotal(k, j);
      if Less(j, k) {
        forall i | i in keys && i !in todo && i != j
          ensures Less(j, i)
        {
          if i != k {
            NotLess(j, k);
            LessTrans(j, k, i);
          }
        }
        k := j;
      }
      todo := todo - {j};
    }
  }

  lemma {:induction false} NotLess(a: Bytes, b: Bytes)
    requires Less(a, b)
    ensures !Less(b, a)
  {
    if a != [] && a[0] == b[0] {
      NotLess(a[1..], b[1..]);
    }
  }

  /** What a scan over one transaction, or over all with an empty ID, ranges over. */
  predicate Listed(tx: Bytes, k: Bytes)
  {
    if tx == [] then InRange(k, PREFIX, PrefixSuccessor(PREFIX)) else InRange(k, Lower(tx), PrefixSuccessor(Lower(tx)))
  }

  predicate KeysAscend(rs: seq<Record>)
  {
    forall i, j :: 0 <= i < j < |rs| ==> Less(Key(rs[i].tx, rs[i].doc), Key(rs[j].tx, rs[j].doc))
  }

  // ------------------------------------------------------------------------ the index

  lemma ListGrows(rs: seq<Record>, r: Option<Record>)
    requires KeysAscend(rs) || rs == []
    requires r.Some? ==> forall q :: q in rs ==> Less(Key(q.tx, q.doc), Key(r.value.tx, r.value.doc))
    ensures r.Some? ==> KeysAscend(rs + [r.value])
    ensures r == None ==> KeysAscend(rs)
  {
  }

  lemma DecodedBelongs(tx: Bytes, k: Bytes, b: Bytes)
    requires Listed(tx, k) && Decode(k, b).Some? && (tx == [] || ValidText(tx, MAX_TX_BYTES))
    ensures var r := Decode(k, b).value; Key(r.tx, r.doc) == k && (tx == [] || r.tx == tx)
  {
    hide Less, InRange, ValidText, ValidIdentity, DecodeKey, Key, ValidRecord;
    KeyIsCanonical(k);
    if tx != [] {
      ScanRange(tx, k);
    }
  }

  class Projection {
    var db: Store

    constructor ()
      ensures db == map[]
    {
      db := map[];
    }

    method PutRecord(r: Record) returns (ok: bool)
      modifies this
      ensures db == Apply(old(db), Put(r)) && ok == ValidRecord(r)
    {
      ok := ValidRecord(r);
      if ok {
        db := db[Key(r.tx, r.doc) := EncodeValue(r)];
      }
    }

    /** GetContentQuarantine: found is false both for a missing and for an unreadable record. */
    method Get(tx: Bytes, doc: Bytes) returns (r: Option<Record>, missing: bool)
      ensures missing <==> ValidIdentity(tx, doc) && Key(tx, doc) !in db
      ensures r == if ValidIdentity(tx, doc) && Key(tx, doc) in db then Decode(Key(tx, doc), db[Key(tx, doc)]) else None
    {
      if !ValidIdentity(tx, doc) {
        return None, false;
      }
      var key := Key(tx, doc);
      if key !in db {
        return None, true;
      }
      return Decode(key, db[key]), false;
    }

    method ConfirmRecord(tx: Bytes, doc: Bytes, at: int64) returns (ok: bool)
      modifies this
      ensures db == Apply(old(db), Confirm(tx, doc, at))
      ensures ok <==> at > 0 && ValidIdentity(tx, doc)
                      && (Key(tx, doc) in old(db) ==>
                            var r := Decode(Key(tx, doc), old(db)[Key(tx, doc)]);
                            r.Some? && (r.value.confirmedAtUs == 0 ==> at <= MAX_UNIX_MICRO))
    {
      if at <= 0 {
        return false;
      }
      var r, missing := Get(tx, doc);
      if missing || r == None {
        return missing;
      }
      if r.value.confirmedAtUs > 0 {
        return true;
      }
      KeyRoundTrip(tx, doc);
      ok := PutRecord(r.value.(confirmedAtUs := at));
    }

    method ReleaseRecord(tx: Bytes, doc: Bytes) returns (ok: bool)
      modifies this
      ensures db == Apply(old(db), Release(tx, doc))
      ensures ok <==> ValidIdentity(tx, doc)
                      && (Key(tx, doc) in old(db) ==> Decode(Key(tx, doc), old(db)[Key(tx, doc)]).Some?)
    {
      var r, missing := Get(tx, doc);
      if missing || r == None {
        return missing;
      }
      db := db - {Key(tx, doc)};
      ok := true;
    }

    /** ListContentQuarantines, in key order: never a foreign transaction's record, nothing
        left out below the limit, and one unreadable record in the way fails the listing. */
    method List(tx: Bytes, limit: int) returns (records: seq<Record>, ok: bool)
      ensures ok ==> limit > 0 && |records| <= limit && (tx == [] || ValidText(tx, MAX_TX_BYTES)) && KeysAscend(records)
      ensures ok ==> forall r :: r in records ==> (tx == [] || r.tx == tx) && Key(r.tx, r.doc) in db
                                                  && Decode(Key(r.tx, r.doc), db[Key(r.tx, r.doc)]) == Some(r)
      ensures ok && |records| < limit ==>
                forall k :: k in db && Listed(tx, k) ==> Decode(k, db[k]).Some? && Decode(k, db[k]).value in records
      ensures !ok ==> limit <= 0 || (tx != [] && !ValidText(tx, MAX_TX_BYTES))
                      || exists k :: k in db && Listed(tx, k) && Decode(k, db[k]) == None
    {
      hide Less, Decode, Key, DecodeKey, InRange, ValidText, KeysAscend;
      records, ok := [], false;
      if limit <= 0 || (tx != [] && !ValidText(tx, MAX_TX_BYTES)) {
        return;
      }
      var todo := set k | k in db && Listed(tx, k);
      assert KeysAscend(records) by { ListGrows(records, None); }
      while todo != {} && |records| < limit
        invariant |records| <= limit && KeysAscend(records)
        invariant forall k :: k in todo ==> k in db && Listed(tx, k)
        invariant forall k :: k in db && Listed(tx, k) && k !in todo ==> Decode(k, db[k]).Some? && Decode(k, db[k]).value in records
        invariant forall r :: r in records ==> (tx == [] || r.tx == tx) && Key(r.tx, r.doc) in db
                                                && Decode(Key(r.tx, r.doc), db[Key(r.tx, r.doc)]) == Some(r)
        invariant forall r, k :: r in records && k in todo ==> Less(Key(r.tx, r.doc), k)
        decreases todo
      {
        var k := LeastKey(todo);
        var r := Decode(k, db[k]);
        if r == None {
          return;
        }
        DecodedBelongs(tx, k, db[k]);
        ListGrows(records, r);
        records := records + [r.value];
        todo := todo - {k};
      }
      ok := true;
    }

    /** Applying a committed log entry by entry, and a suffix of it again after a restart. */
    method Replay(ops: seq<Op>, from: nat)
      requires from <= |ops|
      modifies this
      ensures db == Run(old(db), ops)
    {
      ApplyAll(ops);
      ApplyAll(ops[from..]);
      ReplaySuffix(old(db), ops, from);
    }

    method ApplyAll(ops: seq<Op>)
      modifies this
      ensures db == Run(old(db), ops)
    {
      for i := 0 to |ops|
        invariant db == Run(old(db), ops[..i])
      {
        assert ops[..i + 1][..i] == ops[..i];
        var _ := ApplyOne(ops[i]);
      }
      assert ops[..|ops|] == ops;
    }

    method ApplyOne(op: Op) returns (ok: bool)
      modifies this
      ensures db == Apply(old(db), op)
    {
      match op {
        case Put(r) => ok := PutRecord(r);
        case Confirm(tx, doc, at) => ok := ConfirmRecord(tx, doc, at);
        case Release(tx, doc) => ok := ReleaseRecord(tx, doc);
      }
    }
  }
}
