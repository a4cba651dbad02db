/** The side index of a Block: one checksummed, length-prefixed entry per
    document, with torn-tail repair and envelope replacement. */
module Index {
  import opened Bytes
  import opened Collections
  import opened Storage
  import opened Frame

  const INDEX_HEADER_SIZE := 12
  const MAX_ENTRY := 131072
  const ENTRY_V1: byte := 1
  const ENTRY_V2: byte := 2
  const FIXED_SIZE := 60

  datatype IndexEntry = IndexEntry(
    txId: Bytes, docName: Bytes, contentType: Bytes,
    createdUs: int64, firstFrameOff: int64, frameCount: uint32, totalBytes: int64,
    sha256: Digest, envelope: Bytes)

  // ------------------------------------------------------------ the entry codec

  /** validateEntryFieldLens: every variable field fits its uint16 length prefix. */
  predicate FieldsFit(e: IndexEntry)
  {
    |e.txId| < TWO_16 && |e.docName| < TWO_16 && |e.contentType| < TWO_16 && |e.envelope| < TWO_16
  }

  function LenPrefixed(s: Bytes): (r: Bytes)
    ensures |r| == 2 + |s|
  {
    LE(|s|, 2) + s
  }

  function TakeLenPrefixed(data: Bytes): (r: Option<(Bytes, Bytes)>)
  {
    if |data| < 2 then None
    else
      var n := Uint16(data[..2]);
      if |data| < 2 + n then None else Some((data[2..2 + n], data[2 + n..]))
  }

  lemma TakeWritten(s: Bytes, tail: Bytes)
    requires |s| < TWO_16
    ensures TakeLenPrefixed(LenPrefixed(s) + tail) == Some((s, tail))
  {
    LE2(|s|);
    var data := LenPrefixed(s) + tail;
    assert data == LE(|s|, 2) + (s + tail);
    assert data[..2] == LE(|s|, 2);
    assert data[2..] == s + tail;
    assert data[2..2 + |s|] == s && data[2 + |s|..] == tail;
  }

  function FixedFields(e: IndexEntry): (r: Bytes)
    ensures |r| == FIXED_SIZE
  {
    LE(ToUint64(e.createdUs), 8) + LE(ToUint64(e.firstFrameOff), 8) + LE(e.frameCount, 4)
    + LE(ToUint64(e.totalBytes), 8) + e.sha256
  }

  function Envelope(e: IndexEntry): Bytes
  {
    if e.envelope == [] then [] else LenPrefixed(e.envelope)
  }

  function EncodeEntry(e: IndexEntry): (r: Bytes)
    ensures |r| == 68 + |e.txId| + |e.docName| + |e.contentType|
                   + (if e.envelope == [] then 0 else 2 + |e.envelope|)
  {
    [if e.envelope == [] then ENTRY_V1 else ENTRY_V2, 0]
    + (LenPrefixed(e.txId) + (LenPrefixed(e.docName) + (LenPrefixed(e.contentType)
    + (FixedFields(e) + Envelope(e)))))
  }

  function DecodeEnvelope(version: byte, rest: Bytes): (r: Option<(Bytes, Bytes)>)
  {
    if version == ENTRY_V2 then TakeLenPrefixed(rest) else Some(([], rest))
  }

  function DecodeEntry(data: Bytes): (r: Option<IndexEntry>)
  {
    if |data| < 2 || (data[0] != ENTRY_V1 && data[0] != ENTRY_V2) then None
    else
      match TakeLenPrefixed(data[2..])
      case None => None
      case Some((txId, r1)) =>
        match TakeLenPrefixed(r1)
        case None => None
        case Some((docName, r2)) =>
          match TakeLenPrefixed(r2)
          case None => None
          case Some((contentType, r3)) => DecodeTail(data[0], txId, docName, contentType, r3)
  }

  /** The fixed fields, the envelope and nothing behind it. */
  function DecodeTail(version: byte, txId: Bytes, docName: Bytes, contentType: Bytes, rest: Bytes): (r: Option<IndexEntry>)
  {
    if |rest| < FIXED_SIZE then None
    else
      match DecodeEnvelope(version, rest[FIXED_SIZE..])
      case None => None
      case Some((envelope, behind)) =>
        if behind != [] then None
        else Some(IndexEntry(txId, docName, contentType,
                             ToInt64(Uint64(rest[..8])), ToInt64(Uint64(rest[8..16])), Uint32(rest[16..20]),
                             ToInt64(Uint64(rest[20..28])), rest[28..60], envelope))
  }

  lemma DecodeWrittenTail(e: IndexEntry)
    requires FieldsFit(e)
    ensures DecodeTail(if e.envelope == [] then ENTRY_V1 else ENTRY_V2, e.txId, e.docName, e.contentType,
                       FixedFields(e) + Envelope(e)) == Some(e)
  {
    hide LE, FromLE;
    var x, y, z := ToUint64(e.createdUs), ToUint64(e.firstFrameOff), ToUint64(e.totalBytes);
    LE8(x);
    LE8(y);
    LE8(z);
    LE4(e.frameCount);
    var fixed := FixedFields(e);
    var rest := fixed + Envelope(e);
    FixedSlices(e);
    assert rest[..8] == fixed[..8] && rest[8..16] == fixed[8..16] && rest[16..20] == fixed[16..20];
    assert rest[20..28] == fixed[20..28] && rest[28..60] == fixed[28..60];
    assert rest[FIXED_SIZE..] == Envelope(e);
    if e.envelope != [] {
      TakeWritten(e.envelope, []);
      assert LenPrefixed(e.envelope) + [] == LenPrefixed(e.envelope);
    }
  }

  lemma FixedSlices(e: IndexEntry)
    ensures var fixed := FixedFields(e);
            && fixed[..8] == LE(ToUint64(e.createdUs), 8) && fixed[8..16] == LE(ToUint64(e.firstFrameOff), 8)
            && fixed[16..20] == LE(e.frameCount, 4) && fixed[20..28] == LE(ToUint64(e.totalBytes), 8)
            && fixed[28..60] == e.sha256
  {
    hide LE, ToUint64;
  }

  /** Every entry whose fields fit decodes to itself. */
  lemma EntryRoundTrip(e: IndexEntry)
    requires FieldsFit(e)
    ensures DecodeEntry(EncodeEntry(e)) == Some(e)
  {
    hide TakeLenPrefixed, LenPrefixed, FixedFields, Envelope, DecodeTail;
    var r3 := FixedFields(e) + Envelope(e);
    var r2 := LenPrefixed(e.contentType) + r3;
    var r1 := LenPrefixed(e.docName) + r2;
    TakeWritten(e.txId, r1);
    TakeWritten(e.docName, r2);
    TakeWritten(e.contentType, r3);
    DecodeWrittenTail(e);
    assert EncodeEntry(e)[2..] == LenPrefixed(e.txId) + r1;
  }

  // --------------------------------------------------------- entries in the file

  /** entry_len(4) + payload + crc(4), as Append writes it. */
  function EntryBytes(h: Hashes, e: IndexEntry): (r: Bytes)
    requires FieldsFit(e)
    ensures |r| == 8 + |EncodeEntry(e)|
  {
    var payload := EncodeEntry(e);
    LE(|payload|, 4) + (payload + LE(h.crc(payload), 4))
  }

  /** Torn is corruption that repair may cut away: some read met the end of the
      file after at least one byte.  A read that meets it at once is Corrupt. */
  datatype Next = NoMore | Got(entry: IndexEntry, size: nat) | Torn | Corrupt

  function AfterPayload(h: Hashes, payload: Bytes, rest: Bytes): (r: Next)
  {
    if |rest| < 4 then (if rest == [] then Corrupt else Torn)
    else if h.crc(payload) != Uint32(rest[..4]) then Corrupt
    else match DecodeEntry(payload)
         case None => Corrupt
         case Some(e) => Got(e, 8 + |payload|)
  }

  /** readNextEntry on the bytes at the cursor. */
  function ReadNext(h: Hashes, rest: Bytes): (r: Next)
    ensures r.Got? ==> 8 <= r.size <= |rest|
  {
    if rest == [] then NoMore
    else if |rest| < 4 then Torn
    else
      var n := Uint32(rest[..4]);
      var body := rest[4..];
      if n > MAX_ENTRY then (if n + 4 > |body| then Torn else Corrupt)
      else if n > |body| then (if body == [] then Corrupt else Torn)
      else AfterPayload(h, body[..n], body[n..])
  }

  lemma EntryPrefix(h: Hashes, e: IndexEntry, tail: Bytes)
    requires FieldsFit(e)
    ensures var rest := EntryBytes(h, e) + tail;
            && |rest| >= 8 && Uint32(rest[..4]) == |EncodeEntry(e)|
            && rest[4..] == EncodeEntry(e) + (LE(h.crc(EncodeEntry(e)), 4) + tail)
  {
    hide EncodeEntry, LE, FromLE;
    var payload := EncodeEntry(e);
    LE4(|payload|);
    var rest := EntryBytes(h, e) + tail;
    assert rest[..4] == LE(|payload|, 4);
  }

  /** An appended entry is read back, whatever follows it, exactly when its
      payload is within the reader's limit; the per-field checks of Append alone
      admit larger ones. */
  lemma ReadAppended(h: Hashes, e: IndexEntry, tail: Bytes)
    requires FieldsFit(e)
    ensures ReadNext(h, EntryBytes(h, e) + tail)
            == if |EncodeEntry(e)| <= MAX_ENTRY then Got(e, |EntryBytes(h, e)|) else Corrupt
  {
    hide EncodeEntry, DecodeEntry, LE, FromLE;
    var payload := EncodeEntry(e);
    var crc := LE(h.crc(payload), 4);
    EntryPrefix(h, e, tail);
    var body := payload + (crc + tail);
    assert body[..|payload|] == payload && body[|payload|..] == crc + tail;
    LE4(h.crc(payload));
    assert (crc + tail)[..4] == crc;
    EntryRoundTrip(e);
  }

  /** Fields that fit do not make an entry readable. */
  lemma OversizedEntryExists(h: Hashes)
    ensures exists e: IndexEntry :: FieldsFit(e) && ReadNext(h, EntryBytes(h, e)) == Corrupt
  {
    var big: Bytes := seq(65535, _ => 0);
    var e := IndexEntry(big, big, [], 0, 0, 0, 0, ZERO_DIGEST, []);
    ReadAppended(h, e, []);
    assert EntryBytes(h, e) + [] == EntryBytes(h, e);
  }

  /** The two tears that read as plain corruption: exactly behind the length
      and exactly behind the payload. */
  predicate TornAtBoundary(e: IndexEntry, k: nat)
  {
    k == 4 || k == 4 + |EncodeEntry(e)|
  }

  /** How an entry cut after k bytes reads.  An oversized one is torn at every cut, boundary or not. */
  lemma ReadTorn(h: Hashes, e: IndexEntry, k: nat)
    requires FieldsFit(e) && k < |EntryBytes(h, e)|
    ensures ReadNext(h, EntryBytes(h, e)[..k])
            == if k == 0 then NoMore else if |EncodeEntry(e)| <= MAX_ENTRY && TornAtBoundary(e, k) then Corrupt else Torn
  {
    hide EncodeEntry, DecodeEntry, LE, FromLE;
    var payload := EncodeEntry(e);
    var all := EntryBytes(h, e);
    EntryPrefix(h, e, []);
    assert all + [] == all;
    var rest := all[..k];
    assert |payload| >= 68;
    if k >= 4 {
      assert rest[..4] == all[..4];
      assert rest[4..] == all[4..][..k - 4];
    }
  }

  // ------------------------------------------------------- whole files and repair

  /** An entry the reader accepts once appended. */
  predicate Readable(e: IndexEntry) { FieldsFit(e) && |EncodeEntry(e)| <= MAX_ENTRY }

  predicate AllFit(es: seq<IndexEntry>) { forall e :: e in es ==> FieldsFit(e) }

  predicate AllReadable(es: seq<IndexEntry>) { forall e :: e in es ==> Readable(e) }

  function EntriesBytes(h: Hashes, es: seq<IndexEntry>): (r: Bytes)
    requires AllFit(es)
  {
    if es == [] then [] else EntryBytes(h, es[0]) + EntriesBytes(h, es[1..])
  }

  lemma {:induction false} EntriesSnoc(h: Hashes, es: seq<IndexEntry>, e: IndexEntry)
    requires AllFit(es) && FieldsFit(e)
    ensures AllFit(es + [e]) && EntriesBytes(h, es + [e]) == EntriesBytes(h, es) + EntryBytes(h, e)
    decreases |es|
  {
    hide EntryBytes, FieldsFit, EntriesBytes, AllFit;
    FitParts(es, e);
    if es == [] {
      EntriesCons(h, e, []);
      assert es + [e] == [e] + [];
    } else {
      EntriesSnoc(h, es[1..], e);
      EntriesCons(h, es[0], es[1..]);
      EntriesCons(h, es[0], es[1..] + [e]);
      assert es == [es[0]] + es[1..] && es + [e] == [es[0]] + (es[1..] + [e]);
    }
  }

  lemma FitParts(es: seq<IndexEntry>, e: IndexEntry)
    requires AllFit(es) && FieldsFit(e)
    ensures AllFit([]) && AllFit(es + [e]) && (es != [] ==> FieldsFit(es[0]) && AllFit(es[1..]))
  {
    hide FieldsFit;
  }

  lemma EntriesCons(h: Hashes, e: IndexEntry, es: seq<IndexEntry>)
    requires FieldsFit(e) && AllFit(es)
    ensures AllFit([e] + es) && EntriesBytes(h, [e] + es) == EntryBytes(h, e) + EntriesBytes(h, es)
    ensures EntriesBytes(h, []) == []
  {
    hide EntryBytes, FieldsFit;
    assert ([e] + es)[1..] == es;
  }

  /** readIndexEntries behind the header: all entries, or nothing on any error. */
  function ReadEntries(h: Hashes, rest: Bytes): (r: Option<seq<IndexEntry>>)
    decreases |rest|
  {
    match ReadNext(h, rest)
    case NoMore => Some([])
    case Got(e, size) => Prepend([e], ReadEntries(h, rest[size..]))
    case _ => None
  }

  datatype Repaired = Keep(size: nat) | Unrepairable

  /** repairIndexTail: how many bytes behind the header survive. */
  function Repair(h: Hashes, rest: Bytes): (r: Repaired)
    ensures r.Keep? ==> r.size <= |rest|
    decreases |rest|
  {
    match ReadNext(h, rest)
    case NoMore => Keep(0)
    case Torn => Keep(0)
    case Corrupt => Unrepairable
    case Got(_, size) =>
      (match Repair(h, rest[size..])
       case Unrepairable => Unrepairable
       case Keep(n) => Keep(size + n))
  }

  function Shift(n: nat, r: Repaired): Repaired
  {
    match r case Keep(m) => Keep(n + m) case Unrepairable => Unrepairable
  }

  /** Valid entries are passed over, both by the reader and by the repair. */
  lemma {:induction false} PassOver(h: Hashes, es: seq<IndexEntry>, tail: Bytes)
    requires AllReadable(es)
    ensures Repair(h, EntriesBytes(h, es) + tail) == Shift(|EntriesBytes(h, es)|, Repair(h, tail))
    ensures ReadEntries(h, EntriesBytes(h, es) + tail)
            == Prepend(es, ReadEntries(h, tail))
    decreases |es|
  {
    hide EntryBytes, ReadNext, EncodeEntry, Prepend;
    if es == [] {
      assert EntriesBytes(h, es) + tail == tail;
      PrependMore([], [], ReadEntries(h, tail));
    } else {
      assert Readable(es[0]) && AllReadable(es[1..]) && AllFit(es[1..]);
      var first, more := EntryBytes(h, es[0]), EntriesBytes(h, es[1..]);
      assert (first + more) + tail == first + (more + tail);
      assert (first + (more + tail))[|first|..] == more + tail;
      ReadAppended(h, es[0], more + tail);
      PassOver(h, es[1..], tail);
      PrependMore([es[0]], es[1..], ReadEntries(h, tail));
      assert [es[0]] + es[1..] == es;
    }
  }

  /** Repair of any entries the writer accepts, followed by the first k bytes of another one.  An
      oversized entry among the complete ones makes it refuse.  Otherwise it restores exactly the
      complete entries for every k, except for the two boundary tears of a readable entry and for
      a complete oversized one, which it refuses. */
  lemma RepairTornTail(h: Hashes, es: seq<IndexEntry>, e: IndexEntry, k: nat)
    requires AllFit(es) && FieldsFit(e) && k <= |EntryBytes(h, e)|
    ensures Repair(h, EntriesBytes(h, es) + EntryBytes(h, e)[..k])
            == if !AllReadable(es) then Unrepairable
               else if k == |EntryBytes(h, e)| then
                 if Readable(e) then Keep(|EntriesBytes(h, es)| + k) else Unrepairable
               else if Readable(e) && TornAtBoundary(e, k) then Unrepairable
               else Keep(|EntriesBytes(h, es)|)
  {
    hide EntryBytes, ReadNext, EncodeEntry, EntriesBytes;
    var torn := EntryBytes(h, e)[..k];
    if !AllReadable(es) {
      RefusesOversized(h, es, torn);
    } else {
      PassOver(h, es, torn);
      if k == |EntryBytes(h, e)| {
        ReadAppended(h, e, []);
        assert torn == EntryBytes(h, e) + [];
        ReadNothing(h);
        assert torn[k..] == [];
      } else {
        ReadTorn(h, e, k);
      }
    }
  }

  lemma {:induction false} RefusesOversized(h: Hashes, es: seq<IndexEntry>, tail: Bytes)
    requires AllFit(es) && !AllReadable(es)
    ensures Repair(h, EntriesBytes(h, es) + tail) == Unrepairable
    decreases |es|
  {
    hide EntryBytes, ReadNext, EncodeEntry;
    var first, more := EntryBytes(h, es[0]), EntriesBytes(h, es[1..]);
    assert (first + more) + tail == first + (more + tail);
    ReadAppended(h, es[0], more + tail);
    if Readable(es[0]) {
      assert (first + (more + tail))[|first|..] == more + tail;
      assert es == [es[0]] + es[1..];
      RefusesOversized(h, es[1..], tail);
    }
  }

  lemma ReadNothing(h: Hashes)
    ensures ReadNext(h, []) == NoMore
  {
  }

  /** One oversized entry makes the whole index unreadable: the exact condition. */
  lemma {:induction false} ReadWrittenIff(h: Hashes, es: seq<IndexEntry>)
    requires AllFit(es)
    ensures ReadEntries(h, EntriesBytes(h, es)) == Some(es) <==> AllReadable(es)
    ensures !AllReadable(es) ==> ReadEntries(h, EntriesBytes(h, es)) == None
    decreases |es|
  {
    hide EntryBytes, ReadNext, EncodeEntry;
    if es == [] {
      ReadNothing(h);
    } else {
      var first, more := EntryBytes(h, es[0]), EntriesBytes(h, es[1..]);
      ReadAppended(h, es[0], more);
      assert (first + more)[|first|..] == more;
      ReadWrittenIff(h, es[1..]);
      assert [es[0]] + es[1..] == es;
      if AllReadable(es) { assert AllReadable(es[1..]); }
      if Readable(es[0]) && AllReadable(es[1..]) {
        assert forall e :: e in es ==> e == es[0] || e in es[1..];
      }
    }
  }

  // ------------------------------------------------------------------- the file

  const INDEX_MAGIC: Bytes := [0x53, 0x49, 0x44, 0x58]

  function IndexHeader(h: Hashes): (r: Bytes)
    ensures |r| == INDEX_HEADER_SIZE
  {
    var prefix := INDEX_MAGIC + LE(1, 2) + LE(INDEX_HEADER_SIZE, 2);
    prefix + LE(h.crc(prefix), 4)
  }

  predicate IndexHeaderAccepted(h: Hashes, hdr: Bytes)
  {
    |hdr| >= INDEX_HEADER_SIZE && hdr[..4] == INDEX_MAGIC && h.crc(hdr[..8]) == Uint32(hdr[8..12])
  }

  function IndexBytes(h: Hashes, es: seq<IndexEntry>): Bytes
    requires AllFit(es)
  {
    IndexHeader(h) + EntriesBytes(h, es)
  }

  /** OpenIndexReader on the contents of a file. */
  function ReadIndex(h: Hashes, data: Bytes): (r: Option<seq<IndexEntry>>)
  {
    if !IndexHeaderAccepted(h, data) then None else ReadEntries(h, data[INDEX_HEADER_SIZE..])
  }

  lemma HeaderWritten(h: Hashes, tail: Bytes)
    ensures IndexHeaderAccepted(h, IndexHeader(h) + tail)
    ensures (IndexHeader(h) + tail)[INDEX_HEADER_SIZE..] == tail
  {
    hide LE, FromLE;
    var prefix := INDEX_MAGIC + LE(1, 2) + LE(INDEX_HEADER_SIZE, 2);
    LE4(h.crc(prefix));
    var d := IndexHeader(h) + tail;
    assert d[..8] == prefix && d[8..12] == LE(h.crc(prefix), 4);
    assert d[..4] == INDEX_MAGIC;
  }

  /** An index file reads back as its entries exactly when all of them are readable. */
  lemma IndexRoundTrip(h: Hashes, es: seq<IndexEntry>)
    requires AllFit(es)
    ensures ReadIndex(h, IndexBytes(h, es)) == if AllReadable(es) then Some(es) else None
  {
    hide EntriesBytes, IndexHeader, IndexHeaderAccepted, ReadEntries, EncodeEntry;
    HeaderWritten(h, EntriesBytes(h, es));
    ReadWrittenIff(h, es);
  }

  method ValidateIndexHeader(h: Hashes, f: File) returns (ok: bool)
    requires f.pos == 0
    modifies f`pos
    ensures ok == IndexHeaderAccepted(h, f.data)
    ensures ok ==> f.pos == INDEX_HEADER_SIZE
  {
    hide FromLE;
    var hdr, err := f.ReadFull(INDEX_HEADER_SIZE);
    ghost var d := f.data;
    assert |d| >= INDEX_HEADER_SIZE ==> hdr[..4] == d[..4] && hdr[..8] == d[..8] && hdr[8..12] == d[8..12];
    ok := err == NoError && hdr[..4] == INDEX_MAGIC && h.crc(hdr[..8]) == Uint32(hdr[8..12]);
  }

  method ReadNextEntry(h: Hashes, f: File) returns (r: Next)
    modifies f`pos
    ensures r == ReadNext(h, old(f.Rest()))
    ensures r.Got? ==> f.pos == old(f.pos) + r.size && f.Rest() == old(f.Rest())[r.size..]
  {
    hide DecodeEntry, FromLE;
    ghost var rest := f.Rest();
    var lenBuf, err := f.ReadFull(4);
    if err == Eof {
      return NoMore;
    }
    if err != NoError {
      return Torn;
    }
    assert lenBuf == rest[..4] && f.Rest() == rest[4..];
    var n := Uint32(lenBuf);
    if n > MAX_ENTRY {
      return if n + 4 > |f.data| - f.pos then Torn else Corrupt;
    }
    var payload: Bytes;
    payload, err := f.ReadFull(n);
    if err != NoError {
      return if err == UnexpectedEof then Torn else Corrupt;
    }
    assert payload == rest[4..][..n] && f.Rest() == rest[4..][n..];
    var crcBuf: Bytes;
    crcBuf, err := f.ReadFull(4);
    if err != NoError {
      return if err == UnexpectedEof then Torn else Corrupt;
    }
    if h.crc(payload) != Uint32(crcBuf) {
      return Corrupt;
    }
    match DecodeEntry(payload) {
      case None => return Corrupt;
      case Some(e) =>
        assert f.Rest() == rest[8 + n..];
        return Got(e, 8 + n);
    }
  }

  datatype RepairOutcome = RepairDone | RepairRefused | RepairIoFailed

  /** Scans the entries and cuts a torn one off at the last valid end. */
  method RepairIndexTail(h: Hashes, f: File) returns (r: RepairOutcome)
    requires f.pos == 0
    modifies f
    ensures f.healthy ==> r != RepairIoFailed
    ensures r == RepairRefused ==> f.data == old(f.data)
    ensures r == RepairRefused <==>
              !IndexHeaderAccepted(h, old(f.data)) || Repair(h, old(f.data)[INDEX_HEADER_SIZE..]).Unrepairable?
    ensures r == RepairDone ==>
              f.data == old(f.data)[..INDEX_HEADER_SIZE + Repair(h, old(f.data)[INDEX_HEADER_SIZE..]).size]
  {
    hide ReadNext, IndexHeaderAccepted;
    HeaderNeedsBytes(h, f.data);
    var ok := ValidateIndexHeader(h, f);
    if !ok {
      return RepairRefused;
    }
    ghost var all := f.data[INDEX_HEADER_SIZE..];
    assert f.Rest() == all;
    while true
      invariant f.data == old(f.data) && INDEX_HEADER_SIZE <= f.pos <= |f.data|
      invariant Repair(h, all) == Shift(f.pos - INDEX_HEADER_SIZE, Repair(h, f.Rest()))
      decreases |f.data| - f.pos
    {
      var validEnd := f.pos;
      ghost var rest := f.Rest();
      var next := ReadNextEntry(h, f);
      match next {
        case NoMore =>
          NoMoreIsEmpty(h, rest);
          assert f.data == f.data[..validEnd];
          return RepairDone;
        case Got(_, size) =>
        case Corrupt => return RepairRefused;
        case Torn =>
          ok := f.Truncate(validEnd);
          if !ok {
            return RepairIoFailed;
          }
          ok := f.Sync();
          return if ok then RepairDone else RepairIoFailed;
      }
    }
  }

  lemma HeaderNeedsBytes(h: Hashes, d: Bytes)
    ensures IndexHeaderAccepted(h, d) ==> |d| >= INDEX_HEADER_SIZE
  {
  }

  lemma NoMoreIsEmpty(h: Hashes, rest: Bytes)
    requires ReadNext(h, rest) == NoMore
    ensures rest == []
  {
    hide DecodeEntry, FromLE;
  }

  /** loadIdxEntries: opens the index and reads all entries. */
  method ReadIndexEntries(h: Hashes, f: File) returns (r: Option<seq<IndexEntry>>)
    requires f.pos == 0
    modifies f`pos
    ensures r == ReadIndex(h, f.data)
  {
    hide ReadNext, IndexHeaderAccepted;
    HeaderNeedsBytes(h, f.data);
    var ok := ValidateIndexHeader(h, f);
    if !ok {
      return None;
    }
    var entries: seq<IndexEntry> := [];
    ghost var all := f.Rest();
    PrependMore([], [], ReadEntries(h, all));
    while true
      invariant ReadEntries(h, all) == Prepend(entries, ReadEntries(h, f.Rest()))
      decreases |f.Rest()|
    {
      ghost var rest := f.Rest();
      var next := ReadNextEntry(h, f);
      match next {
        case NoMore =>
          assert entries + [] == entries;
          return Some(entries);
        case Got(e, size) =>
          PrependMore(entries, [e], ReadEntries(h, f.Rest()));
          entries := entries + [e];
        case _ => return None;
      }
    }
  }

  /** Appends one entry in three writes; a refused write leaves a prefix of it. */
  method AppendEntry(h: Hashes, f: File, e: IndexEntry) returns (ok: bool)
    requires f.pos == |f.data|
    modifies f
    ensures f.pos == |f.data|
    ensures !FieldsFit(e) ==> !ok && f.data == old(f.data)
    ensures FieldsFit(e) ==>
              && (exists k :: 0 <= k <= |EntryBytes(h, e)| && f.data == old(f.data) + EntryBytes(h, e)[..k])
              && (ok ==> f.data == old(f.data) + EntryBytes(h, e))
              && (f.healthy ==> ok)
  {
    hide EncodeEntry;
    if !FieldsFit(e) {
      return false;
    }
    var payload := EncodeEntry(e);
    ghost var all := EntryBytes(h, e);
    var lenBuf, crcBuf := LE(|payload|, 4), LE(h.crc(payload), 4);
    ghost var d0 := f.data;
    assert all[..4] == lenBuf && all[4..4 + |payload|] == payload && all[4 + |payload|..] == crcBuf;
    assert all[..0] == [] && d0 + [] == d0;
    ok := AppendPiece(f, d0, all, 0, lenBuf);
    if ok {
      ok := AppendPiece(f, d0, all, 4, payload);
      if ok {
        ok := AppendPiece(f, d0, all, 4 + |payload|, crcBuf);
        assert all[..|all|] == all;
        if ok {
          ok := f.Sync();
        }
      }
    }
  }

  method AppendPiece(f: File, ghost d0: Bytes, ghost all: Bytes, ghost at: nat, piece: Bytes) returns (ok: bool)
    requires f.pos == |f.data| && at + |piece| <= |all| && all[at..at + |piece|] == piece && f.data == d0 + all[..at]
    modifies f
    ensures f.pos == |f.data|
    ensures exists k :: at <= k <= at + |piece| && f.data == d0 + all[..k]
    ensures ok ==> f.data == d0 + all[..at + |piece|]
    ensures f.healthy ==> ok
  {
    ghost var before := f.data;
    ok := f.Write(piece);
    ghost var n :| 0 <= n <= |piece| && (ok ==> n == |piece|) && f.pos == |before| + n
                   && f.data == Splice(before, |before|, piece[..n]);
    assert f.data == before + piece[..n];
    TakeMore(all, at, piece, n);
    assert f.data == d0 + all[..at + n];
  }

  lemma TakeMore(all: Bytes, at: nat, piece: Bytes, n: nat)
    requires at + |piece| <= |all| && all[at..at + |piece|] == piece && n <= |piece|
    ensures all[..at + n] == all[..at] + piece[..n]
  {
    assert piece[..n] == all[at..at + n];
  }

  // -------------------------------------------------------- envelope replacement

  datatype ReplaceOutcome = Replaced(entry: IndexEntry) | Unchanged(entry: IndexEntry) | DocNotFound | ReplaceFailed

  predicate Names(e: IndexEntry, txId: Bytes, docName: Bytes) { e.txId == txId && e.docName == docName }

  /** Position of the first entry for a document, or the number of entries. */
  function FirstNamed(es: seq<IndexEntry>, txId: Bytes, docName: Bytes): (i: nat)
    ensures i <= |es|
    ensures i < |es| ==> Names(es[i], txId, docName)
    ensures forall j :: 0 <= j < i ==> !Names(es[j], txId, docName)
  {
    if es == [] || Names(es[0], txId, docName) then 0 else 1 + FirstNamed(es[1..], txId, docName)
  }

  /** Writes a complete new index next to the old one, renames it into place and syncs the
      directory.  The file holds the new entries exactly when the rename went through, which
      a failure of the sync behind it reports as an error all the same. */
  method ReplaceDocumentEnvelope(h: Hashes, f: File, txId: Bytes, docName: Bytes, envelope: Bytes)
    returns (r: ReplaceOutcome, renamed: bool, synced: bool)
    requires f.pos == 0
    modifies f
    ensures ReadIndex(h, old(f.data)) == None ==> r == ReplaceFailed
    ensures ReadIndex(h, old(f.data)).Some? ==>
              var es := ReadIndex(h, old(f.data)).value;
              var i := FirstNamed(es, txId, docName);
              && (r == DocNotFound <==> i == |es|)
              && (r.Unchanged? <==> i < |es| && es[i].envelope == envelope)
              && (r.Unchanged? ==> r.entry == es[i])
              && (r.Replaced? ==> renamed && i < |es| && r.entry == es[i].(envelope := envelope))
              && (renamed ==>
                    && i < |es| && es[i].envelope != envelope && AllFit(es[i := es[i].(envelope := envelope)])
                    && f.data == IndexBytes(h, es[i := es[i].(envelope := envelope)]))
              && (f.healthy && i < |es| && es[i].envelope != envelope && AllFit(es[i := es[i].(envelope := envelope)])
                  ==> r.Replaced?)
    ensures !renamed ==> f.data == old(f.data)
    ensures r.Replaced? <==> renamed && synced
    ensures renamed && !synced ==> r == ReplaceFailed
  {
    hide ReadIndex, EntryBytes, EntriesBytes, IndexHeader;
    renamed, synced := false, false;
    var loaded := ReadIndexEntries(h, f);
    if loaded == None {
      return ReplaceFailed, false, false;
    }
    var es := loaded.value;
    var i := 0;
    while i < |es| && !Names(es[i], txId, docName)
      invariant i <= FirstNamed(es, txId, docName)
    {
      i := i + 1;
    }
    assert i == FirstNamed(es, txId, docName);
    if i == |es| {
      return DocNotFound, false, false;
    }
    if es[i].envelope == envelope {
      return Unchanged(es[i]), false, false;
    }
    es := es[i := es[i].(envelope := envelope)];
    var ok, contents := WriteIndex(h, es, f.healthy);
    if !ok {
      return ReplaceFailed, false, false;
    }
    renamed :| f.healthy ==> renamed;
    if !renamed {
      return ReplaceFailed, false, false;
    }
    f.data := contents;
    synced :| f.healthy ==> synced;
    r := if synced then Replaced(es[i]) else ReplaceFailed;
  }

  lemma EmptyIndex(h: Hashes)
    ensures IndexBytes(h, []) == IndexHeader(h)
  {
    hide IndexHeader;
  }

  lemma IndexSnoc(h: Hashes, es: seq<IndexEntry>, e: IndexEntry)
    requires AllFit(es) && FieldsFit(e)
    ensures AllFit(es + [e]) && IndexBytes(h, es + [e]) == IndexBytes(h, es) + EntryBytes(h, e)
  {
    hide EntryBytes, IndexHeader, FieldsFit, EntriesBytes;
    EntriesSnoc(h, es, e);
  }

  /** A fresh index file holding just the header; null when the device refuses it. */
  method NewIndexWriter(h: Hashes, healthy: bool) returns (f: File?)
    ensures healthy ==> f != null
    ensures f != null ==> fresh(f) && f.healthy == healthy && f.data == IndexHeader(h) && f.pos == |f.data|
  {
    hide IndexHeader;
    var header := IndexHeader(h);
    f := new File([], healthy);
    var ok := f.Write(header);
    assert header[..|header|] == header;
    if !ok {
      f := null;
    }
  }

  method AppendToIndex(h: Hashes, f: File, ghost es: seq<IndexEntry>, e: IndexEntry) returns (ok: bool)
    requires AllFit(es) && f.data == IndexBytes(h, es) && f.pos == |f.data|
    modifies f
    ensures f.pos == |f.data|
    ensures ok ==> AllFit(es + [e]) && f.data == IndexBytes(h, es + [e])
    ensures f.healthy && FieldsFit(e) ==> ok
  {
    hide EntryBytes, IndexBytes;
    if FieldsFit(e) {
      IndexSnoc(h, es, e);
    }
    ok := AppendEntry(h, f, e);
  }

  /** rewriteIndexEntries up to the rename: the contents of the temporary file. */
  method WriteIndex(h: Hashes, es: seq<IndexEntry>, healthy: bool) returns (ok: bool, contents: Bytes)
    ensures ok ==> AllFit(es) && contents == IndexBytes(h, es)
    ensures healthy && AllFit(es) ==> ok
  {
    hide EntryBytes, IndexBytes, FieldsFit, IndexHeader;
    var tmp := NewIndexWriter(h, healthy);
    if tmp == null {
      return false, [];
    }
    EmptyIndex(h);
    assert es[..0] == [];
    for i := 0 to |es|
      invariant tmp.healthy == healthy && tmp.pos == |tmp.data|
      invariant AllFit(es[..i]) && tmp.data == IndexBytes(h, es[..i])
    {
      ok := AppendToIndex(h, tmp, es[..i], es[i]);
      if !ok {
        return false, [];
      }
      assert es[..i + 1] == es[..i] + [es[i]];
    }
    assert es[..|es|] == es;
    ok := tmp.Sync();
    contents := tmp.data;
  }

  /** After a replacement the index reads back as the old entries with just that
      envelope exchanged, exactly when the new entry is within the reader's limit;
      otherwise the whole index has become unreadable. */
  lemma ReplacedReadsBack(h: Hashes, es: seq<IndexEntry>, i: nat, envelope: Bytes)
    requires AllReadable(es) && i < |es| && AllFit(es[i := es[i].(envelope := envelope)])
    ensures var es' := es[i := es[i].(envelope := envelope)];
            ReadIndex(h, IndexBytes(h, es'))
            == if |EncodeEntry(es'[i])| <= MAX_ENTRY then Some(es') else None
  {
    hide ReadIndex, IndexBytes, EncodeEntry;
    var es' := es[i := es[i].(envelope := envelope)];
    IndexRoundTrip(h, es');
    assert forall j :: 0 <= j < |es'| && j != i ==> Readable(es'[j]) by {
      assert forall j :: 0 <= j < |es| ==> es[j] in es;
    }
    assert es'[i] in es' && FieldsFit(es'[i]);
  }
}
