/** What a well-formed Block file is: the 40-byte header followed by the frames
    of documents 0, 1, 2, ... in order; and what the recovery scan makes of it. */
module Layout {
  import opened Bytes
  import opened Frame

  const BLOCK_HEADER_SIZE := 40

  /** A stored document: its frame payloads, at least one. */
  predicate Fits(ps: seq<Bytes>) { forall p :: p in ps ==> |p| <= MAX_FRAME_PAYLOAD }

  predicate IsDoc(ps: seq<Bytes>) { ps != [] && Fits(ps) }

  predicate AreDocs(docs: seq<seq<Bytes>>) { forall d :: d in docs ==> IsDoc(d) }

  // ---------------------------------------------------------------- the header

  const BLOCK_MAGIC: Bytes := [0x53, 0x43, 0x52, 0x50]

  function BlockHeaderPrefix(shardId: uint64, blockId: uint64, createdUs: int64): (s: Bytes)
    ensures |s| == 36
  {
    (BLOCK_MAGIC + LE(1, 2) + LE(BLOCK_HEADER_SIZE, 2))
    + LE(shardId, 8) + LE(blockId, 8) + LE(ToUint64(createdUs), 8) + [0, 0, 0, 0]
  }

  function BlockHeader(h: Hashes, shardId: uint64, blockId: uint64, createdUs: int64): (s: Bytes)
    ensures |s| == BLOCK_HEADER_SIZE
  {
    var prefix := BlockHeaderPrefix(shardId, blockId, createdUs);
    prefix + LE(h.crc(prefix), 4)
  }

  /** VerifyHeader: structure, identity and checksum. */
  predicate HeaderAccepted(h: Hashes, data: Bytes, shardId: uint64, blockId: uint64)
  {
    && |data| >= BLOCK_HEADER_SIZE
    && data[..4] == BLOCK_MAGIC
    && Uint16(data[4..6]) == 1
    && Uint16(data[6..8]) == BLOCK_HEADER_SIZE
    && Uint64(data[8..16]) == shardId
    && Uint64(data[16..24]) == blockId
    && Uint32(data[36..40]) == h.crc(data[..36])
  }

  /** The deep verifier's weaker header check: magic and checksum only. */
  predicate HeaderIntact(h: Hashes, data: Bytes)
  {
    && |data| >= BLOCK_HEADER_SIZE
    && data[..4] == BLOCK_MAGIC
    && Uint32(data[36..40]) == h.crc(data[..36])
  }

  lemma HeaderFields(s: uint64, b: uint64, createdUs: int64)
    ensures var p := BlockHeaderPrefix(s, b, createdUs);
            && p[..4] == BLOCK_MAGIC && p[4..6] == LE(1, 2) && p[6..8] == LE(BLOCK_HEADER_SIZE, 2)
            && p[8..16] == LE(s, 8) && p[16..24] == LE(b, 8)
  {
    hide LE, ToUint64;
    var p8 := BLOCK_MAGIC + LE(1, 2) + LE(BLOCK_HEADER_SIZE, 2);
    assert BlockHeaderPrefix(s, b, createdUs)[..8] == p8;
  }

  /** A written header is accepted for exactly the identity it was written with. */
  lemma HeaderIdentity(h: Hashes, s: uint64, b: uint64, createdUs: int64, tail: Bytes, s': uint64, b': uint64)
    ensures HeaderAccepted(h, BlockHeader(h, s, b, createdUs) + tail, s', b') <==> s == s' && b == b'
    ensures HeaderIntact(h, BlockHeader(h, s, b, createdUs) + tail)
  {
    hide BlockHeaderPrefix, LE, FromLE;
    HeaderFields(s, b, createdUs);
    var p := BlockHeaderPrefix(s, b, createdUs);
    var d := BlockHeader(h, s, b, createdUs) + tail;
    assert d == p + LE(h.crc(p), 4) + tail;
    assert d[..36] == p && d[36..40] == LE(h.crc(p), 4);
    assert d[..4] == p[..4] && d[4..6] == p[4..6] && d[6..8] == p[6..8];
    assert d[8..16] == p[8..16] && d[16..24] == p[16..24];
    LE2(1);
    LE2(BLOCK_HEADER_SIZE);
    LE8(s);
    LE8(b);
    LE4(h.crc(p));
  }

  // ---------------------------------------------------------------- the frames

  /** Frame number `index` of a document. */
  function OneFrame(h: Hashes, docSeq: uint32, index: nat, payload: Bytes, last: bool): (s: Bytes)
    requires |payload| <= MAX_FRAME_PAYLOAD
    ensures |s| == FRAME_HEADER_SIZE + |payload|
  {
    FrameBytes(h, FrameFlags(Wrap32(index), last), docSeq, Wrap32(index), payload)
  }

  /** Consecutive frames base, base + 1, ...; when closed, the final one is flagged last. */
  function RunBytes(h: Hashes, docSeq: uint32, ps: seq<Bytes>, closed: bool, base: nat): (s: Bytes)
    requires Fits(ps)
    ensures |s| == RunSize(ps)
  {
    if ps == [] then []
    else OneFrame(h, docSeq, base, ps[0], closed && |ps| == 1) + RunBytes(h, docSeq, ps[1..], closed, base + 1)
  }

  function RunSize(ps: seq<Bytes>): (n: nat)
    ensures n >= FRAME_HEADER_SIZE * |ps|
  {
    if ps == [] then 0 else FRAME_HEADER_SIZE + |ps[0]| + RunSize(ps[1..])
  }

  function DocBytes(h: Hashes, docSeq: uint32, ps: seq<Bytes>): (s: Bytes)
    requires IsDoc(ps)
    ensures |s| == RunSize(ps)
  {
    RunBytes(h, docSeq, ps, true, 0)
  }

  function DocsBytes(h: Hashes, docs: seq<seq<Bytes>>, base: nat): (s: Bytes)
    requires AreDocs(docs)
  {
    if docs == [] then []
    else DocBytes(h, Wrap32(base), docs[0]) + DocsBytes(h, docs[1..], base + 1)
  }

  /** The writer emits frames at the end; the scan consumes them at the front. */
  lemma {:induction false} RunSnoc(h: Hashes, docSeq: uint32, ps: seq<Bytes>, p: Bytes, closed: bool, base: nat)
    requires Fits(ps) && |p| <= MAX_FRAME_PAYLOAD
    ensures Fits(ps + [p])
    ensures RunBytes(h, docSeq, ps + [p], closed, base)
            == RunBytes(h, docSeq, ps, false, base) + OneFrame(h, docSeq, base + |ps|, p, closed)
    decreases |ps|
  {
    hide OneFrame;
    if ps == [] {
      assert ([p])[1..] == [];
    } else {
      var tail := ps[1..];
      assert (ps + [p])[1..] == tail + [p];
      RunSnoc(h, docSeq, tail, p, closed, base + 1);
    }
  }

  lemma {:induction false} DocsSnoc(h: Hashes, docs: seq<seq<Bytes>>, d: seq<Bytes>, base: nat)
    requires AreDocs(docs) && IsDoc(d)
    ensures AreDocs(docs + [d])
    ensures DocsBytes(h, docs + [d], base) == DocsBytes(h, docs, base) + DocBytes(h, Wrap32(base + |docs|), d)
    decreases |docs|
  {
    hide DocBytes;
    if docs == [] {
      assert ([d])[1..] == [];
    } else {
      assert (docs + [d])[1..] == docs[1..] + [d];
      DocsSnoc(h, docs[1..], d, base + 1);
    }
  }

  lemma {:induction false} DocsSplit(h: Hashes, docs: seq<seq<Bytes>>, i: nat, base: nat)
    requires AreDocs(docs) && i <= |docs|
    ensures DocsBytes(h, docs, base) == DocsBytes(h, docs[..i], base) + DocsBytes(h, docs[i..], base + i)
    decreases i
  {
    hide DocBytes, IsDoc, Wrap32;
    if i == 0 {
      assert docs[..0] == [] && docs[0..] == docs;
    } else {
      DocsSplit(h, docs[1..], i - 1, base + 1);
      assert docs[..i][1..] == docs[1..][..i - 1] && docs[i..] == docs[1..][i - 1..];
      assert docs[..i][0] == docs[0];
    }
  }

  // ---------------------------------------------------------- the recovery scan

  datatype ScanState = ScanState(offset: nat, docSeq: uint32, frameSeq: uint32, docCount: uint32)

  datatype ScanError = IncompleteDocument | UnreadableFrame(error: FrameError) | OutOfSequence

  datatype ScanResult = Recovered(offset: nat, docSeq: uint32, docCount: uint32) | Rejected(why: ScanError)

  const SCAN_START := ScanState(BLOCK_HEADER_SIZE, 0, 0, 0)

  predicate InSequence(hdr: FrameHeader, st: ScanState)
  {
    hdr.docSeq == st.docSeq && hdr.frameSeq == st.frameSeq
    && hdr.flags == FrameFlags(st.frameSeq, IsLast(hdr.flags))
  }

  function AfterFrame(st: ScanState, last: bool, payloadLen: nat): ScanState
  {
    var offset := st.offset + FRAME_HEADER_SIZE + payloadLen;
    if last then ScanState(offset, Wrap32(st.docSeq + 1), 0, Wrap32(st.docCount + 1))
    else ScanState(offset, st.docSeq, Wrap32(st.frameSeq + 1), st.docCount)
  }

  /** scanWriterState from state st over the remaining bytes. */
  function Scan(h: Hashes, rest: Bytes, st: ScanState): (r: ScanResult)
    decreases |rest|
  {
    match ParseFrame(h, rest)
    case Failed(AtEof) =>
      if st.frameSeq != 0 then Rejected(IncompleteDocument)
      else Recovered(st.offset, st.docSeq, st.docCount)
    case Failed(error) => Rejected(UnreadableFrame(error))
    case Frame(hdr, payload) =>
      if !InSequence(hdr, st) then Rejected(OutOfSequence)
      else Scan(h, rest[FRAME_HEADER_SIZE + |payload|..], AfterFrame(st, IsLast(hdr.flags), |payload|))
  }

  lemma ScanOneFrame(h: Hashes, payload: Bytes, index: nat, last: bool, tail: Bytes, st: ScanState)
    requires |payload| <= MAX_FRAME_PAYLOAD && st.frameSeq == Wrap32(index)
    ensures Scan(h, OneFrame(h, st.docSeq, index, payload, last) + tail, st)
            == Scan(h, tail, AfterFrame(st, last, |payload|))
  {
    var f := OneFrame(h, st.docSeq, index, payload, last);
    FrameRoundTrip(h, FrameFlags(Wrap32(index), last), st.docSeq, Wrap32(index), payload, tail);
    assert (f + tail)[|f|..] == tail;
  }

  function AfterRun(st: ScanState, ps: seq<Bytes>, closed: bool): ScanState
  {
    if closed && ps != [] then
      ScanState(st.offset + RunSize(ps), Wrap32(st.docSeq + 1), 0, Wrap32(st.docCount + 1))
    else
      ScanState(st.offset + RunSize(ps), st.docSeq, Wrap32(st.frameSeq + |ps|), st.docCount)
  }

  lemma {:induction false} ScanRun(h: Hashes, ps: seq<Bytes>, closed: bool, base: nat, tail: Bytes, st: ScanState)
    requires Fits(ps) && st.frameSeq == Wrap32(base)
    ensures Scan(h, RunBytes(h, st.docSeq, ps, closed, base) + tail, st) == Scan(h, tail, AfterRun(st, ps, closed))
    decreases |ps|
  {
    hide OneFrame, Scan, Wrap32;
    if ps == [] {
      Wrap32Id(st.frameSeq);
      assert RunBytes(h, st.docSeq, ps, closed, base) + tail == tail;
    } else {
      var last := closed && |ps| == 1;
      var f := OneFrame(h, st.docSeq, base, ps[0], last);
      var more := RunBytes(h, st.docSeq, ps[1..], closed, base + 1);
      assert (f + more) + tail == f + (more + tail);
      ScanOneFrame(h, ps[0], base, last, more + tail, st);
      if last {
        assert more + tail == tail;
      } else {
        Wrap32Add(base, 1);
        Wrap32Add(st.frameSeq + 1, |ps| - 1);
        ScanRun(h, ps[1..], closed, base + 1, tail, AfterFrame(st, false, |ps[0]|));
      }
    }
  }

  lemma {:induction false} ScanDocs(h: Hashes, docs: seq<seq<Bytes>>, base: nat, tail: Bytes, st: ScanState)
    requires AreDocs(docs) && st.docSeq == Wrap32(base) && st.frameSeq == 0
    ensures Scan(h, DocsBytes(h, docs, base) + tail, st)
            == Scan(h, tail, ScanState(st.offset + |DocsBytes(h, docs, base)|, Wrap32(base + |docs|), 0,
                                       Wrap32(st.docCount + |docs|)))
    decreases |docs|
  {
    hide RunBytes, Scan, Wrap32;
    if docs == [] {
      Wrap32Id(st.docCount);
      assert DocsBytes(h, docs, base) + tail == tail;
    } else {
      var first := DocBytes(h, Wrap32(base), docs[0]);
      var more := DocsBytes(h, docs[1..], base + 1);
      assert (first + more) + tail == first + (more + tail);
      Wrap32Add(base, 1);
      Wrap32Add(st.docCount + 1, |docs| - 1);
      Wrap32Id(0);
      ScanRun(h, docs[0], true, 0, more + tail, st);
      ScanDocs(h, docs[1..], base + 1, tail, AfterRun(st, docs[0], true));
    }
  }

  /** Recovery of a well-formed Block re-derives the append offset, the next
      document number and the document count. */
  lemma ScanRecovers(h: Hashes, docs: seq<seq<Bytes>>)
    requires AreDocs(docs)
    ensures Scan(h, DocsBytes(h, docs, 0), SCAN_START)
            == Recovered(BLOCK_HEADER_SIZE + |DocsBytes(h, docs, 0)|, Wrap32(|docs|), Wrap32(|docs|))
  {
    hide DocsBytes;
    ScanDocs(h, docs, 0, [], SCAN_START);
    assert DocsBytes(h, docs, 0) + [] == DocsBytes(h, docs, 0);
  }

  // -------------------------------------------------------- appends cut short

  /** Where a torn append is taken for a clean end of file. */
  predicate TornCleanly(ps: seq<Bytes>, k: nat)
    requires ps != []
  {
    k == 0 || (k == FRAME_HEADER_SIZE && ps[0] != [])
  }

  lemma TornScan(h: Hashes, payload: Bytes, index: nat, last: bool, k: nat, st: ScanState)
    requires |payload| <= MAX_FRAME_PAYLOAD && k < FRAME_HEADER_SIZE + |payload|
    ensures Scan(h, OneFrame(h, st.docSeq, index, payload, last)[..k], st)
            == if k != 0 && k != FRAME_HEADER_SIZE then Rejected(UnreadableFrame(Truncated))
               else if st.frameSeq != 0 then Rejected(IncompleteDocument)
               else Recovered(st.offset, st.docSeq, st.docCount)
  {
    TornFrame(h, FrameFlags(Wrap32(index), last), st.docSeq, Wrap32(index), payload, k);
  }

  lemma {:induction false} TornRun(h: Hashes, ps: seq<Bytes>, base: nat, k: nat, st: ScanState)
    requires IsDoc(ps) && k < RunSize(ps) && base + |ps| <= TWO_32 && st.frameSeq == base
    ensures var r := Scan(h, RunBytes(h, st.docSeq, ps, true, base)[..k], st);
            if base == 0 && TornCleanly(ps, k) then r == Recovered(st.offset, st.docSeq, st.docCount)
            else r.Rejected?
    decreases |ps|
  {
    hide OneFrame, Scan;
    var last := |ps| == 1;
    var f := OneFrame(h, st.docSeq, base, ps[0], last);
    var more := RunBytes(h, st.docSeq, ps[1..], true, base + 1);
    if k < |f| {
      assert (f + more)[..k] == f[..k];
      TornScan(h, ps[0], base, last, k, st);
    } else {
      assert (f + more)[..k] == f + more[..k - |f|];
      ScanOneFrame(h, ps[0], base, last, more[..k - |f|], st);
      TornRun(h, ps[1..], base + 1, k - |f|, AfterFrame(st, false, |ps[0]|));
    }
  }

  /** The exact condition under which a Block whose last append was cut after k
      bytes can be reopened: never inside a document, except that a first frame
      cut exactly behind its header is silently dropped.  Otherwise recovery
      refuses the file. */
  lemma TornAppend(h: Hashes, docs: seq<seq<Bytes>>, ps: seq<Bytes>, k: nat)
    requires AreDocs(docs) && IsDoc(ps) && |ps| <= TWO_32 && k < RunSize(ps)
    ensures var file := DocsBytes(h, docs, 0) + DocBytes(h, Wrap32(|docs|), ps)[..k];
            var r := Scan(h, file, SCAN_START);
            && (r.Recovered? <==> TornCleanly(ps, k))
            && (r.Recovered? ==> r == Scan(h, DocsBytes(h, docs, 0), SCAN_START))
  {
    hide DocsBytes, RunBytes, Scan;
    var torn := DocBytes(h, Wrap32(|docs|), ps)[..k];
    ScanDocs(h, docs, 0, torn, SCAN_START);
    ScanRecovers(h, docs);
    var st := ScanState(BLOCK_HEADER_SIZE + |DocsBytes(h, docs, 0)|, Wrap32(|docs|), 0, Wrap32(|docs|));
    TornRun(h, ps, 0, k, st);
  }
}
