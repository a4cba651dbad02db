/** The deep verifier: every frame checksum, every document digest against the
    index, and every indexed frame present. */
module Verify {
  import opened Bytes
  import opened Storage
  import opened Frame
  import opened Layout
  import opened Index

  datatype Corruption = HeaderCorrupt | FrameCrcBad | DocSha | DocCiphertextLength | MissingFrame

  datatype CorruptFrame = CorruptFrame(offset: nat, kind: Corruption)

  datatype VerifyResult = VerifyResult(corrupt: seq<CorruptFrame>, frames: nat)

  /** What the verifier reads out of a stored envelope; the JSON text is abstract. */
  datatype LengthField = LengthUnreadable | LengthMissing | Length(n: int64)
  datatype ShaField = ShaUnreadable | Sha(digest: Bytes)
  datatype EnvelopeView = EnvelopeView(cipherLength: LengthField, plainSha: ShaField)

  /** The verifier's own frame reader: a short header is the end of the file, a
      short payload is always an error. */
  function ParseRaw(h: Hashes, rest: Bytes): (r: FrameRead)
    ensures r.Frame? ==> |r.payload| == r.hdr.payloadLen && FRAME_HEADER_SIZE + |r.payload| <= |rest|
  {
    if |rest| < FRAME_HEADER_SIZE then Failed(AtEof)
    else
      var header := ParseHeader(h, rest[..FRAME_HEADER_SIZE]);
      if header.Failed? then header
      else
        var n := header.hdr.payloadLen;
        var body := rest[FRAME_HEADER_SIZE..];
        if n > |body| then Failed(Truncated)
        else if h.crc(body[..n]) != header.hdr.payloadCrc then Failed(CrcMismatch)
        else Frame(header.hdr, body[..n])
  }

  /** The two readers agree on complete frames. */
  lemma RawAgrees(h: Hashes, rest: Bytes)
    requires ParseFrame(h, rest).Frame?
    ensures ParseRaw(h, rest) == ParseFrame(h, rest)
  {
    hide ParseHeader;
  }

  // -------------------------------------------------------------- per-document checks

  function CheckEncrypted(e: IndexEntry, size: nat, view: EnvelopeView): (r: seq<Corruption>)
  {
    (if view.cipherLength.Length? && view.cipherLength.n == size then [] else [DocCiphertextLength])
    + (if view.plainSha.ShaUnreadable? then []
       else if |view.plainSha.digest| != 32 || e.sha256 == ZERO_DIGEST || e.sha256 != view.plainSha.digest then [DocSha]
       else [])
  }

  function CheckDoc(h: Hashes, json: Bytes -> EnvelopeView, e: IndexEntry, stored: Bytes): (r: seq<Corruption>)
  {
    if e.envelope != [] then CheckEncrypted(e, |stored|, json(e.envelope))
    else if e.sha256 == ZERO_DIGEST || h.sha(stored) != e.sha256 then [DocSha]
    else []
  }

  function At(offset: nat, kinds: seq<Corruption>): (r: seq<CorruptFrame>)
    ensures |r| == |kinds|
  {
    if kinds == [] then [] else [CorruptFrame(offset, kinds[0])] + At(offset, kinds[1..])
  }

  function CheckIndexed(h: Hashes, json: Bytes -> EnvelopeView, idx: seq<IndexEntry>, docSeq: uint32, stored: Bytes, offset: nat)
    : (r: seq<CorruptFrame>)
  {
    if docSeq < |idx| then At(offset, CheckDoc(h, json, idx[docSeq], stored)) else []
  }

  // ------------------------------------------------------------------ the frame loop

  datatype State = State(
    offset: nat, acc: map<uint32, Bytes>, count: map<uint32, uint32>, complete: set<uint32>,
    corrupt: seq<CorruptFrame>, frames: nat)

  const VERIFY_START := State(BLOCK_HEADER_SIZE, map[], map[], {}, [], 0)

  function Stored(st: State, docSeq: uint32): Bytes { if docSeq in st.acc then st.acc[docSeq] else [] }

  function Counted(st: State, docSeq: uint32): uint32 { if docSeq in st.count then st.count[docSeq] else 0 }

  function Step(h: Hashes, json: Bytes -> EnvelopeView, idx: seq<IndexEntry>, st: State, docSeq: uint32, last: bool, payload: Bytes)
    : State
  {
    State(st.offset + FRAME_HEADER_SIZE + |payload|,
          if last then st.acc - {docSeq} else st.acc[docSeq := Stored(st, docSeq) + payload],
          st.count[docSeq := Wrap32(Counted(st, docSeq) + 1)],
          if last then st.complete + {docSeq} else st.complete,
          if last then st.corrupt + CheckIndexed(h, json, idx, docSeq, Stored(st, docSeq) + payload, st.offset)
          else st.corrupt,
          st.frames + 1)
  }

  predicate EntryMissing(e: IndexEntry, docSeq: nat, st: State)
  {
    e.frameCount == 0 || Counted(st, Wrap32(docSeq)) < e.frameCount || Wrap32(docSeq) !in st.complete
  }

  /** recordMissingIndexedFrames over the first n entries. */
  function Missing(idx: seq<IndexEntry>, st: State, n: nat): (r: seq<CorruptFrame>)
    requires n <= |idx|
  {
    if n == 0 then []
    else Missing(idx, st, n - 1)
         + (if EntryMissing(idx[n - 1], n - 1, st) then [CorruptFrame(st.offset, MissingFrame)] else [])
  }

  /** verifyFrames from state st over the remaining bytes. */
  function VerifyFrom(h: Hashes, json: Bytes -> EnvelopeView, idx: seq<IndexEntry>, rest: Bytes, st: State): (r: VerifyResult)
    decreases |rest|
  {
    match ParseRaw(h, rest)
    case Failed(AtEof) => VerifyResult(st.corrupt + Missing(idx, st, |idx|), st.frames)
    case Failed(_) => VerifyResult(st.corrupt + [CorruptFrame(st.offset, FrameCrcBad)], st.frames)
    case Frame(hdr, payload) =>
      VerifyFrom(h, json, idx, rest[FRAME_HEADER_SIZE + |payload|..],
                 Step(h, json, idx, st, hdr.docSeq, IsLast(hdr.flags), payload))
  }

  lemma VerifyOneFrame(h: Hashes, json: Bytes -> EnvelopeView, idx: seq<IndexEntry>, st: State,
                       docSeq: uint32, index: nat, payload: Bytes, last: bool, tail: Bytes)
    requires |payload| <= MAX_FRAME_PAYLOAD
    ensures VerifyFrom(h, json, idx, OneFrame(h, docSeq, index, payload, last) + tail, st)
            == VerifyFrom(h, json, idx, tail, Step(h, json, idx, st, docSeq, last, payload))
  {
    hide ParseFrame, ParseRaw, FrameBytes, Step, Wrap32;
    var f := OneFrame(h, docSeq, index, payload, last);
    FrameRoundTrip(h, FrameFlags(Wrap32(index), last), docSeq, Wrap32(index), payload, tail);
    RawAgrees(h, f + tail);
    assert (f + tail)[|f|..] == tail;
  }

  /** The verifier's state after the frames of one document. */
  function AfterPayloads(h: Hashes, json: Bytes -> EnvelopeView, idx: seq<IndexEntry>, st: State, docSeq: uint32, ps: seq<Bytes>): State
    decreases |ps|
  {
    if ps == [] then st
    else AfterPayloads(h, json, idx, Step(h, json, idx, st, docSeq, |ps| == 1, ps[0]), docSeq, ps[1..])
  }

  lemma {:induction false} VerifyRun(h: Hashes, json: Bytes -> EnvelopeView, idx: seq<IndexEntry>, st: State,
                                     docSeq: uint32, ps: seq<Bytes>, base: nat, tail: Bytes)
    requires Fits(ps)
    ensures VerifyFrom(h, json, idx, RunBytes(h, docSeq, ps, true, base) + tail, st)
            == VerifyFrom(h, json, idx, tail, AfterPayloads(h, json, idx, st, docSeq, ps))
    decreases |ps|
  {
    hide OneFrame, VerifyFrom, Step;
    if ps == [] {
      assert RunBytes(h, docSeq, ps, true, base) + tail == tail;
    } else {
      var f := OneFrame(h, docSeq, base, ps[0], |ps| == 1);
      var more := RunBytes(h, docSeq, ps[1..], true, base + 1);
      assert (f + more) + tail == f + (more + tail);
      VerifyOneFrame(h, json, idx, st, docSeq, base, ps[0], |ps| == 1, more + tail);
      VerifyRun(h, json, idx, Step(h, json, idx, st, docSeq, |ps| == 1, ps[0]), docSeq, ps[1..], base + 1, tail);
    }
  }

  /** Offset of a document's last frame. */
  function LastFrameAt(start: nat, ps: seq<Bytes>): nat
    requires ps != []
    decreases |ps|
  {
    if |ps| == 1 then start else LastFrameAt(start + FRAME_HEADER_SIZE + |ps[0]|, ps[1..])
  }

  /** What one document does to the verifier's state. */
  ghost predicate Effect(h: Hashes, json: Bytes -> EnvelopeView, idx: seq<IndexEntry>, st: State,
                         docSeq: uint32, ps: seq<Bytes>, r: State)
    requires ps != []
  {
    && r.offset == st.offset + RunSize(ps) && r.frames == st.frames + |ps|
    && r.complete == st.complete + {docSeq}
    && r.corrupt == st.corrupt + CheckIndexed(h, json, idx, docSeq, Stored(st, docSeq) + Concat(ps),
                                              LastFrameAt(st.offset, ps))
    && Counted(r, docSeq) == Counted(st, docSeq) + |ps|
    && (forall k: uint32 :: k != docSeq ==> Counted(r, k) == Counted(st, k))
    && Stored(r, docSeq) == []
    && (forall k: uint32 :: k != docSeq ==> Stored(r, k) == Stored(st, k))
  }

  lemma {:induction false} PayloadsEffect(h: Hashes, json: Bytes -> EnvelopeView, idx: seq<IndexEntry>, st: State,
                                          docSeq: uint32, ps: seq<Bytes>)
    requires ps != [] && Counted(st, docSeq) + |ps| < TWO_32
    ensures Effect(h, json, idx, st, docSeq, ps, AfterPayloads(h, json, idx, st, docSeq, ps))
    decreases |ps|
  {
    hide CheckIndexed, Step, Effect;
    if |ps| == 1 {
      assert ps[1..] == [] && ps == [ps[0]];
      LastFrameEffect(h, json, idx, st, docSeq, ps[0]);
    } else {
      var next := Step(h, json, idx, st, docSeq, false, ps[0]);
      StepFacts(h, json, idx, st, docSeq, ps[0]);
      PayloadsEffect(h, json, idx, next, docSeq, ps[1..]);
      EarlierFrameEffect(h, json, idx, st, docSeq, ps, AfterPayloads(h, json, idx, next, docSeq, ps[1..]));
    }
  }

  lemma LastFrameEffect(h: Hashes, json: Bytes -> EnvelopeView, idx: seq<IndexEntry>, st: State, docSeq: uint32, p: Bytes)
    requires Counted(st, docSeq) + 1 < TWO_32
    ensures Effect(h, json, idx, st, docSeq, [p], Step(h, json, idx, st, docSeq, true, p))
  {
    hide CheckIndexed;
    assert [p][1..] == [];
    assert Concat([p]) == p + Concat([p][1..]) == p;
    assert RunSize([p]) == FRAME_HEADER_SIZE + |p| + RunSize([p][1..]) == FRAME_HEADER_SIZE + |p|;
    var r := Step(h, json, idx, st, docSeq, true, p);
    assert docSeq !in r.acc && Stored(r, docSeq) == [];
    assert Counted(r, docSeq) == Counted(st, docSeq) + 1;
    assert forall k: uint32 :: k != docSeq ==> Counted(r, k) == Counted(st, k);
    assert forall k: uint32 :: k != docSeq ==> Stored(r, k) == Stored(st, k);
  }

  /** A frame that is not the last of its document. */
  lemma StepFacts(h: Hashes, json: Bytes -> EnvelopeView, idx: seq<IndexEntry>, st: State, docSeq: uint32, p: Bytes)
    requires Counted(st, docSeq) + 1 < TWO_32
    ensures var r := Step(h, json, idx, st, docSeq, false, p);
            && r.offset == st.offset + FRAME_HEADER_SIZE + |p| && r.frames == st.frames + 1
            && r.complete == st.complete && r.corrupt == st.corrupt
            && Counted(r, docSeq) == Counted(st, docSeq) + 1 && Stored(r, docSeq) == Stored(st, docSeq) + p
    ensures forall k: uint32 :: k != docSeq ==>
              && Counted(Step(h, json, idx, st, docSeq, false, p), k) == Counted(st, k)
              && Stored(Step(h, json, idx, st, docSeq, false, p), k) == Stored(st, k)
  {
  }

  lemma EarlierFrameEffect(h: Hashes, json: Bytes -> EnvelopeView, idx: seq<IndexEntry>, st: State, docSeq: uint32,
                           ps: seq<Bytes>, r: State)
    requires |ps| > 1 && Counted(st, docSeq) + 1 < TWO_32
    requires Effect(h, json, idx, Step(h, json, idx, st, docSeq, false, ps[0]), docSeq, ps[1..], r)
    ensures Effect(h, json, idx, st, docSeq, ps, r)
  {
    hide CheckIndexed, Step, Stored, Counted;
    StepFacts(h, json, idx, st, docSeq, ps[0]);
    assert (Stored(st, docSeq) + ps[0]) + Concat(ps[1..]) == Stored(st, docSeq) + Concat(ps);
  }

  // ------------------------------------------------------------- whole Blocks

  function AfterDocs(h: Hashes, json: Bytes -> EnvelopeView, idx: seq<IndexEntry>, st: State, docs: seq<seq<Bytes>>, base: nat): State
    decreases |docs|
  {
    if docs == [] then st
    else AfterDocs(h, json, idx, AfterPayloads(h, json, idx, st, Wrap32(base), docs[0]), docs[1..], base + 1)
  }

  lemma {:induction false} VerifyDocs(h: Hashes, json: Bytes -> EnvelopeView, idx: seq<IndexEntry>, st: State,
                                      docs: seq<seq<Bytes>>, base: nat, tail: Bytes)
    requires AreDocs(docs)
    ensures VerifyFrom(h, json, idx, DocsBytes(h, docs, base) + tail, st)
            == VerifyFrom(h, json, idx, tail, AfterDocs(h, json, idx, st, docs, base))
    decreases |docs|
  {
    hide RunBytes, VerifyFrom, AfterPayloads, Wrap32;
    if docs == [] {
      assert DocsBytes(h, docs, base) + tail == tail;
    } else {
      var first := DocBytes(h, Wrap32(base), docs[0]);
      var more := DocsBytes(h, docs[1..], base + 1);
      assert (first + more) + tail == first + (more + tail);
      VerifyRun(h, json, idx, st, Wrap32(base), docs[0], 0, more + tail);
      VerifyDocs(h, json, idx, AfterPayloads(h, json, idx, st, Wrap32(base), docs[0]), docs[1..], base + 1, tail);
    }
  }

  function TotalFrames(docs: seq<seq<Bytes>>): nat
  {
    if docs == [] then 0 else |docs[0]| + TotalFrames(docs[1..])
  }

  /** Digest and length findings, in file order. */
  function DocFindings(h: Hashes, json: Bytes -> EnvelopeView, idx: seq<IndexEntry>, docs: seq<seq<Bytes>>, base: nat, start: nat)
    : (r: seq<CorruptFrame>)
    requires AreDocs(docs)
    decreases |docs|
  {
    if docs == [] then []
    else
      assert docs[0] in docs;
      CheckIndexed(h, json, idx, Wrap32(base), Concat(docs[0]), LastFrameAt(start, docs[0]))
      + DocFindings(h, json, idx, docs[1..], base + 1, start + RunSize(docs[0]))
  }

  /** No document at or after number base has been met yet. */
  ghost predicate NothingFrom(st: State, base: nat)
  {
    forall k: uint32 :: base <= k ==> Stored(st, k) == [] && Counted(st, k) == 0 && k !in st.complete
  }

  /** Frame numbers fit the uint32 fields of the format. */
  predicate Countable(docs: seq<seq<Bytes>>)
  {
    |docs| <= TWO_32 && forall d :: d in docs ==> |d| < TWO_32
  }

  ghost predicate DocsSeen(h: Hashes, json: Bytes -> EnvelopeView, idx: seq<IndexEntry>, st: State,
                           docs: seq<seq<Bytes>>, base: nat, r: State)
    requires AreDocs(docs)
  {
    && r.frames == st.frames + TotalFrames(docs)
    && r.offset == st.offset + |DocsBytes(h, docs, base)|
    && r.corrupt == st.corrupt + DocFindings(h, json, idx, docs, base, st.offset)
    && (forall k: uint32 :: k < base ==> Counted(r, k) == Counted(st, k) && (k in r.complete <==> k in st.complete))
    && (forall k: uint32 :: base <= k < base + |docs| ==> Counted(r, k) == |docs[k - base]| && k in r.complete)
    && NothingFrom(r, base + |docs|)
  }

  lemma {:induction false} DocsEffect(h: Hashes, json: Bytes -> EnvelopeView, idx: seq<IndexEntry>, st: State,
                                      docs: seq<seq<Bytes>>, base: nat)
    requires AreDocs(docs) && base + |docs| <= TWO_32 && (forall d :: d in docs ==> |d| < TWO_32)
    requires NothingFrom(st, base)
    ensures DocsSeen(h, json, idx, st, docs, base, AfterDocs(h, json, idx, st, docs, base))
    decreases |docs|
  {
    hide CheckIndexed, Step, DocsSeen, AfterPayloads;
    if docs == [] {
      NoDocsSeen(h, json, idx, st, base);
    } else {
      assert docs[0] in docs;
      var next := AfterPayloads(h, json, idx, st, Wrap32(base), docs[0]);
      PayloadsEffect(h, json, idx, st, Wrap32(base), docs[0]);
      NothingFromNext(h, json, idx, st, base, docs[0], next);
      DocsEffect(h, json, idx, next, docs[1..], base + 1);
      DocsSeenGrows(h, json, idx, st, docs, base, next, AfterDocs(h, json, idx, next, docs[1..], base + 1));
    }
  }

  lemma NoDocsSeen(h: Hashes, json: Bytes -> EnvelopeView, idx: seq<IndexEntry>, st: State, base: nat)
    requires NothingFrom(st, base)
    ensures DocsSeen(h, json, idx, st, [], base, st)
  {
  }

  lemma NothingFromNext(h: Hashes, json: Bytes -> EnvelopeView, idx: seq<IndexEntry>, st: State, base: nat,
                        ps: seq<Bytes>, next: State)
    requires ps != [] && base < TWO_32 && NothingFrom(st, base) && Effect(h, json, idx, st, Wrap32(base), ps, next)
    ensures NothingFrom(next, base + 1)
  {
    hide CheckIndexed;
    Wrap32Id(base);
  }

  lemma DocsSeenGrows(h: Hashes, json: Bytes -> EnvelopeView, idx: seq<IndexEntry>, st: State,
                      docs: seq<seq<Bytes>>, base: nat, next: State, r: State)
    requires AreDocs(docs) && docs != [] && docs[0] != [] && base + |docs| <= TWO_32 && NothingFrom(st, base)
    requires Effect(h, json, idx, st, Wrap32(base), docs[0], next)
    requires DocsSeen(h, json, idx, next, docs[1..], base + 1, r)
    ensures DocsSeen(h, json, idx, st, docs, base, r)
  {
    hide CheckIndexed, RunBytes, Concat, LastFrameAt, Stored, Counted, Wrap32;
    Wrap32Id(base);
    var rest := docs[1..];
    assert DocsBytes(h, docs, base) == DocBytes(h, Wrap32(base), docs[0]) + DocsBytes(h, rest, base + 1);
    assert Stored(st, Wrap32(base)) + Concat(docs[0]) == Concat(docs[0]);
    forall k: uint32 | base <= k < base + |docs|
      ensures Counted(r, k) == |docs[k - base]| && k in r.complete
    {
      if k > base {
        assert rest[k - (base + 1)] == docs[k - base];
      }
    }
    assert r.frames == st.frames + TotalFrames(docs);
    assert r.offset == st.offset + |DocsBytes(h, docs, base)|;
    assert r.corrupt == st.corrupt + DocFindings(h, json, idx, docs, base, st.offset);
    assert (forall k: uint32 :: k < base ==> Counted(r, k) == Counted(st, k) && (k in r.complete <==> k in st.complete));
    assert NothingFrom(r, base + |docs|);
  }

  // ------------------------------------------------------------- the verdict

  /** What an index entry must say about the document it indexes. */
  predicate EntryMatches(h: Hashes, json: Bytes -> EnvelopeView, e: IndexEntry, ps: seq<Bytes>)
  {
    0 < e.frameCount <= |ps| && CheckDoc(h, json, e, Concat(ps)) == []
  }

  ghost predicate IndexMatches(h: Hashes, json: Bytes -> EnvelopeView, idx: seq<IndexEntry>, docs: seq<seq<Bytes>>)
  {
    |idx| <= |docs| && forall i :: 0 <= i < |idx| ==> EntryMatches(h, json, idx[i], docs[i])
  }

  predicate DocPasses(h: Hashes, json: Bytes -> EnvelopeView, idx: seq<IndexEntry>, n: nat, ps: seq<Bytes>)
  {
    n < |idx| ==> CheckDoc(h, json, idx[n], Concat(ps)) == []
  }

  lemma PassesSplit(h: Hashes, json: Bytes -> EnvelopeView, idx: seq<IndexEntry>, docs: seq<seq<Bytes>>, base: nat)
    requires docs != []
    ensures (forall i :: 0 <= i < |docs| ==> DocPasses(h, json, idx, base + i, docs[i]))
            <==> DocPasses(h, json, idx, base, docs[0])
                 && forall i :: 0 <= i < |docs[1..]| ==> DocPasses(h, json, idx, base + 1 + i, docs[1..][i])
  {
    hide DocPasses;
    var rest := docs[1..];
    assert forall i :: 0 <= i < |rest| ==> rest[i] == docs[i + 1] && base + 1 + i == base + (i + 1);
    assert forall i :: 0 < i < |docs| ==> docs[i] == rest[i - 1] && base + i == base + 1 + (i - 1);
  }

  lemma {:induction false} NoDocFindings(h: Hashes, json: Bytes -> EnvelopeView, idx: seq<IndexEntry>,
                                         docs: seq<seq<Bytes>>, base: nat, start: nat)
    requires AreDocs(docs) && base + |docs| <= TWO_32
    ensures DocFindings(h, json, idx, docs, base, start) == []
            <==> forall i :: 0 <= i < |docs| ==> DocPasses(h, json, idx, base + i, docs[i])
    decreases |docs|
  {
    hide CheckIndexed, DocPasses, Concat, RunSize, LastFrameAt;
    if docs != [] {
      assert docs[0] in docs;
      var rest := docs[1..];
      FirstDocPasses(h, json, idx, docs[0], base, LastFrameAt(start, docs[0]));
      NoDocFindings(h, json, idx, rest, base + 1, start + RunSize(docs[0]));
      PassesSplit(h, json, idx, docs, base);
    }
  }

  lemma FirstDocPasses(h: Hashes, json: Bytes -> EnvelopeView, idx: seq<IndexEntry>, ps: seq<Bytes>, base: nat, at: nat)
    requires base < TWO_32
    ensures CheckIndexed(h, json, idx, Wrap32(base), Concat(ps), at) == [] <==> DocPasses(h, json, idx, base, ps)
  {
    hide CheckDoc;
    Wrap32Id(base);
  }

  lemma {:induction false} NoMissing(idx: seq<IndexEntry>, st: State, n: nat)
    requires n <= |idx|
    ensures Missing(idx, st, n) == [] <==> forall i :: 0 <= i < n ==> !EntryMissing(idx[i], i, st)
  {
    hide EntryMissing;
    if n > 0 {
      NoMissing(idx, st, n - 1);
    }
  }

  lemma MissingMeans(h: Hashes, json: Bytes -> EnvelopeView, idx: seq<IndexEntry>, docs: seq<seq<Bytes>>, r: State, i: nat)
    requires AreDocs(docs) && i < |idx| && i < TWO_32
    requires DocsSeen(h, json, idx, VERIFY_START, docs, 0, r)
    ensures !EntryMissing(idx[i], i, r) <==> i < |docs| && 0 < idx[i].frameCount <= |docs[i]|
  {
    hide DocFindings, DocsBytes, Counted, Stored, Wrap32;
    Wrap32Id(i);
    if i >= |docs| {
      assert Counted(r, i) == 0;
    } else {
      assert Counted(r, i) == |docs[i - 0]|;
    }
  }

  /** On a well-formed Block the verifier counts exactly the frames written and
      reports no corruption exactly when every index entry matches its document. */
  lemma VerifyVerdict(h: Hashes, json: Bytes -> EnvelopeView, idx: seq<IndexEntry>, docs: seq<seq<Bytes>>)
    requires AreDocs(docs) && Countable(docs) && |idx| <= TWO_32
    ensures var r := VerifyFrom(h, json, idx, DocsBytes(h, docs, 0), VERIFY_START);
            && r.frames == TotalFrames(docs)
            && (r.corrupt == [] <==> IndexMatches(h, json, idx, docs))
  {
    hide DocsBytes, DocFindings, DocsSeen, AfterDocs, VerifyFrom, Missing, IndexMatches, DocPasses, EntryMissing;
    VerifyDocs(h, json, idx, VERIFY_START, docs, 0, []);
    assert DocsBytes(h, docs, 0) + [] == DocsBytes(h, docs, 0);
    NothingAtStart();
    DocsEffect(h, json, idx, VERIFY_START, docs, 0);
    var r := AfterDocs(h, json, idx, VERIFY_START, docs, 0);
    SeenFindings(h, json, idx, docs, r);
    NoDocFindings(h, json, idx, docs, 0, BLOCK_HEADER_SIZE);
    NoMissing(idx, r, |idx|);
    MatchMeans(h, json, idx, docs, r);
  }

  lemma NothingAtStart()
    ensures NothingFrom(VERIFY_START, 0)
  {
  }

  lemma MatchMeans(h: Hashes, json: Bytes -> EnvelopeView, idx: seq<IndexEntry>, docs: seq<seq<Bytes>>, r: State)
    requires AreDocs(docs) && |idx| <= TWO_32 && DocsSeen(h, json, idx, VERIFY_START, docs, 0, r)
    ensures IndexMatches(h, json, idx, docs) <==>
              && (forall i :: 0 <= i < |docs| ==> DocPasses(h, json, idx, 0 + i, docs[i]))
              && (forall i :: 0 <= i < |idx| ==> !EntryMissing(idx[i], i, r))
  {
    hide CheckDoc, DocsSeen, EntryMissing, Concat;
    forall i | 0 <= i < |idx|
      ensures !EntryMissing(idx[i], i, r) <==> i < |docs| && 0 < idx[i].frameCount <= |docs[i]|
    {
      MissingMeans(h, json, idx, docs, r, i);
    }
    if |docs| < |idx| {
      assert EntryMissing(idx[|docs|], |docs|, r);
    }
    forall i | 0 <= i < |idx| && i < |docs|
      ensures EntryMatches(h, json, idx[i], docs[i])
              <==> DocPasses(h, json, idx, 0 + i, docs[i]) && !EntryMissing(idx[i], i, r)
    {
    }
  }

  lemma SeenFindings(h: Hashes, json: Bytes -> EnvelopeView, idx: seq<IndexEntry>, docs: seq<seq<Bytes>>, r: State)
    requires AreDocs(docs) && DocsSeen(h, json, idx, VERIFY_START, docs, 0, r)
    ensures VerifyFrom(h, json, idx, [], r)
            == VerifyResult(DocFindings(h, json, idx, docs, 0, BLOCK_HEADER_SIZE) + Missing(idx, r, |idx|), TotalFrames(docs))
  {
    hide DocFindings, DocsBytes, Missing;
  }

  // ------------------------------------------------------------- the programs

  /** One read of a frame; an unhealthy device may fault instead. */
  method ReadFrameRaw(h: Hashes, f: File) returns (r: FrameRead, fault: bool)
    modifies f`pos
    ensures f.healthy ==> !fault
    ensures !fault ==> r == ParseRaw(h, old(f.Rest()))
    ensures !fault && r.Frame? ==>
              f.pos == old(f.pos) + FRAME_HEADER_SIZE + |r.payload|
              && f.Rest() == old(f.Rest())[FRAME_HEADER_SIZE + |r.payload|..]
  {
    hide ParseHeader;
    fault :| f.healthy ==> !fault;
    var buf, err := f.ReadFull(FRAME_HEADER_SIZE);
    if fault {
      return Failed(Truncated), true;
    }
    if err != NoError {
      return Failed(AtEof), false;
    }
    r := ParseHeader(h, buf);
    if r.Failed? {
      return;
    }
    var payload := [];
    if r.hdr.payloadLen > 0 {
      payload, err := f.ReadFull(r.hdr.payloadLen);
      if err != NoError {
        return Failed(Truncated), false;
      }
    }
    r := if h.crc(payload) != r.hdr.payloadCrc then Failed(CrcMismatch) else Frame(r.hdr, payload);
  }

  /** Re-reads a frame once, and only when the first read faulted. */
  method ReadFrameWithRetry(h: Hashes, f: File, retries: nat) returns (r: FrameRead, fault: bool, retries': nat)
    modifies f`pos
    ensures f.healthy ==> !fault && retries' == retries
    ensures !fault ==> r == ParseRaw(h, old(f.Rest()))
    ensures !fault && r.Frame? ==>
              f.pos == old(f.pos) + FRAME_HEADER_SIZE + |r.payload|
              && f.Rest() == old(f.Rest())[FRAME_HEADER_SIZE + |r.payload|..]
    ensures retries <= retries' <= retries + 1
  {
    hide ParseRaw;
    var offset := f.pos;
    r, fault := ReadFrameRaw(h, f);
    retries' := retries;
    if fault {
      f.Seek(offset);
      r, fault := ReadFrameRaw(h, f);
      if !fault && r.Frame? {
        retries' := retries + 1;
      }
    }
  }

  /** verifyFrames: transient faults leave the verdict alone; a frame that faults
      twice is reported as corrupt. */
  method VerifyFrames(h: Hashes, json: Bytes -> EnvelopeView, f: File, idx: seq<IndexEntry>)
    returns (r: VerifyResult, retries: nat, faulted: bool)
    modifies f`pos
    ensures f.healthy ==> !faulted && retries == 0
    ensures !faulted ==> r == VerifyFrom(h, json, idx, old(f.Rest()), VERIFY_START)
    ensures faulted ==> r.corrupt != []
  {
    hide ParseRaw, Step, Missing;
    var st := VERIFY_START;
    retries := 0;
    while true
      invariant f.healthy ==> retries == 0
      invariant VerifyFrom(h, json, idx, old(f.Rest()), VERIFY_START) == VerifyFrom(h, json, idx, f.Rest(), st)
      decreases |f.Rest()|
    {
      var frame;
      frame, faulted, retries := ReadFrameWithRetry(h, f, retries);
      if !faulted && frame == Failed(AtEof) {
        var missing := RecordMissing(idx, st);
        return VerifyResult(st.corrupt + missing, st.frames), retries, false;
      }
      if faulted || frame.Failed? {
        return VerifyResult(st.corrupt + [CorruptFrame(st.offset, FrameCrcBad)], st.frames), retries, faulted;
      }
      st := AccountFrame(h, json, idx, st, frame.hdr, frame.payload);
    }
  }

  /** Accumulates a frame and, at a document's last one, checks and forgets it. */
  method AccountFrame(h: Hashes, json: Bytes -> EnvelopeView, idx: seq<IndexEntry>, st: State, hdr: FrameHeader, payload: Bytes)
    returns (st': State)
    requires hdr.payloadLen == |payload|
    ensures st' == Step(h, json, idx, st, hdr.docSeq, IsLast(hdr.flags), payload)
  {
    hide CheckIndexed, Wrap32;
    var stored := Stored(st, hdr.docSeq) + payload;
    st' := st.(frames := st.frames + 1, count := st.count[hdr.docSeq := Wrap32(Counted(st, hdr.docSeq) + 1)]);
    if IsLast(hdr.flags) {
      st' := st'.(complete := st.complete + {hdr.docSeq}, acc := st.acc - {hdr.docSeq},
                  corrupt := st.corrupt + CheckIndexed(h, json, idx, hdr.docSeq, stored, st.offset));
    } else {
      st' := st'.(acc := st.acc[hdr.docSeq := stored]);
    }
    st' := st'.(offset := st.offset + FRAME_HEADER_SIZE + hdr.payloadLen);
  }

  method RecordMissing(idx: seq<IndexEntry>, st: State) returns (r: seq<CorruptFrame>)
    ensures r == Missing(idx, st, |idx|)
  {
    r := [];
    for docSeq := 0 to |idx|
      invariant r == Missing(idx, st, docSeq)
    {
      if idx[docSeq].frameCount == 0 {
        r := r + [CorruptFrame(st.offset, MissingFrame)];
        continue;
      }
      var seq_ := Wrap32(docSeq);
      if Counted(st, seq_) < idx[docSeq].frameCount || seq_ !in st.complete {
        r := r + [CorruptFrame(st.offset, MissingFrame)];
      }
    }
  }

  /** The Block header's magic and checksum, re-read once after a fault. */
  method VerifyHeaderStructure(h: Hashes, f: File) returns (corrupt: bool, fault: bool)
    requires f.pos == 0
    modifies f`pos
    ensures f.healthy ==> !fault
    ensures corrupt == (fault || !HeaderIntact(h, f.data))
  {
    fault :| f.healthy ==> !fault;
    if fault {
      f.Seek(0);
      fault :| f.healthy ==> !fault;
      if fault {
        return true, true;
      }
    }
    var hdr, err := f.ReadFull(BLOCK_HEADER_SIZE);
    ghost var d := f.data;
    assert |d| >= BLOCK_HEADER_SIZE ==> hdr[..4] == d[..4] && hdr[..36] == d[..36] && hdr[36..40] == d[36..40];
    corrupt := err != NoError || hdr[..4] != BLOCK_MAGIC || h.crc(hdr[..36]) != Uint32(hdr[36..40]);
  }

  /** VerifyBlock: None when the index itself cannot be read. */
  method VerifyBlock(h: Hashes, json: Bytes -> EnvelopeView, blk: File, idxFile: File)
    returns (r: Option<VerifyResult>, faulted: bool)
    requires blk != idxFile && blk.pos == 0 && idxFile.pos == 0
    modifies blk`pos, idxFile`pos
    ensures blk.healthy ==> !faulted
    ensures r == None <==> ReadIndex(h, idxFile.data) == None
    ensures r.Some? && !faulted ==>
              var frames := VerifyFrom(h, json, ReadIndex(h, idxFile.data).value, BehindHeader(blk.data), VERIFY_START);
              r.value == if HeaderIntact(h, blk.data) then frames
                         else frames.(corrupt := [CorruptFrame(0, HeaderCorrupt)] + frames.corrupt)
    ensures r.Some? && faulted ==> r.value.corrupt != []
  {
    hide ReadIndex, VerifyFrom, HeaderIntact;
    faulted := false;
    var idx := ReadIndexEntries(h, idxFile);
    if idx == None {
      return None, false;
    }
    var headerCorrupt, headerFault := VerifyHeaderStructure(h, blk);
    blk.Seek(BLOCK_HEADER_SIZE);
    var result, retries, frameFault := VerifyFrames(h, json, blk, idx.value);
    faulted := headerFault || frameFault;
    if headerCorrupt {
      result := result.(corrupt := [CorruptFrame(0, HeaderCorrupt)] + result.corrupt);
    }
    r := Some(result);
  }

  function BehindHeader(data: Bytes): Bytes
  {
    if |data| >= BLOCK_HEADER_SIZE then data[BLOCK_HEADER_SIZE..] else []
  }

  /** Deep scrub of what the writer and the index writer leave behind: clean
      exactly when every entry matches its document. */
  method ScrubCommitted(h: Hashes, json: Bytes -> EnvelopeView, blk: File, idxFile: File,
                        ghost shardId: uint64, ghost blockId: uint64, ghost createdUs: int64,
                        ghost docs: seq<seq<Bytes>>, ghost entries: seq<IndexEntry>)
    returns (r: Option<VerifyResult>)
    requires blk != idxFile && blk.pos == 0 && idxFile.pos == 0 && blk.healthy
    requires AreDocs(docs) && Countable(docs) && AllReadable(entries) && |entries| <= TWO_32
    requires blk.data == BlockHeader(h, shardId, blockId, createdUs) + DocsBytes(h, docs, 0)
    requires AllFit(entries) && idxFile.data == IndexBytes(h, entries)
    modifies blk`pos, idxFile`pos
    ensures r.Some? && r.value.frames == TotalFrames(docs)
    ensures r.value.corrupt == [] <==> IndexMatches(h, json, entries, docs)
  {
    hide ReadIndex, IndexBytes, VerifyFrom, HeaderIntact, BlockHeader, DocsBytes, IndexMatches;
    IndexRoundTrip(h, entries);
    HeaderIdentity(h, shardId, blockId, createdUs, DocsBytes(h, docs, 0), shardId, blockId);
    VerifyVerdict(h, json, entries, docs);
    assert BehindHeader(blk.data) == DocsBytes(h, docs, 0);
    var faulted;
    r, faulted := VerifyBlock(h, json, blk, idxFile);
  }
}
