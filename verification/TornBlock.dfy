/** A Block whose last append was cut short, as the recovery scan and the deep verifier see it. */
module TornBlock {
  import opened Bytes
  import opened Frame
  import opened Layout
  import opened Index
  import opened Verify

  /** The cut falls on a frame boundary or inside a frame header, but not at its end. */
  predicate CutInHeader(ps: seq<Bytes>, k: nat)
    decreases |ps|
  {
    k < FRAME_HEADER_SIZE
    || (ps != [] && k >= FRAME_HEADER_SIZE + |ps[0]| && CutInHeader(ps[1..], k - FRAME_HEADER_SIZE - |ps[0]|))
  }

  /** Nothing is missing of the indexed documents, whatever a later document has met. */
  lemma MissingUnaffected(h: Hashes, json: Bytes -> EnvelopeView, idx: seq<IndexEntry>, st: State, docSeq: uint32, p: Bytes)
    requires |idx| <= docSeq
    ensures Missing(idx, Step(h, json, idx, st, docSeq, false, p), |idx|) == [] <==> Missing(idx, st, |idx|) == []
    ensures Step(h, json, idx, st, docSeq, false, p).corrupt == st.corrupt
  {
    hide Missing;
    var next := Step(h, json, idx, st, docSeq, false, p);
    NoMissing(idx, st, |idx|);
    NoMissing(idx, next, |idx|);
    forall i | 0 <= i < |idx|
      ensures EntryMissing(idx[i], i, next) <==> EntryMissing(idx[i], i, st)
    {
      Wrap32Id(i);
    }
  }

  /** A frame cut short: the verifier stops cleanly inside the header and nowhere else. */
  lemma TornRaw(h: Hashes, docSeq: uint32, index: nat, p: Bytes, last: bool, k: nat)
    requires |p| <= MAX_FRAME_PAYLOAD && k < FRAME_HEADER_SIZE + |p|
    ensures ParseRaw(h, OneFrame(h, docSeq, index, p, last)[..k])
            == Failed(if k < FRAME_HEADER_SIZE then AtEof else Truncated)
  {
    hide ParseHeader, HeaderBytes, Wrap32;
    var flags := FrameFlags(Wrap32(index), last);
    var rest := OneFrame(h, docSeq, index, p, last)[..k];
    if k >= FRAME_HEADER_SIZE {
      ParseWrittenHeader(h, flags, docSeq, Wrap32(index), p);
      assert rest[..FRAME_HEADER_SIZE] == HeaderBytes(h, flags, docSeq, Wrap32(index), p);
    }
  }

  lemma VerifyTornFrame(h: Hashes, json: Bytes -> EnvelopeView, idx: seq<IndexEntry>, st: State,
                        docSeq: uint32, index: nat, p: Bytes, last: bool, k: nat)
    requires |p| <= MAX_FRAME_PAYLOAD && k < FRAME_HEADER_SIZE + |p|
    ensures VerifyFrom(h, json, idx, OneFrame(h, docSeq, index, p, last)[..k], st).corrupt == [] <==>
              st.corrupt == [] && Missing(idx, st, |idx|) == [] && k < FRAME_HEADER_SIZE
  {
    hide OneFrame, Missing, ParseRaw, Step;
    TornRaw(h, docSeq, index, p, last, k);
  }

  /** What the verifier makes of the first k bytes of an unindexed document. */
  lemma {:induction false} VerifyTorn(h: Hashes, json: Bytes -> EnvelopeView, idx: seq<IndexEntry>, st: State,
                                      docSeq: uint32, ps: seq<Bytes>, base: nat, k: nat)
    requires Fits(ps) && k < RunSize(ps) && |idx| <= docSeq
    ensures VerifyFrom(h, json, idx, RunBytes(h, docSeq, ps, true, base)[..k], st).corrupt == [] <==>
              st.corrupt == [] && Missing(idx, st, |idx|) == [] && CutInHeader(ps, k)
    decreases |ps|
  {
    hide OneFrame, Step, Missing, VerifyFrom;
    var last := |ps| == 1;
    var f := OneFrame(h, docSeq, base, ps[0], last);
    var more := RunBytes(h, docSeq, ps[1..], true, base + 1);
    assert ps[0] in ps;
    if k < |f| {
      assert (f + more)[..k] == f[..k];
      VerifyTornFrame(h, json, idx, st, docSeq, base, ps[0], last, k);
    } else {
      assert (f + more)[..k] == f + more[..k - |f|];
      VerifyOneFrame(h, json, idx, st, docSeq, base, ps[0], last, more[..k - |f|]);
      MissingUnaffected(h, json, idx, st, docSeq, ps[0]);
      VerifyTorn(h, json, idx, Step(h, json, idx, st, docSeq, false, ps[0]), docSeq, ps[1..], base + 1, k - |f|);
    }
  }

  /** Over every cut of an append behind any committed documents: the scan recovers if and only
      if the cut is at 0 or right behind a first header with a payload, the verifier is clean if
      and only if the index matches and the cut is on a frame boundary or inside a header.  So they
      agree at 0, and each accepts cuts that the other one rejects. */
  lemma ScanAndVerifierOnTornBlock(h: Hashes, json: Bytes -> EnvelopeView, idx: seq<IndexEntry>,
                                   docs: seq<seq<Bytes>>, ps: seq<Bytes>, k: nat)
    requires AreDocs(docs) && Countable(docs) && |idx| <= |docs| < TWO_32 && IsDoc(ps) && |ps| <= TWO_32 && k < RunSize(ps)
    ensures var file := DocsBytes(h, docs, 0) + DocBytes(h, Wrap32(|docs|), ps)[..k];
            && (Scan(h, file, SCAN_START).Recovered? <==> TornCleanly(ps, k))
            && (VerifyFrom(h, json, idx, file, VERIFY_START).corrupt == [] <==> IndexMatches(h, json, idx, docs) && CutInHeader(ps, k))
  {
    hide DocsBytes, Scan, VerifyFrom, AfterDocs, Missing, IndexMatches, RunBytes, RunSize, CutInHeader, IsDoc, AreDocs, Countable;
    TornAppend(h, docs, ps, k);
    var n := Wrap32(|docs|);
    Wrap32Id(|docs|);
    var st := AfterDocs(h, json, idx, VERIFY_START, docs, 0);
    VerifyDocs(h, json, idx, VERIFY_START, docs, 0, DocBytes(h, n, ps)[..k]);
    VerifyDocs(h, json, idx, VERIFY_START, docs, 0, []);
    assert DocsBytes(h, docs, 0) + [] == DocsBytes(h, docs, 0);
    DocFits(ps);
    VerifyTorn(h, json, idx, st, n, ps, 0, k);
    VerifyNothing(h, json, idx, st);
    VerifyVerdict(h, json, idx, docs);
  }

  lemma DocFits(ps: seq<Bytes>)
    requires IsDoc(ps)
    ensures Fits(ps) && ps != []
  {
  }

  lemma VerifyNothing(h: Hashes, json: Bytes -> EnvelopeView, idx: seq<IndexEntry>, st: State)
    ensures VerifyFrom(h, json, idx, [], st).corrupt == [] <==> st.corrupt == [] && Missing(idx, st, |idx|) == []
  {
    hide Missing;
  }
}
