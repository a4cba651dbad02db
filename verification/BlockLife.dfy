/** The four programs over one Block file, tied together: what any history of the writer
    leaves behind is what the recovery scan, the deep verifier and the reader see. */
module BlockLife {
  import opened Bytes
  import opened Collections
  import opened Storage
  import opened Frame
  import opened Layout
  import opened BlockWriter
  import opened Index
  import opened Verify
  import opened Reader
  import opened Repair
  import opened TornBlock

  /** An entry for document i: it points at the first frame, counts the frames, and is
      plaintext with the document's digest or encrypted with an envelope that matches. */
  ghost predicate EntryFor(h: Hashes, json: Bytes -> EnvelopeView, e: IndexEntry, docs: seq<seq<Bytes>>, i: nat)
    requires AreDocs(docs) && i < |docs|
  {
    && e.firstFrameOff == DocOffset(h, docs, i) && e.frameCount == |docs[i]|
    && (if e.envelope == [] then e.sha256 == h.sha(Concat(docs[i])) != ZERO_DIGEST
        else EnvelopeFits(e, json(e.envelope), |Concat(docs[i])|))
  }

  /** The envelope carries the stored length and, where it carries a digest at all, the entry's. */
  predicate EnvelopeFits(e: IndexEntry, view: EnvelopeView, size: nat)
  {
    && view.cipherLength.Length? && view.cipherLength.n == size
    && (view.plainSha.Sha? ==> |view.plainSha.digest| == 32 && view.plainSha.digest == e.sha256 != ZERO_DIGEST)
  }

  /** One readable index entry per committed document. */
  ghost predicate Described(h: Hashes, json: Bytes -> EnvelopeView, entries: seq<IndexEntry>, docs: seq<seq<Bytes>>)
  {
    && AreDocs(docs) && Countable(docs) && AllReadable(entries) && |entries| == |docs|
    && forall i :: 0 <= i < |docs| ==> EntryFor(h, json, entries[i], docs, i)
  }

  /** Entries that describe the documents are entries the deep verifier accepts. */
  lemma DescribedMatches(h: Hashes, json: Bytes -> EnvelopeView, entries: seq<IndexEntry>, docs: seq<seq<Bytes>>)
    requires Described(h, json, entries, docs)
    ensures IndexMatches(h, json, entries, docs) && AllFit(entries)
  {
    hide EntryFor, EntryMatches, Readable, FieldsFit, Countable, AreDocs;
    forall i | 0 <= i < |entries|
      ensures EntryMatches(h, json, entries[i], docs[i])
    {
      EntryForMatches(h, json, entries[i], docs, i);
    }
    forall e | e in entries
      ensures FieldsFit(e)
    {
      ReadableFits(e);
    }
  }

  lemma ReadableFits(e: IndexEntry)
    requires Readable(e)
    ensures FieldsFit(e)
  {
  }

  lemma EntryForMatches(h: Hashes, json: Bytes -> EnvelopeView, e: IndexEntry, docs: seq<seq<Bytes>>, i: nat)
    requires AreDocs(docs) && i < |docs| && EntryFor(h, json, e, docs, i)
    ensures EntryMatches(h, json, e, docs[i])
  {
    hide Concat, DocOffset;
    assert docs[i] in docs;
  }

  /** A healthy copy of a Block passes a peer's checks before it replaces a damaged one,
      and under no other Block's name. */
  lemma ReplacementAccepted(h: Hashes, json: Bytes -> EnvelopeView, shardId: uint64, blockId: uint64, createdUs: int64,
                            docs: seq<seq<Bytes>>, entries: seq<IndexEntry>, asShard: uint64, asBlock: uint64)
    requires Described(h, json, entries, docs) && AllFit(entries)
    ensures var blk := BlockHeader(h, shardId, blockId, createdUs) + DocsBytes(h, docs, 0);
            Verified(h, json, asShard, asBlock, blk, IndexBytes(h, entries)) <==> asShard == shardId && asBlock == blockId
  {
    hide ReadIndex, IndexBytes, VerifyFrom, HeaderAccepted, HeaderIntact, BlockHeader, DocsBytes, IndexMatches, Described;
    Unpacked(h, json, entries, docs);
    var blk := BlockHeader(h, shardId, blockId, createdUs) + DocsBytes(h, docs, 0);
    assert BehindHeader(blk) == DocsBytes(h, docs, 0);
    HeaderIdentity(h, shardId, blockId, createdUs, DocsBytes(h, docs, 0), asShard, asBlock);
    IndexRoundTrip(h, entries);
    VerifyVerdict(h, json, entries, docs);
    DescribedMatches(h, json, entries, docs);
  }

  lemma Unpacked(h: Hashes, json: Bytes -> EnvelopeView, entries: seq<IndexEntry>, docs: seq<seq<Bytes>>)
    requires Described(h, json, entries, docs)
    ensures AreDocs(docs) && Countable(docs) && AllReadable(entries) && |entries| == |docs| <= TWO_32
  {
  }

  /** What a reader gets: plaintext bytes, the stored frames of an encrypted document, or an error. */
  datatype Retrieved = Plain(bytes: Bytes) | Sealed(frames: seq<Bytes>) | NotRetrieved

  /** The document as its entry promises it. */
  function Promised(e: IndexEntry, doc: seq<Bytes>): Retrieved
  {
    if e.envelope == [] then Plain(Concat(doc)) else Sealed(doc)
  }

  /** Plaintext documents are read whole, encrypted ones through a frame source. */
  method ReadEntry(h: Hashes, json: Bytes -> EnvelopeView, f: File, e: IndexEntry, ghost docs: seq<seq<Bytes>>, ghost i: nat)
    returns (r: Retrieved)
    requires AreDocs(docs) && |f.data| >= BLOCK_HEADER_SIZE
    requires f.data[..BLOCK_HEADER_SIZE] + DocsBytes(h, docs, 0) <= f.data
    modifies f`pos
    ensures i < |docs| && EntryFor(h, json, e, docs, i) ==> r == Promised(e, docs[i])
  {
    hide ReadRun, Concat, DocsBytes, AreDocs, EnvelopeFits;
    if i < |docs| && EntryFor(h, json, e, docs, i) {
      EntryReadsBack(h, json, f.data, e, docs, i);
    }
    if e.envelope == [] {
      var read := ReadDocumentTwoPass(h, f, e);
      r := if read.ReadOk? then Plain(read.bytes) else NotRetrieved;
    } else if e.firstFrameOff < 0 {
      r := NotRetrieved;
    } else {
      var source := new StoredFrameSource(h, f, e);
      var frames := Drain(source);
      r := if frames.Some? then Sealed(frames.value) else NotRetrieved;
    }
  }

  /** Reading every entry in turn. */
  method ReadEvery(h: Hashes, json: Bytes -> EnvelopeView, f: File, entries: seq<IndexEntry>, ghost docs: seq<seq<Bytes>>)
    returns (results: seq<Retrieved>)
    requires AreDocs(docs) && |f.data| >= BLOCK_HEADER_SIZE
    requires f.data[..BLOCK_HEADER_SIZE] + DocsBytes(h, docs, 0) <= f.data
    modifies f`pos
    ensures |results| == |entries|
    ensures Described(h, json, entries, docs) ==>
              forall i :: 0 <= i < |results| ==> results[i] == Promised(entries[i], docs[i])
  {
    hide Concat, DocsBytes, AreDocs, EntryFor, Countable, AllReadable;
    results := [];
    for i := 0 to |entries|
      invariant |results| == i
      invariant Described(h, json, entries, docs) ==> forall j :: 0 <= j < i ==> results[j] == Promised(entries[j], docs[j])
    {
      var r := ReadEntry(h, json, f, entries[i], docs, i);
      results := results + [r];
    }
  }

  lemma EntryReadsBack(h: Hashes, json: Bytes -> EnvelopeView, data: Bytes, e: IndexEntry, docs: seq<seq<Bytes>>, i: nat)
    requires AreDocs(docs) && i < |docs| && EntryFor(h, json, e, docs, i) && |data| >= BLOCK_HEADER_SIZE
    requires data[..BLOCK_HEADER_SIZE] + DocsBytes(h, docs, 0) <= data
    ensures e.firstFrameOff >= 0 && (e.envelope == [] ==> e.sha256 == h.sha(Concat(docs[i])) != ZERO_DIGEST)
    ensures ReadRun(h, From(data, e.firstFrameOff), e.frameCount, 0) == Some(docs[i])
  {
    hide ReadRun, DocsBytes, AreDocs, EnvelopeFits;
    var written := data[..BLOCK_HEADER_SIZE] + DocsBytes(h, docs, 0);
    ReadsBack(h, data[..BLOCK_HEADER_SIZE], docs, i, data[|written|..]);
    assert written + data[|written|..] == data;
  }

  /** Any history of commits, appends that fail after any number of bytes or are rolled back,
      crashes and reopens, on a device with any faults; then an index entry, plaintext or
      encrypted, per committed document.  Unless a roll-back, a crash or the index itself ends it,
      the scan recovers the writer's state, the deep verifier counts every frame and finds nothing,
      except the frame header of a last crash, and every document reads back as its entry promises. */
  method LiveAndScrub(h: Hashes, json: Bytes -> EnvelopeView, shardId: uint64, blockId: uint64, createdUs: int64,
                      healthy: bool, ops: seq<BlockWriter.Op>, entries: seq<IndexEntry>)
    returns (w: Writer?, indexed: bool, scrub: Option<VerifyResult>, results: seq<Retrieved>)
    requires forall op :: op in ops ==> ValidOp(op)
    ensures healthy && (forall op :: op in ops ==> Survives(op)) ==> w != null && w.docs == CommittedDocs(ops)
    ensures healthy && AllFit(entries) ==> indexed
    ensures w != null ==>
              && Subsequence(w.docs, CommittedDocs(ops)) && AreDocs(w.docs) && |w.f.data| >= BLOCK_HEADER_SIZE
              && Scan(h, w.f.data[BLOCK_HEADER_SIZE..], SCAN_START) == Recovered(w.offset, w.docSeq, w.docCount)
    ensures w != null && indexed && Described(h, json, entries, w.docs) ==>
              && scrub.Some? && |results| == |w.docs|
              && (LeftOver(ops) == [] ==> scrub.value.corrupt == [] && scrub.value.frames == TotalFrames(w.docs))
              && (LeftOver(ops) != [] && |w.docs| < TWO_32 ==> scrub.value.corrupt != [])
              && forall i :: 0 <= i < |w.docs| ==> results[i] == Promised(entries[i], w.docs[i])
  {
    hide BlockHeader, DocsBytes, Scan, ReadIndex, IndexBytes, VerifyFrom, HeaderIntact, IndexMatches, Described,
         ValidOp, Survives, CommittedDocs, Subsequence, AreDocs, AllFit, Promised, LeftOver, StaleHeader, IsStale, Wrap32;
    w := RunHistory(h, shardId, blockId, createdUs, healthy, ops);
    var contents;
    indexed, contents := WriteIndex(h, entries, healthy);
    scrub, results := None, [];
    if w == null || !indexed {
      return;
    }
    ghost var docs := w.docs;
    if Described(h, json, entries, docs) {
      Unpacked(h, json, entries, docs);
      ScrubVerdict(h, json, shardId, blockId, createdUs, docs, entries, LeftOver(ops));
    }
    var blk := new File(w.f.data, true);
    assert blk.data[..BLOCK_HEADER_SIZE] == BlockHeader(h, shardId, blockId, createdUs);
    results := ReadEvery(h, json, blk, entries, docs);
    var again := new File(w.f.data, true);
    var idx := new File(contents, true);
    var faulted;
    scrub, faulted := VerifyBlock(h, json, again, idx);
  }

  /** The verifier's answer with and without a stale frame header behind the documents. */
  lemma ScrubVerdict(h: Hashes, json: Bytes -> EnvelopeView, shardId: uint64, blockId: uint64, createdUs: int64,
                     docs: seq<seq<Bytes>>, entries: seq<IndexEntry>, stale: seq<Bytes>)
    requires Described(h, json, entries, docs) && AllFit(entries) && IsStale(stale)
    ensures var behind := DocsBytes(h, docs, 0) + StaleHeader(h, Wrap32(|docs|), stale);
            var data := BlockHeader(h, shardId, blockId, createdUs) + DocsBytes(h, docs, 0) + StaleHeader(h, Wrap32(|docs|), stale);
            && HeaderIntact(h, data) && ReadIndex(h, IndexBytes(h, entries)) == Some(entries) && BehindHeader(data) == behind
            && var r := VerifyFrom(h, json, entries, behind, VERIFY_START);
            && (stale == [] ==> r.corrupt == [] && r.frames == TotalFrames(docs))
            && (stale != [] && |docs| < TWO_32 ==> r.corrupt != [])
  {
    hide ReadIndex, IndexBytes, VerifyFrom, HeaderAccepted, HeaderIntact, BlockHeader, DocsBytes, DocBytes, IndexMatches,
         Described, Wrap32, Scan;
    Unpacked(h, json, entries, docs);
    var tail := StaleHeader(h, Wrap32(|docs|), stale);
    var header, behind := BlockHeader(h, shardId, blockId, createdUs), DocsBytes(h, docs, 0) + tail;
    assert header + DocsBytes(h, docs, 0) + tail == header + behind;
    assert BehindHeader(header + behind) == behind;
    HeaderIdentity(h, shardId, blockId, createdUs, behind, shardId, blockId);
    IndexRoundTrip(h, entries);
    DescribedMatches(h, json, entries, docs);
    if stale == [] {
      assert behind == DocsBytes(h, docs, 0);
      VerifyVerdict(h, json, entries, docs);
    } else if |docs| < TWO_32 {
      ScanAndVerifierOnTornBlock(h, json, entries, docs, stale, FRAME_HEADER_SIZE);
    }
  }
}
