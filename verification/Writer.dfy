/** The Block writer: append, abort by truncation, close and reopen. */
module BlockWriter {
  import opened Bytes
  import opened Collections
  import opened Storage
  import opened Frame
  import opened Layout

  datatype AppendResult = AppendResult(sha256: Digest, size: nat, frameCount: uint32, firstFrameOffset: nat)

  datatype AppendOutcome = Appended(result: AppendResult) | NotAppended

  /** Refused is the writer rejecting the request; IoFailed is the device. */
  datatype Outcome = Done | Refused | IoFailed

  /** One answer of the frame source passed to AppendDocumentFrameSource. */
  datatype SourceStep = NextFrame(payload: Bytes, last: bool) | SourceEof | SourceFailed

  /** A body cut into maximal frame payloads. */
  function Chunks(body: Bytes, size: nat): (ps: seq<Bytes>)
    requires size > 0
    ensures body == [] <==> ps == []
    decreases |body|
  {
    if body == [] then []
    else if |body| <= size then [body]
    else [body[..size]] + Chunks(body[size..], size)
  }

  /** The chunks make up the body, none is empty and all but the last are full. */
  lemma {:induction false} ChunksMakeBody(body: Bytes, size: nat)
    requires size > 0
    ensures Concat(Chunks(body, size)) == body
    ensures forall c :: c in Chunks(body, size) ==> 0 < |c| <= size
    ensures forall i :: 0 <= i < |Chunks(body, size)| - 1 ==> |Chunks(body, size)[i]| == size
    decreases |body|
  {
    if |body| <= size {
      assert [body][1..] == [];
    } else {
      var first, rest := body[..size], Chunks(body[size..], size);
      ChunksMakeBody(body[size..], size);
      assert Chunks(body, size) == [first] + rest;
      hide Chunks;
      assert ([first] + rest)[1..] == rest;
    }
  }

  /** Writing (part of) a frame behind `before + run` leaves those bytes alone,
      and a whole frame covers any stale header behind them. */
  lemma StreamGrows(before: Bytes, run: Bytes, frame: Bytes, d: Bytes, n: nat)
    requires before + run <= d && n <= |frame| && FRAME_HEADER_SIZE <= |frame|
    requires |d| <= |before| + |run| + FRAME_HEADER_SIZE
    ensures before <= Splice(d, |before| + |run|, frame[..n])
    ensures n == |frame| ==> Splice(d, |before| + |run|, frame[..n]) == before + (run + frame)
  {
    var p := |before| + |run|;
    assert d[..p] == before + run;
    assert frame[..|frame|] == frame;
    assert (before + run) + frame == before + (run + frame);
    assert before <= before + run;
  }

  class Writer {
    const h: Hashes
    const f: File
    const shardId: uint64
    const blockId: uint64
    var offset: nat
    var docSeq: uint32
    var docCount: uint32
    var closed: bool
    /** The documents committed so far, and the header they follow. */
    ghost var docs: seq<seq<Bytes>>
    ghost var header: Bytes

    ghost function Committed(): Bytes
      reads this
      requires AreDocs(docs)
    {
      header + DocsBytes(h, docs, 0)
    }

    /** The committed documents are on disk, whatever an unfinished append left behind them. */
    ghost predicate Intact()
      reads this, f
    {
      && |header| == BLOCK_HEADER_SIZE
      && HeaderAccepted(h, header, shardId, blockId)
      && AreDocs(docs)
      && Committed() <= f.data
    }

    /** Between operations: the append position is right behind the committed
        documents and the counters agree with them. */
    ghost predicate Ready()
      reads this, f
    {
      && Intact()
      && offset == f.pos == |Committed()|
      && docSeq == docCount == Wrap32(|docs|)
      && |f.data| <= offset + FRAME_HEADER_SIZE
    }

    /** In the middle of an append that has written the frames of ps. */
    ghost predicate Streaming(ps: seq<Bytes>, closed_: bool)
      reads this, f
    {
      && Intact() && Fits(ps)
      && docSeq == docCount == Wrap32(|docs|)
      && offset == f.pos == |Committed()| + RunSize(ps)
      && f.pos <= |f.data|
      && f.data[..f.pos] == Committed() + RunBytes(h, docSeq, ps, closed_, 0)
      && |f.data| <= offset + FRAME_HEADER_SIZE && (ps != [] ==> |f.data| == offset)
    }

    constructor (h: Hashes, f: File, shardId: uint64, blockId: uint64,
                 offset: nat, docSeq: uint32, docCount: uint32, ghost header: Bytes, ghost docs: seq<seq<Bytes>>)
      ensures this.h == h && this.f == f && this.shardId == shardId && this.blockId == blockId
      ensures this.offset == offset && this.docSeq == docSeq && this.docCount == docCount
      ensures this.header == header && this.docs == docs && !closed
    {
      this.h, this.f, this.shardId, this.blockId := h, f, shardId, blockId;
      this.offset, this.docSeq, this.docCount, this.closed := offset, docSeq, docCount, false;
      this.header, this.docs := header, docs;
    }

    /** Writes one frame behind the ones already streamed. */
    method EmitFrame(ghost ps: seq<Bytes>, payload: Bytes, frameSeq: uint32, last: bool) returns (ok: bool)
      requires Streaming(ps, false) && frameSeq == Wrap32(|ps|)
      modifies this`offset, f
      ensures ok ==> |payload| <= MAX_FRAME_PAYLOAD && Streaming(ps + [payload], last)
      ensures !ok ==> Intact()
      ensures offset >= old(offset)
      ensures f.healthy && |payload| <= MAX_FRAME_PAYLOAD ==> ok
    {
      hide OneFrame, RunBytes, DocsBytes, HeaderAccepted, Wrap32, Splice;
      ghost var d0, p0 := f.data, f.pos;
      ghost var before := Committed();
      ghost var run := RunBytes(h, docSeq, ps, false, 0);
      ok := WriteStreamedFrame(|ps|, payload, frameSeq, last);
      if |payload| <= MAX_FRAME_PAYLOAD {
        ghost var frame := OneFrame(h, docSeq, |ps|, payload, last);
        ghost var n :| 0 <= n <= |frame| && (ok ==> n == |frame|) && f.pos == p0 + n
                       && f.data == Splice(d0, p0, frame[..n]);
        StreamGrows(before, run, frame, d0, n);
        if ok {
          RunSnoc(h, docSeq, ps, payload, last, 0);
          RunSizeSnoc(ps, payload);
          offset := offset + FRAME_HEADER_SIZE + |payload|;
          assert f.data[..f.pos] == f.data;
        }
      }
    }

    method WriteStreamedFrame(ghost index: nat, payload: Bytes, frameSeq: uint32, last: bool) returns (ok: bool)
      requires frameSeq == Wrap32(index)
      modifies f
      ensures |payload| > MAX_FRAME_PAYLOAD ==> !ok && f.data == old(f.data) && f.pos == old(f.pos)
      ensures |payload| <= MAX_FRAME_PAYLOAD ==>
                var frame := OneFrame(h, docSeq, index, payload, last);
                exists n :: 0 <= n <= |frame| && (ok ==> n == |frame|) && f.pos == old(f.pos) + n
                            && f.data == Splice(old(f.data), old(f.pos), frame[..n])
      ensures f.healthy && |payload| <= MAX_FRAME_PAYLOAD ==> ok
    {
      hide FrameBytes, Splice, Wrap32;
      ghost var d0, p0 := f.data, f.pos;
      ok := WriteFrame(h, f, FrameFlags(frameSeq, last), docSeq, frameSeq, payload);
      if |payload| <= MAX_FRAME_PAYLOAD {
        ghost var frame := OneFrame(h, docSeq, index, payload, last);
        ghost var n :| 0 <= n <= |frame| && (ok ==> n == |frame|) && f.pos == p0 + n
                       && f.data == Splice(d0, p0, frame[..n]);
      }
    }

    /** Counts a fully streamed document in. */
    method CommitDocument(ghost ps: seq<Bytes>)
      requires Streaming(ps, true) && ps != []
      modifies this`docSeq, this`docCount, this`docs
      ensures Ready() && docs == old(docs) + [ps] && f.data == Committed()
    {
      hide RunBytes, DocsBytes, HeaderAccepted, Wrap32, RunSize, AreDocs;
      DocsSnoc(h, docs, ps, 0);
      assert f.data[..f.pos] == f.data;
      assert header + (DocsBytes(h, docs, 0) + DocBytes(h, docSeq, ps)) == Committed() + DocBytes(h, docSeq, ps);
      Wrap32Add(|docs|, 1);
      docs := docs + [ps];
      docSeq := Wrap32(docSeq + 1);
      docCount := Wrap32(docCount + 1);
    }

    lemma StreamingStarts()
      requires Ready()
      ensures Streaming([], false)
    {
      hide DocsBytes, HeaderAccepted;
      assert f.data[..f.pos] == Committed() + RunBytes(h, docSeq, [], false, 0);
    }

    lemma StreamingIsIntact(ps: seq<Bytes>, closed_: bool)
      requires Streaming(ps, closed_)
      ensures Intact() && Fits(ps)
    {
    }

    /** Cuts the body into frames one read ahead of the write, so that the final
        frame is known when its header goes out. */
    method WriteDocFrames(body: Body) returns (ok: bool, frameSeq: uint32, hashed: Bytes)
      requires Streaming([], false)
      modifies this`offset, f, body
      ensures ok ==>
                && !body.faulty && hashed == old(body.rest)
                && var ps := Chunks(old(body.rest), MAX_FRAME_PAYLOAD);
                   Streaming(ps, ps != []) && frameSeq == Wrap32(|ps|)
      ensures !ok ==> Intact()
      ensures offset >= old(offset)
      ensures f.healthy && !body.faulty ==> ok
    {
      hide Streaming, Intact, Chunks, Concat, Wrap32;
      ConcatNil();
      ghost var whole := body.rest;
      ghost var ps: seq<Bytes> := [];
      hashed, frameSeq := [], 0;
      Wrap32Id(0);
      var cur, curErr := body.ReadFull(MAX_FRAME_PAYLOAD);
      assert whole == cur + body.rest;
      assert Concat(Chunks(whole, MAX_FRAME_PAYLOAD)) == whole by {
        ChunksMakeBody(whole, MAX_FRAME_PAYLOAD);
      }
      while true
        invariant Streaming(ps, cur == [] && ps != [])
        invariant offset >= old(offset) && frameSeq == Wrap32(|ps|)
        invariant Chunks(whole, MAX_FRAME_PAYLOAD) == ps + Chunks(cur + body.rest, MAX_FRAME_PAYLOAD)
        invariant hashed == Concat(ps)
        invariant ReadAhead(body, cur, curErr, ps == [])
        decreases |body.rest| + |cur|
      {
        if curErr == Fault {
          StreamingIsIntact(ps, cur == [] && ps != []);
          return false, 0, [];
        }
        if cur == [] {
          assert cur + body.rest == [];
          assert Chunks([], MAX_FRAME_PAYLOAD) == [];
          assert Chunks(whole, MAX_FRAME_PAYLOAD) == ps && hashed == whole;
          return true, frameSeq, hashed;
        }
        var next, nextErr, last := LookAhead(body, cur, curErr, ps == []);
        hashed := hashed + cur;
        ok := EmitFrame(ps, cur, frameSeq, last);
        if !ok {
          return;
        }
        NextChunk(cur, next + body.rest, MAX_FRAME_PAYLOAD);
        ConcatSnoc(ps, cur);
        Wrap32Add(|ps|, 1);
        ps := ps + [cur];
        frameSeq := Wrap32(frameSeq + 1);
        cur, next := next, cur;
        curErr := nextErr;
      }
    }

    method AppendDocument(body: Body) returns (r: AppendOutcome)
      requires Ready()
      modifies this, f, body
      ensures header == old(header) && closed == old(closed)
      ensures r.Appended? ==>
                && !closed && !body.faulty && old(body.rest) != []
                && Ready() && f.data == Committed()
                && docs == old(docs) + [Chunks(old(body.rest), MAX_FRAME_PAYLOAD)]
                && Wrap32(|Chunks(old(body.rest), MAX_FRAME_PAYLOAD)|) != 0
                && r.result == AppendResult(h.sha(old(body.rest)), |old(body.rest)|,
                                            Wrap32(|Chunks(old(body.rest), MAX_FRAME_PAYLOAD)|), old(offset))
      ensures r.NotAppended? ==> Intact() && docs == old(docs)
      ensures offset >= old(offset)
      ensures f.healthy && !closed && !body.faulty && Wrap32(|Chunks(old(body.rest), MAX_FRAME_PAYLOAD)|) != 0 ==>
                r.Appended?
    {
      hide Streaming, Intact, Chunks, Wrap32, DocsBytes, HeaderAccepted, AreDocs, RunBytes;
      if closed {
        return NotAppended;
      }
      var first := offset;
      StreamingStarts();
      var ok, frameSeq, hashed := WriteDocFrames(body);
      if !ok {
        return NotAppended;
      }
      ghost var ps := Chunks(hashed, MAX_FRAME_PAYLOAD);
      StreamingIsIntact(ps, ps != []);
      if frameSeq == 0 {
        return NotAppended;
      }
      var synced := f.Sync();
      if !synced {
        return NotAppended;
      }
      Wrap32Id(0);
      CommitDocument(ps);
      r := Appended(AppendResult(h.sha(hashed), |hashed|, frameSeq, first));
    }

    method WritePayloads(payloads: seq<Bytes>) returns (ok: bool)
      requires Streaming([], false) && payloads != []
      modifies this`offset, f
      ensures ok ==> Streaming(payloads, true)
      ensures !ok ==> Intact()
      ensures offset >= old(offset)
      ensures f.healthy && Fits(payloads) ==> ok
    {
      hide Streaming, Intact, Wrap32;
      for i := 0 to |payloads|
        invariant Streaming(payloads[..i], i == |payloads|) && offset >= old(offset)
      {
        ok := EmitFrame(payloads[..i], payloads[i], Wrap32(i), i == |payloads| - 1);
        if !ok {
          return;
        }
        assert payloads[..i] + [payloads[i]] == payloads[..i + 1];
      }
      assert payloads[..|payloads|] == payloads;
      ok := true;
    }

    /** Appends frames prepared by the caller, who also supplies digest and size. */
    method AppendDocumentFrames(payloads: seq<Bytes>, sha256: Digest, size: int64) returns (r: AppendOutcome)
      requires Ready()
      modifies this, f
      ensures header == old(header) && closed == old(closed)
      ensures r.Appended? ==>
                && !closed && size >= 0 && IsDoc(payloads)
                && Ready() && f.data == Committed() && docs == old(docs) + [payloads]
                && r.result == AppendResult(sha256, size, Wrap32(|payloads|), old(offset))
      ensures r.NotAppended? ==> Intact() && docs == old(docs)
      ensures offset >= old(offset)
      ensures f.healthy && !closed && size >= 0 && IsDoc(payloads) ==> r.Appended?
    {
      hide Streaming, Intact, Wrap32, DocsBytes, HeaderAccepted, AreDocs, RunBytes;
      if closed || size < 0 || payloads == [] {
        return NotAppended;
      }
      var first := offset;
      StreamingStarts();
      var ok := WritePayloads(payloads);
      if !ok {
        return NotAppended;
      }
      StreamingIsIntact(payloads, true);
      var synced := f.Sync();
      if !synced {
        return NotAppended;
      }
      CommitDocument(payloads);
      r := Appended(AppendResult(sha256, size, Wrap32(|payloads|), first));
    }

    /** Streams frames out of a source that answers step by step. */
    method StreamFrames(steps: seq<SourceStep>) returns (ok: bool, frameSeq: uint32)
      requires Streaming([], false)
      requires exists j :: 0 <= j < |steps| && Final(steps[j])
      modifies this`offset, f
      ensures ok ==> Streamed(steps).Some? && Streaming(Streamed(steps).value, true)
                     && frameSeq == Wrap32(|Streamed(steps).value|)
      ensures !ok ==> Intact()
      ensures offset >= old(offset)
      ensures f.healthy && Streamed(steps).Some? && Fits(Streamed(steps).value) ==> ok
    {
      hide Streaming, Intact, Wrap32, Prepend;
      Wrap32Id(0);
      ghost var ps: seq<Bytes> := [];
      var i := 0;
      frameSeq := 0;
      PrependMore([], [], Streamed(steps));
      assert steps[0..] == steps;
      while true
        invariant 0 <= i <= |steps| && exists j :: i <= j < |steps| && Final(steps[j])
        invariant Streaming(ps, false) && offset >= old(offset) && frameSeq == Wrap32(|ps|)
        invariant Streamed(steps) == Prepend(ps, Streamed(steps[i..]))
        decreases |steps| - i
      {
        var step := steps[i];
        StreamedStep(steps, i, ps);
        if !step.NextFrame? {
          StreamingIsIntact(ps, false);
          return false, 0;
        }
        ok := EmitFrame(ps, step.payload, frameSeq, step.last);
        if !ok {
          return;
        }
        Wrap32Add(|ps|, 1);
        ps := ps + [step.payload];
        frameSeq := Wrap32(frameSeq + 1);
        if step.last {
          return;
        }
        i := i + 1;
      }
    }

    method AppendDocumentFrameSource(steps: seq<SourceStep>) returns (ok: bool, first: nat, frameSeq: uint32)
      requires Ready()
      requires exists j :: 0 <= j < |steps| && Final(steps[j])
      modifies this, f
      ensures header == old(header) && closed == old(closed)
      ensures ok ==>
                && !closed && Streamed(steps).Some?
                && Ready() && f.data == Committed() && docs == old(docs) + [Streamed(steps).value]
                && first == old(offset) && frameSeq == Wrap32(|Streamed(steps).value|)
      ensures !ok ==> Intact() && docs == old(docs)
      ensures offset >= old(offset)
      ensures f.healthy && !closed && Streamed(steps).Some? && Fits(Streamed(steps).value) ==> ok
    {
      hide Streaming, Intact, Wrap32, DocsBytes, HeaderAccepted, AreDocs, RunBytes;
      first := offset;
      if closed {
        return false, 0, 0;
      }
      StreamingStarts();
      ok, frameSeq := StreamFrames(steps);
      if ok {
        StreamingIsIntact(Streamed(steps).value, true);
        ok := f.Sync();
        if ok {
          CommitDocument(Streamed(steps).value);
        }
      }
    }

    /** Cuts the file and re-derives offset and counters from what survives.
        `keep` names how many committed documents lie before the cut. */
    method Truncate(target: nat, ghost keep: nat) returns (r: Outcome)
      requires keep <= |docs|
      modifies this, f
      ensures header == old(header) && closed == old(closed)
      ensures target < BLOCK_HEADER_SIZE || target > old(offset) ==>
                r == Refused && docs == old(docs) && offset == old(offset) && f.data == old(f.data)
      ensures f.healthy ==> r != IoFailed
      ensures old(Intact()) && target == old(BoundaryAfter(keep)) <= old(offset) ==>
                && r != Refused
                && (r == Done ==> Ready() && docs == old(docs)[..keep] && f.data == Committed())
                && (r == IoFailed ==> docs == old(docs) && offset == old(offset)
                                      && (keep == |docs| ==> Intact()))
    {
      hide DocsBytes, Scan, HeaderAccepted;
      if target < BLOCK_HEADER_SIZE || target > offset {
        return Refused;
      }
      ghost var boundary := Intact() && target == BoundaryAfter(keep);
      if boundary {
        BoundaryCut(f.data, keep);
        assert docs[..|docs|] == docs;
      }
      var ok := f.Truncate(target);
      if !ok {
        return IoFailed;
      }
      ok := f.Sync();
      if !ok {
        return IoFailed;
      }
      var state := ScanWriterState(h, f);
      if state.Rejected? {
        return Refused;
      }
      f.Seek(state.offset);
      offset, docSeq, docCount := state.offset, state.docSeq, state.docCount;
      docs := docs[..keep];
      return Done;
    }

    /** File position right behind the first i committed documents. */
    ghost function BoundaryAfter(i: nat): nat
      reads this
      requires i <= |docs|
    {
      if AreDocs(docs) then BLOCK_HEADER_SIZE + |DocsBytes(h, docs[..i], 0)| else 0
    }

    /** Cutting at a document boundary leaves the header and the documents before it. */
    lemma BoundaryCut(data: Bytes, i: nat)
      requires |header| == BLOCK_HEADER_SIZE && AreDocs(docs) && i <= |docs| && Committed() <= data
      ensures var cut := BoundaryAfter(i);
              && AreDocs(docs[..i]) && cut <= |data|
              && data[..cut] == header + DocsBytes(h, docs[..i], 0)
              && data[..cut][BLOCK_HEADER_SIZE..] == DocsBytes(h, docs[..i], 0)
              && Scan(h, DocsBytes(h, docs[..i], 0), SCAN_START) == Recovered(cut, Wrap32(i), Wrap32(i))
    {
      hide DocsBytes, Scan;
      DocsSplit(h, docs, i, 0);
      ScanRecovers(h, docs[..i]);
      var cut := BoundaryAfter(i);
      assert Committed()[..cut] == header + DocsBytes(h, docs[..i], 0);
      assert data[..cut] == Committed()[..cut];
    }
  }

  /** The recovery scan: a counter loop over the frames behind the header. */
  method ScanWriterState(h: Hashes, f: File) returns (r: ScanResult)
    modifies f`pos
    ensures r == Scan(h, if |f.data| >= BLOCK_HEADER_SIZE then f.data[BLOCK_HEADER_SIZE..] else [], SCAN_START)
  {
    hide ParseFrame;
    f.Seek(BLOCK_HEADER_SIZE);
    var offset: nat, docSeq: uint32, frameSeq: uint32, docCount: uint32 := BLOCK_HEADER_SIZE, 0, 0, 0;
    ghost var all := f.Rest();
    while true
      invariant Scan(h, all, SCAN_START) == Scan(h, f.Rest(), ScanState(offset, docSeq, frameSeq, docCount))
      decreases |f.Rest()|
    {
      var frame := ReadFrame(h, f);
      if frame.Failed? {
        if frame.error != AtEof {
          return Rejected(UnreadableFrame(frame.error));
        }
        if frameSeq != 0 {
          return Rejected(IncompleteDocument);
        }
        return Recovered(offset, docSeq, docCount);
      }
      if !InSequence(frame.hdr, ScanState(offset, docSeq, frameSeq, docCount)) {
        return Rejected(OutOfSequence);
      }
      offset := offset + FRAME_HEADER_SIZE + |frame.payload|;
      if IsLast(frame.hdr.flags) {
        docSeq := Wrap32(docSeq + 1);
        docCount := Wrap32(docCount + 1);
        frameSeq := 0;
      } else {
        frameSeq := Wrap32(frameSeq + 1);
      }
    }
  }

  predicate Final(step: SourceStep) { !step.NextFrame? || step.last }

  /** The payloads a source delivers up to its last frame, if it gets that far. */
  function Streamed(steps: seq<SourceStep>): (r: Option<seq<Bytes>>)
  {
    if steps == [] || !steps[0].NextFrame? then None
    else if steps[0].last then Some([steps[0].payload])
    else Prepend([steps[0].payload], Streamed(steps[1..]))
  }

  lemma StreamedStep(steps: seq<SourceStep>, i: nat, ps: seq<Bytes>)
    requires i < |steps|
    requires Streamed(steps) == Prepend(ps, Streamed(steps[i..]))
    ensures !steps[i].NextFrame? ==> Streamed(steps) == None
    ensures steps[i].NextFrame? ==>
              && Streamed(steps) == (if steps[i].last then Some(ps + [steps[i].payload])
                                     else Prepend(ps + [steps[i].payload], Streamed(steps[i + 1..])))
              && (Streamed(steps).Some? ==> steps[i].payload in Streamed(steps).value)
  {
    assert steps[i..][1..] == steps[i + 1..];
    if steps[i].NextFrame? {
      PrependMore(ps, [steps[i].payload], Streamed(steps[i + 1..]));
      if Streamed(steps).Some? {
        assert Streamed(steps).value[|ps|] == steps[i].payload;
      }
    }
  }

  /** What the look-ahead knows of the chunk in hand and the rest of the body. */
  ghost predicate ReadAhead(body: Body, cur: Bytes, curErr: ReadError, first: bool)
    reads body
  {
    && |cur| <= MAX_FRAME_PAYLOAD
    && (curErr == NoError && cur != [] ==> |cur| == MAX_FRAME_PAYLOAD)
    && (curErr == NoError && cur == [] ==> !first && !body.faulty && body.rest == [])
    && (curErr != NoError ==> body.rest == [])
    && (curErr == Fault <==> curErr != NoError && body.faulty)
    && (curErr == Eof ==> cur == [])
  }

  /** Reads the chunk behind the one in hand, to know whether that one is the last. */
  method LookAhead(body: Body, cur: Bytes, curErr: ReadError, ghost first: bool)
    returns (next: Bytes, nextErr: ReadError, last: bool)
    requires ReadAhead(body, cur, curErr, first) && cur != [] && curErr != Fault
    modifies body
    ensures old(body.rest) == next + body.rest && ReadAhead(body, next, nextErr, false)
    ensures last <==> next == []
    ensures next + body.rest != [] ==> |cur| == MAX_FRAME_PAYLOAD
  {
    next, nextErr := [], NoError;
    if curErr == NoError {
      next, nextErr := body.ReadFull(MAX_FRAME_PAYLOAD);
    }
    last := curErr == Eof || curErr == UnexpectedEof || next == [];
  }

  lemma NextChunk(cur: Bytes, rest: Bytes, size: nat)
    requires 0 < |cur| <= size && (rest != [] ==> |cur| == size)
    ensures Chunks(cur + rest, size) == [cur] + Chunks(rest, size)
  {
    if rest == [] {
      assert cur + rest == cur;
    } else {
      assert (cur + rest)[..|cur|] == cur && (cur + rest)[|cur|..] == rest;
    }
  }

  lemma {:induction false} RunSizeSnoc(ps: seq<Bytes>, p: Bytes)
    ensures RunSize(ps + [p]) == RunSize(ps) + FRAME_HEADER_SIZE + |p|
  {
    if ps == [] {
      assert [p][1..] == [];
    } else {
      assert (ps + [p])[1..] == ps[1..] + [p];
      RunSizeSnoc(ps[1..], p);
    }
  }

  lemma HeaderIsPrefix(h: Hashes, data: Bytes, shardId: uint64, blockId: uint64)
    requires |data| >= BLOCK_HEADER_SIZE
    ensures HeaderAccepted(h, data, shardId, blockId)
            == HeaderAccepted(h, data[..BLOCK_HEADER_SIZE], shardId, blockId)
  {
    hide FromLE;
    var d := data[..BLOCK_HEADER_SIZE];
    assert d[..4] == data[..4] && d[4..6] == data[4..6] && d[6..8] == data[6..8];
    assert d[8..16] == data[8..16] && d[16..24] == data[16..24];
    assert d[36..40] == data[36..40] && d[..36] == data[..36];
  }

  /** Creates an empty Block; null when the device refuses the header. */
  method NewWriter(h: Hashes, shardId: uint64, blockId: uint64, createdUs: int64, healthy: bool) returns (w: Writer?)
    ensures healthy ==> w != null
    ensures w != null ==> fresh(w) && fresh(w.f) && w.f.healthy == healthy
                          && w.h == h && w.shardId == shardId && w.blockId == blockId && !w.closed
                          && w.Ready() && w.docs == [] && w.f.data == w.header == BlockHeader(h, shardId, blockId, createdUs)
  {
    hide BlockHeader, HeaderAccepted;
    var f := new File([], healthy);
    var header := BlockHeader(h, shardId, blockId, createdUs);
    var ok := f.Write(header);
    if !ok {
      return null;
    }
    HeaderIdentity(h, shardId, blockId, createdUs, [], shardId, blockId);
    assert header + [] == header && header[..BLOCK_HEADER_SIZE] == header;
    w := new Writer(h, f, shardId, blockId, BLOCK_HEADER_SIZE, 0, 0, header, []);
    assert w.Committed() == header;
  }

  /** Reopens a Block; null when the header or the scan rejects it.  `docs` are
      the documents the caller believes the file to hold. */
  method OpenWriter(h: Hashes, f: File, shardId: uint64, blockId: uint64, ghost docs: seq<seq<Bytes>>)
    returns (w: Writer?)
    modifies f`pos
    ensures w != null <==> HeaderAccepted(h, f.data, shardId, blockId)
                           && Scan(h, f.data[BLOCK_HEADER_SIZE..], SCAN_START).Recovered?
    ensures w != null ==>
              && fresh(w) && w.f == f && w.h == h && w.shardId == shardId && w.blockId == blockId && !w.closed
              && Scan(h, f.data[BLOCK_HEADER_SIZE..], SCAN_START) == Recovered(w.offset, w.docSeq, w.docCount)
              && w.header == f.data[..BLOCK_HEADER_SIZE] && w.docs == docs
    ensures w != null && AtEndOf(w, docs) ==> w.Ready()
  {
    hide HeaderAccepted, Scan, DocsBytes, Wrap32;
    if |f.data| < BLOCK_HEADER_SIZE || !HeaderAccepted(h, f.data, shardId, blockId) {
      HeaderTooShort(h, f.data, shardId, blockId);
      return null;
    }
    HeaderIsPrefix(h, f.data, shardId, blockId);
    var state := ScanWriterState(h, f);
    if state.Rejected? {
      return null;
    }
    f.Seek(state.offset);
    w := new Writer(h, f, shardId, blockId, state.offset, state.docSeq, state.docCount,
                    f.data[..BLOCK_HEADER_SIZE], docs);
  }

  lemma HeaderTooShort(h: Hashes, data: Bytes, shardId: uint64, blockId: uint64)
    ensures HeaderAccepted(h, data, shardId, blockId) ==> |data| >= BLOCK_HEADER_SIZE
  {
  }

  /** The file starts with the frames of docs and the writer stands right behind
      them, at most one stale frame header from the end. */
  ghost predicate AtEndOf(w: Writer, docs: seq<seq<Bytes>>)
    reads w, w.f
  {
    && |w.f.data| >= BLOCK_HEADER_SIZE && AreDocs(docs)
    && w.f.data[..BLOCK_HEADER_SIZE] + DocsBytes(w.h, docs, 0) <= w.f.data
    && w.offset == BLOCK_HEADER_SIZE + |DocsBytes(w.h, docs, 0)|
    && w.docSeq == w.docCount == Wrap32(|docs|)
    && |w.f.data| <= w.offset + FRAME_HEADER_SIZE
  }

  /** Reopening after a crash left k bytes of an append behind the committed documents: it
      succeeds exactly where the tear looks like a clean end, and is then ready to append
      right behind those documents. */
  method ReopenAfterCrash(h: Hashes, shardId: uint64, blockId: uint64, f: File, ghost createdUs: int64,
                          ghost docs: seq<seq<Bytes>>, ghost ps: seq<Bytes>, ghost k: nat) returns (w: Writer?)
    requires AreDocs(docs) && IsDoc(ps) && |ps| <= TWO_32 && k < RunSize(ps)
    requires f.data == BlockHeader(h, shardId, blockId, createdUs)
                       + (DocsBytes(h, docs, 0) + DocBytes(h, Wrap32(|docs|), ps)[..k])
    modifies f`pos
    ensures w != null <==> TornCleanly(ps, k)
    ensures w != null ==> w.Ready() && w.f == f && w.docs == docs && w.docSeq == w.docCount == Wrap32(|docs|)
  {
    hide BlockHeader, HeaderAccepted, DocsBytes, DocBytes, Scan, RunSize, IsDoc, AreDocs;
    ghost var header, committed := BlockHeader(h, shardId, blockId, createdUs), DocsBytes(h, docs, 0);
    ghost var torn := DocBytes(h, Wrap32(|docs|), ps)[..k];
    assert f.data[BLOCK_HEADER_SIZE..] == committed + torn && f.data[..BLOCK_HEADER_SIZE] == header;
    HeaderIdentity(h, shardId, blockId, createdUs, committed + torn, shardId, blockId);
    TornAppend(h, docs, ps, k);
    ScanRecovers(h, docs);
    w := OpenWriter(h, f, shardId, blockId, docs);
    assert header + committed <= f.data by {
      assert f.data == (header + committed) + torn;
    }
  }

  // ------------------------------------------------------------------ histories

  /** One step of a writer's life.  An append may be rolled back although it
      succeeded, as when replication of the document fails; a crash leaves the
      first k bytes of an append in the file, which is then opened again. */
  datatype Op =
    | AppendBody(contents: Bytes, faulty: bool, rollBack: bool)
    | AppendFrames(payloads: seq<Bytes>, sha256: Digest, size: int64, rollBack: bool)
    | AppendSource(steps: seq<SourceStep>, rollBack: bool)
    | Reopen
    | Crash(torn: seq<Bytes>, k: nat)

  predicate ValidOp(op: Op)
  {
    && (op.AppendSource? ==> exists j :: 0 <= j < |op.steps| && Final(op.steps[j]))
    && (op.Crash? ==> IsDoc(op.torn) && |op.torn| <= TWO_32 && op.k <= RunSize(op.torn))
  }

  predicate Appends(op: Op) { !op.Reopen? && !op.Crash? }

  /** The document an operation would commit. */
  ghost function DocOf(op: Op): seq<Bytes>
  {
    match op
    case AppendBody(contents, _, _) => Chunks(contents, MAX_FRAME_PAYLOAD)
    case AppendFrames(payloads, _, _, _) => payloads
    case AppendSource(steps, _) => if Streamed(steps).Some? then Streamed(steps).value else []
    case Reopen => []
    case Crash(torn, _) => torn
  }

  /** Operations that a healthy device leaves committed; a crash behind the last byte is one. */
  ghost predicate Commits(op: Op)
  {
    match op
    case AppendBody(contents, faulty, rollBack) =>
      !faulty && !rollBack && Wrap32(|Chunks(contents, MAX_FRAME_PAYLOAD)|) != 0
    case AppendFrames(payloads, _, size, rollBack) => size >= 0 && IsDoc(payloads) && !rollBack
    case AppendSource(steps, rollBack) => Streamed(steps).Some? && Fits(Streamed(steps).value) && !rollBack
    case Reopen => false
    case Crash(torn, k) => k == RunSize(torn)
  }

  /** The documents of the operations that should commit, in order. */
  ghost function CommittedDocs(ops: seq<Op>): seq<seq<Bytes>>
  {
    if ops == [] then []
    else CommittedDocs(ops[..|ops| - 1]) + if Commits(ops[|ops| - 1]) then [DocOf(ops[|ops| - 1])] else []
  }

  /** A crash the recovery scan gets over. */
  predicate Survives(op: Op)
    requires ValidOp(op)
  {
    op.Crash? ==> TornCleanly(op.torn, op.k) || op.k == RunSize(op.torn)
  }

  /** The document whose first frame header, and no more, lies behind the committed ones. */
  function LeftOver(ops: seq<Op>): (stale: seq<Bytes>)
    ensures IsStale(stale)
  {
    if ops == [] then []
    else
      var op := ops[|ops| - 1];
      if op.Reopen? || (op.Crash? && op.k == 0) then LeftOver(ops[..|ops| - 1])
      else if op.Crash? && op.k == FRAME_HEADER_SIZE && IsStale(op.torn) then op.torn
      else []
  }

  predicate IsStale(stale: seq<Bytes>)
  {
    stale != [] ==> IsDoc(stale) && |stale| <= TWO_32 && stale[0] != []
  }

  ghost function StaleHeader(h: Hashes, docSeq: uint32, stale: seq<Bytes>): (s: Bytes)
    requires IsStale(stale)
    ensures |s| == if stale == [] then 0 else FRAME_HEADER_SIZE
  {
    if stale == [] then [] else DocBytes(h, docSeq, stale)[..FRAME_HEADER_SIZE]
  }

  /** A stale header does not disturb the scan. */
  lemma StaleScan(h: Hashes, docs: seq<seq<Bytes>>, stale: seq<Bytes>)
    requires AreDocs(docs) && IsStale(stale)
    ensures Scan(h, DocsBytes(h, docs, 0) + StaleHeader(h, Wrap32(|docs|), stale), SCAN_START)
            == Recovered(BLOCK_HEADER_SIZE + |DocsBytes(h, docs, 0)|, Wrap32(|docs|), Wrap32(|docs|))
  {
    hide DocsBytes, DocBytes, Scan, Wrap32;
    ScanRecovers(h, docs);
    if stale == [] {
      assert DocsBytes(h, docs, 0) + [] == DocsBytes(h, docs, 0);
    } else {
      TornAppend(h, docs, stale, FRAME_HEADER_SIZE);
    }
  }

  method PerformAppend(w: Writer, op: Op) returns (ok: bool)
    requires w.Ready() && ValidOp(op) && Appends(op)
    modifies w, w.f
    ensures w.header == old(w.header) && w.closed == old(w.closed)
    ensures ok ==> w.Ready() && w.docs == old(w.docs) + [DocOf(op)] && w.f.data == w.Committed()
    ensures !ok ==> w.Intact() && w.docs == old(w.docs)
    ensures w.offset >= old(w.offset)
    ensures ok && !op.rollBack ==> Commits(op)
    ensures w.f.healthy && !w.closed && Commits(op) ==> ok
  {
    hide Chunks, Streamed, DocsBytes, HeaderAccepted, Wrap32;
    match op {
      case AppendBody(contents, faulty, _) =>
        var body := new Body(contents, faulty);
        var r := w.AppendDocument(body);
        ok := r.Appended?;
      case AppendFrames(payloads, sha256, size, _) =>
        var r := w.AppendDocumentFrames(payloads, sha256, size);
        ok := r.Appended?;
      case AppendSource(steps, _) =>
        var first, frameSeq;
        ok, first, frameSeq := w.AppendDocumentFrameSource(steps);
        assert ok ==> IsDoc(w.docs[|w.docs| - 1]) && w.docs[|w.docs| - 1] == Streamed(steps).value;
    }
  }

  /** Opening a file of this writer's Block again, a stale header behind the documents or not. */
  method ReopenWriter(w: Writer, f: File, ghost docs: seq<seq<Bytes>>, ghost stale: seq<Bytes>) returns (w': Writer?)
    requires w.Intact() && AreDocs(docs) && IsStale(stale)
    requires f.data == w.header + DocsBytes(w.h, docs, 0) + StaleHeader(w.h, Wrap32(|docs|), stale)
    modifies f`pos
    ensures w' != null && fresh(w') && w'.f == f && w'.h == w.h
    ensures w'.Ready() && !w'.closed && w'.header == w.header && w'.docs == docs
  {
    hide HeaderAccepted, Scan, DocsBytes, DocBytes, Wrap32;
    ghost var data := f.data;
    ghost var behind := DocsBytes(w.h, docs, 0) + StaleHeader(w.h, Wrap32(|docs|), stale);
    assert data == w.header + behind;
    assert data[..BLOCK_HEADER_SIZE] == w.header && data[BLOCK_HEADER_SIZE..] == behind;
    HeaderIsPrefix(w.h, data, w.shardId, w.blockId);
    StaleScan(w.h, docs, stale);
    w' := OpenWriter(w.h, f, w.shardId, w.blockId, docs);
  }

  /** What a crash after k bytes makes of a file with a stale header behind its documents. */
  lemma CrashBytes(h: Hashes, committed: Bytes, docSeq: uint32, stale: seq<Bytes>, op: Op)
    requires op.Crash? && ValidOp(op) && Survives(op) && IsStale(stale)
    ensures var file := Splice(committed + StaleHeader(h, docSeq, stale), |committed|, DocBytes(h, docSeq, op.torn)[..op.k]);
            if op.k == 0 then file == committed + StaleHeader(h, docSeq, stale)
            else if op.k == RunSize(op.torn) then file == committed + DocBytes(h, docSeq, op.torn)
            else IsStale(op.torn) && file == committed + StaleHeader(h, docSeq, op.torn)
  {
    hide DocBytes;
    var whole := DocBytes(h, docSeq, op.torn);
    assert whole[..|whole|] == whole;
    assert (committed + StaleHeader(h, docSeq, stale))[..|committed|] == committed;
  }

  /** The process dies in the middle of an append and the Block is opened again. */
  method CrashAndReopen(w: Writer, op: Op, ghost stale: seq<Bytes>, ghost left: seq<Bytes>) returns (w': Writer?)
    requires w.Ready() && op.Crash? && ValidOp(op) && Survives(op) && IsStale(stale) && IsStale(left)
    requires w.f.data == w.Committed() + StaleHeader(w.h, w.docSeq, stale)
    requires left == if op.k == 0 then stale else if op.k == RunSize(op.torn) then [] else op.torn
    ensures w' != null && fresh(w') && fresh(w'.f) && w'.h == w.h && w'.f.healthy == w.f.healthy
    ensures w'.Ready() && !w'.closed && w'.header == w.header
    ensures w'.docs == if Commits(op) then w.docs + [op.torn] else w.docs
    ensures w'.f.data == w'.Committed() + StaleHeader(w.h, w'.docSeq, left)
  {
    hide HeaderAccepted, DocsBytes, DocBytes, Wrap32, RunSize, Fits;
    var f := new File(Splice(w.f.data, w.offset, DocBytes(w.h, w.docSeq, op.torn)[..op.k]), w.f.healthy);
    CrashBytes(w.h, w.Committed(), w.docSeq, stale, op);
    ghost var docs := w.docs;
    if op.k == RunSize(op.torn) {
      DocsSnoc(w.h, docs, op.torn, 0);
      docs := docs + [op.torn];
      assert f.data == w.header + DocsBytes(w.h, docs, 0) + [];
    }
    w' := ReopenWriter(w, f, docs, left);
  }

  /** Any history of appends, failed or rolled-back appends, crashes and reopens.  As long
      as the device lets roll-backs complete and no crash leaves a tear the scan may refuse
      (otherwise null is returned), the file is exactly the header, the frames of the documents
      kept, numbered from 0 in order, and the frame header a last crash may have left; the
      writer's counters are the ones a scan of that file recovers. */
  method RunHistory(h: Hashes, shardId: uint64, blockId: uint64, createdUs: int64, healthy: bool, ops: seq<Op>)
    returns (w: Writer?)
    requires forall op :: op in ops ==> ValidOp(op)
    ensures healthy && (forall op :: op in ops ==> Survives(op)) ==> w != null && w.docs == CommittedDocs(ops)
    ensures w != null ==>
              && fresh(w) && fresh(w.f) && Subsequence(w.docs, CommittedDocs(ops)) && AreDocs(w.docs)
              && w.f.data == BlockHeader(h, shardId, blockId, createdUs) + DocsBytes(h, w.docs, 0)
                             + StaleHeader(h, w.docSeq, LeftOver(ops))
              && w.docSeq == w.docCount == Wrap32(|w.docs|) && w.offset == BLOCK_HEADER_SIZE + |DocsBytes(h, w.docs, 0)|
              && Scan(h, w.f.data[BLOCK_HEADER_SIZE..], SCAN_START) == Recovered(w.offset, w.docSeq, w.docCount)
  {
    hide BlockHeader, HeaderAccepted, DocsBytes, Scan, ValidOp, Survives, Commits, CommittedDocs, Subsequence, DocOf,
         LeftOver, StaleHeader, IsStale, TornCleanly, Wrap32;
    w := NewWriter(h, shardId, blockId, createdUs, healthy);
    if w == null {
      return;
    }
    NothingCommitted(h, w.docSeq);
    assert w.f.data == w.Committed() + [];
    for i := 0 to |ops|
      invariant w != null && fresh(w) && fresh(w.f) && w.h == h && w.f.healthy == healthy && !w.closed && w.Ready()
      invariant w.f.data == w.Committed() + StaleHeader(h, w.docSeq, LeftOver(ops[..i]))
      invariant w.header == BlockHeader(h, shardId, blockId, createdUs)
      invariant healthy ==> w.docs == CommittedDocs(ops[..i])
      invariant Subsequence(w.docs, CommittedDocs(ops[..i]))
    {
      var op := ops[i];
      ghost var docs := w.docs;
      HistoryGrows(docs, ops, i);
      if op.Reopen? {
        w := ReopenWriter(w, w.f, w.docs, LeftOver(ops[..i]));
      } else if op.Crash? {
        if !Survives(op) {
          return null;
        }
        w := CrashAndReopen(w, op, LeftOver(ops[..i]), LeftOver(ops[..i + 1]));
      } else {
        var start := w.offset;
        assert docs[..|docs|] == docs;
        var ok := PerformAppend(w, op);
        if !ok || op.rollBack {
          assert w.docs[..|docs|] == docs;
          assert w.BoundaryAfter(|docs|) == start;
          var r := w.Truncate(start, |docs|);
          if r != Done {
            return null;
          }
        }
        NothingStale(h, w.docSeq);
        assert w.f.data == w.Committed() + [];
      }
    }
    assert ops[..|ops|] == ops;
    StaleScan(h, w.docs, LeftOver(ops));
    assert w.f.data[BLOCK_HEADER_SIZE..] == DocsBytes(h, w.docs, 0) + StaleHeader(h, w.docSeq, LeftOver(ops));
  }

  lemma NothingStale(h: Hashes, docSeq: uint32)
    ensures IsStale([]) && StaleHeader(h, docSeq, []) == []
  {
  }

  lemma NothingCommitted(h: Hashes, docSeq: uint32)
    ensures CommittedDocs([]) == [] && Subsequence<seq<Bytes>>([], []) && LeftOver([]) == []
    ensures StaleHeader(h, docSeq, []) == []
  {
  }

  /** What one more operation may add to a history. */
  lemma HistoryGrows(docs: seq<seq<Bytes>>, ops: seq<Op>, i: nat)
    requires i < |ops| && Subsequence(docs, CommittedDocs(ops[..i])) && forall op :: op in ops ==> ValidOp(op)
    ensures var all := CommittedDocs(ops[..i + 1]);
            if Commits(ops[i]) then
              && all == CommittedDocs(ops[..i]) + [DocOf(ops[i])]
              && Subsequence(docs, all) && Subsequence(docs + [DocOf(ops[i])], all)
            else all == CommittedDocs(ops[..i])
    ensures ops[i].Reopen? || (Appends(ops[i]) && ops[i].rollBack) ==> !Commits(ops[i])
    ensures ValidOp(ops[i]) && (ops[i].Crash? ==> DocOf(ops[i]) == ops[i].torn)
    ensures var left := LeftOver(ops[..i + 1]);
            && (Appends(ops[i]) ==> left == [])
            && (ops[i].Reopen? ==> left == LeftOver(ops[..i]))
            && (ops[i].Crash? && Survives(ops[i]) ==>
                  left == if ops[i].k == 0 then LeftOver(ops[..i])
                          else if ops[i].k == RunSize(ops[i].torn) then [] else ops[i].torn)
  {
    hide Subsequence;
    assert ops[..i + 1][..i] == ops[..i];
    SubsequenceGrows(docs, CommittedDocs(ops[..i]), DocOf(ops[i]));
  }
}
