/** Reading documents back out of a Block. */
module Reader {
  import opened Bytes
  import opened Collections
  import opened Storage
  import opened Frame
  import opened Layout
  import opened Index

  /** The payloads of frames from, from + 1, ... if they are all readable and in sequence. */
  function ReadRun(h: Hashes, rest: Bytes, count: nat, from: nat): (r: Option<seq<Bytes>>)
    ensures r.Some? ==> |r.value| == count
    decreases count
  {
    if count == 0 then Some([])
    else
      match ParseFrame(h, rest)
      case Failed(_) => None
      case Frame(hdr, payload) =>
        if hdr.frameSeq != Wrap32(from) then None
        else Prepend([payload], ReadRun(h, rest[FRAME_HEADER_SIZE + |payload|..], count - 1, from + 1))
  }

  /** Written frames are read back in order, whatever follows them. */
  lemma {:induction false} ReadRunWritten(h: Hashes, docSeq: uint32, ps: seq<Bytes>, closed: bool, base: nat, tail: Bytes)
    requires Fits(ps)
    ensures ReadRun(h, RunBytes(h, docSeq, ps, closed, base) + tail, |ps|, base) == Some(ps)
    decreases |ps|
  {
    hide OneFrame, ReadRun;
    if ps == [] {
      NothingToRead(h, RunBytes(h, docSeq, ps, closed, base) + tail, base);
    } else {
      var last := closed && |ps| == 1;
      var f := OneFrame(h, docSeq, base, ps[0], last);
      var more := RunBytes(h, docSeq, ps[1..], closed, base + 1);
      assert (f + more) + tail == f + (more + tail);
      ReadOneFrame(h, docSeq, base, ps[0], last, more + tail, |ps| - 1);
      ReadRunWritten(h, docSeq, ps[1..], closed, base + 1, tail);
      assert [ps[0]] + ps[1..] == ps;
    }
  }

  lemma NothingToRead(h: Hashes, rest: Bytes, from: nat)
    ensures ReadRun(h, rest, 0, from) == Some([])
  {
  }

  lemma ReadOneFrame(h: Hashes, docSeq: uint32, index: nat, payload: Bytes, last: bool, tail: Bytes, count: nat)
    requires |payload| <= MAX_FRAME_PAYLOAD
    ensures ReadRun(h, OneFrame(h, docSeq, index, payload, last) + tail, count + 1, index)
            == Prepend([payload], ReadRun(h, tail, count, index + 1))
  {
    hide FrameBytes, ParseFrame, Wrap32;
    var f := OneFrame(h, docSeq, index, payload, last);
    FrameRoundTrip(h, FrameFlags(Wrap32(index), last), docSeq, Wrap32(index), payload, tail);
    assert (f + tail)[|f|..] == tail;
  }

  function From(data: Bytes, off: nat): Bytes { if off <= |data| then data[off..] else [] }

  /** Where document i starts. */
  function DocOffset(h: Hashes, docs: seq<seq<Bytes>>, i: nat): nat
    requires AreDocs(docs) && i <= |docs|
  {
    BLOCK_HEADER_SIZE + |DocsBytes(h, docs[..i], 0)|
  }

  /** Starting at its offset, the frames of any committed document are read back. */
  lemma ReadsBack(h: Hashes, header: Bytes, docs: seq<seq<Bytes>>, i: nat, tail: Bytes)
    requires |header| == BLOCK_HEADER_SIZE && AreDocs(docs) && i < |docs|
    ensures var data := header + DocsBytes(h, docs, 0) + tail;
            ReadRun(h, From(data, DocOffset(h, docs, i)), |docs[i]|, 0) == Some(docs[i])
  {
    hide DocsBytes, RunBytes, ReadRun;
    var data := header + DocsBytes(h, docs, 0) + tail;
    DocsSplit(h, docs, i, 0);
    var before, behind := DocsBytes(h, docs[..i], 0), DocsBytes(h, docs[i..], i);
    DocsCons(h, docs[i..], i);
    var doc, more := DocBytes(h, Wrap32(i), docs[i]), DocsBytes(h, docs[i..][1..], i + 1);
    assert data == (header + before) + (doc + (more + tail));
    assert data[|header + before|..] == doc + (more + tail);
    ReadRunWritten(h, Wrap32(i), docs[i], true, 0, more + tail);
  }

  lemma DocsCons(h: Hashes, docs: seq<seq<Bytes>>, base: nat)
    requires AreDocs(docs) && docs != []
    ensures DocsBytes(h, docs, base) == DocBytes(h, Wrap32(base), docs[0]) + DocsBytes(h, docs[1..], base + 1)
  {
  }

  // ------------------------------------------------------------- the programs

  datatype ReadFailure = EncryptedEntry | ShaMismatch | BadFrame | SeekFailed

  datatype ReadResult = ReadOk(bytes: Bytes) | ReadFailed(why: ReadFailure)

  /** verifyAndSpool: every frame and the digest are checked before any byte is returned. */
  method ReadDocumentTwoPass(h: Hashes, f: File, entry: IndexEntry) returns (r: ReadResult)
    modifies f`pos
    ensures entry.envelope != [] <==> r == ReadFailed(EncryptedEntry)
    ensures r.ReadOk? ==> h.sha(r.bytes) == entry.sha256 != ZERO_DIGEST
    ensures entry.envelope == [] && entry.firstFrameOff >= 0 && entry.sha256 != ZERO_DIGEST ==>
              var ps := ReadRun(h, From(f.data, entry.firstFrameOff), entry.frameCount, 0);
              r == if ps == None then ReadFailed(BadFrame)
                   else if h.sha(Concat(ps.value)) != entry.sha256 then ReadFailed(ShaMismatch)
                   else ReadOk(Concat(ps.value))
  {
    hide ReadRun, Concat;
    if entry.envelope != [] {
      return ReadFailed(EncryptedEntry);
    }
    if entry.firstFrameOff < 0 {
      return ReadFailed(SeekFailed);
    }
    f.Seek(entry.firstFrameOff);
    if entry.sha256 == ZERO_DIGEST {
      return ReadFailed(ShaMismatch);
    }
    var frames := ReadFrames(h, f, entry.frameCount);
    if frames == None {
      return ReadFailed(BadFrame);
    }
    var spool := Spool(frames.value);
    if h.sha(spool) != entry.sha256 {
      return ReadFailed(ShaMismatch);
    }
    r := ReadOk(spool);
  }

  method Spool(frames: seq<Bytes>) returns (spool: Bytes)
    ensures spool == Concat(frames)
  {
    spool := [];
    for i := 0 to |frames|
      invariant spool == Concat(frames[..i])
    {
      ConcatSnoc(frames[..i], frames[i]);
      assert frames[..i + 1] == frames[..i] + [frames[i]];
      spool := spool + frames[i];
    }
    assert frames[..|frames|] == frames;
  }

  /** ReadDocumentFrames from the cursor on. */
  method ReadFrames(h: Hashes, f: File, count: uint32) returns (r: Option<seq<Bytes>>)
    modifies f`pos
    ensures r == ReadRun(h, old(f.Rest()), count, 0)
  {
    hide ParseFrame, Wrap32, ReadRun, Prepend;
    var frames: seq<Bytes> := [];
    ghost var all := ReadRun(h, f.Rest(), count, 0);
    PrependMore([], [], all);
    for i := 0 to count
      invariant all == Prepend(frames, ReadRun(h, f.Rest(), count - i, i))
    {
      ghost var rest := f.Rest();
      var frame := ReadFrame(h, f);
      ReadRunStep(h, rest, count - i, i, frames);
      if frame.Failed? || frame.hdr.frameSeq != Wrap32(i) {
        return None;
      }
      frames := frames + [frame.payload];
    }
    NothingToRead(h, f.Rest(), count);
    NothingBehind(frames);
    r := Some(frames);
  }

  lemma NothingBehind(ps: seq<Bytes>)
    ensures Prepend(ps, Some([])) == Some(ps)
  {
    assert ps + [] == ps;
  }

  /** One turn of the reading loop. */
  lemma ReadRunStep(h: Hashes, rest: Bytes, count: nat, from: nat, frames: seq<Bytes>)
    requires count > 0
    ensures var frame := ParseFrame(h, rest);
            if frame.Failed? || frame.hdr.frameSeq != Wrap32(from) then Prepend(frames, ReadRun(h, rest, count, from)) == None
            else
              |frame.payload| + FRAME_HEADER_SIZE <= |rest|
              && Prepend(frames, ReadRun(h, rest, count, from))
                 == Prepend(frames + [frame.payload],
                            ReadRun(h, rest[FRAME_HEADER_SIZE + |frame.payload|..], count - 1, from + 1))
  {
    hide ParseFrame, Wrap32;
    var frame := ParseFrame(h, rest);
    if frame.Frame? && frame.hdr.frameSeq == Wrap32(from) {
      var more := ReadRun(h, rest[FRAME_HEADER_SIZE + |frame.payload|..], count - 1, from + 1);
      PrependMore(frames, [frame.payload], more);
    }
  }

  /** What an index entry records about a plaintext document. */
  predicate Describes(h: Hashes, e: IndexEntry, docs: seq<seq<Bytes>>, i: nat)
    requires AreDocs(docs) && i < |docs|
  {
    && e.firstFrameOff == DocOffset(h, docs, i) && e.frameCount == |docs[i]|
    && e.envelope == [] && e.sha256 == h.sha(Concat(docs[i])) != ZERO_DIGEST
  }

  /** Reading an entry that describes document i of a Block returns that document. */
  method ReadCommitted(h: Hashes, f: File, entry: IndexEntry, ghost docs: seq<seq<Bytes>>, ghost i: nat) returns (r: ReadResult)
    requires AreDocs(docs) && i < |docs| && Describes(h, entry, docs, i)
    requires |f.data| >= BLOCK_HEADER_SIZE && f.data[..BLOCK_HEADER_SIZE] + DocsBytes(h, docs, 0) <= f.data
    modifies f`pos
    ensures r == ReadOk(Concat(docs[i]))
  {
    hide ReadRun, Concat, DocsBytes, IsDoc;
    ghost var header := f.data[..BLOCK_HEADER_SIZE];
    ghost var committed := header + DocsBytes(h, docs, 0);
    ReadsBack(h, header, docs, i, f.data[|committed|..]);
    assert committed + f.data[|committed|..] == f.data;
    r := ReadDocumentTwoPass(h, f, entry);
  }

  datatype SourceRead = SourceFrame(payload: Bytes) | SourceEnd | SourceError

  /** Streams one document's stored payloads. */
  class StoredFrameSource {
    const h: Hashes
    const f: File
    const entry: IndexEntry
    var frameIdx: uint32

    constructor (h: Hashes, f: File, entry: IndexEntry)
      requires entry.firstFrameOff >= 0
      modifies f`pos
      ensures this.h == h && this.f == f && this.entry == entry && frameIdx == 0
      ensures f.pos == entry.firstFrameOff && f.data == old(f.data)
    {
      this.h, this.f, this.entry, this.frameIdx := h, f, entry, 0;
      new;
      f.Seek(entry.firstFrameOff);
    }

    /** The payloads still to come, if the file holds them all. */
    ghost function Remaining(): Option<seq<Bytes>>
      reads this, f
    {
      if frameIdx <= entry.frameCount then ReadRun(h, f.Rest(), entry.frameCount - frameIdx, frameIdx) else None
    }

    method NextFrame() returns (r: SourceRead)
      requires frameIdx <= entry.frameCount
      modifies this, f`pos
      ensures frameIdx <= entry.frameCount
      ensures r == SourceEnd <==> old(frameIdx) == entry.frameCount
      ensures match r
              case SourceFrame(payload) => old(Remaining()) == Prepend([payload], Remaining())
              case SourceEnd => old(Remaining()) == Some([])
              case SourceError => old(Remaining()) == None
      ensures r.SourceFrame? ==> frameIdx == old(frameIdx) + 1
    {
      hide ParseFrame;
      if frameIdx == entry.frameCount {
        return SourceEnd;
      }
      var frame := ReadFrame(h, f);
      if frame.Failed? || frame.hdr.frameSeq != frameIdx {
        return SourceError;
      }
      frameIdx := frameIdx + 1;
      r := SourceFrame(frame.payload);
      assert old(Remaining()) == Prepend([frame.payload], Remaining());
    }
  }

  /** Every frame of a stored document, or None when one of them cannot be read. */
  method Drain(source: StoredFrameSource) returns (r: Option<seq<Bytes>>)
    requires source.frameIdx <= source.entry.frameCount
    modifies source, source.f`pos
    ensures r == old(source.Remaining())
  {
    hide ReadRun;
    ghost var all := source.Remaining();
    var loaded: seq<Bytes> := [];
    PrependMore([], [], all);
    while true
      invariant source.frameIdx <= source.entry.frameCount && all == Prepend(loaded, source.Remaining())
      decreases source.entry.frameCount - source.frameIdx
    {
      var next := source.NextFrame();
      match next {
        case SourceEnd =>
          assert loaded + [] == loaded;
          return Some(loaded);
        case SourceError =>
          return None;
        case SourceFrame(payload) =>
          PrependMore(loaded, [payload], source.Remaining());
          loaded := loaded + [payload];
      }
    }
  }
}
