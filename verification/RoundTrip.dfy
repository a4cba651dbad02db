/** Encrypt, store, load, decrypt: the four programs together. */
module RoundTrip {
  import opened Bytes
  import opened Storage
  import opened Frame
  import opened Layout
  import opened Index
  import opened BlockWriter
  import opened Reader
  import opened Encryption
  import opened Decryption

  /** A source that delivers these frames and marks exactly the final one. */
  predicate Delivers(steps: seq<SourceStep>, frames: seq<Bytes>)
  {
    |steps| == |frames|
    && forall k :: 0 <= k < |steps| ==> steps[k] == SourceStep.NextFrame(frames[k], k == |frames| - 1)
  }

  lemma {:induction false} DeliveredFrames(steps: seq<SourceStep>, frames: seq<Bytes>)
    requires frames != [] && Delivers(steps, frames)
    ensures Streamed(steps) == Some(frames)
    decreases |frames|
  {
    if |frames| == 1 {
      assert frames == [frames[0]];
    } else {
      assert forall k :: 0 <= k < |steps| - 1 ==> steps[1..][k] == steps[k + 1] && frames[1..][k] == frames[k + 1];
      DeliveredFrames(steps[1..], frames[1..]);
      assert [frames[0]] + frames[1..] == frames;
    }
  }

  /** Pulls every frame out of an encryptor.  Exactly the final answer is marked
      last, also when the body is a whole number of frames. */
  method CollectFrames(enc: DocumentEncryptor) returns (steps: seq<SourceStep>)
    requires enc.Valid() && enc.produced == 0 && enc.err == Open && !enc.body.faulty && enc.whole != []
    modifies enc, enc.body
    ensures enc.Valid() && enc.done
    ensures Delivers(steps, SealAll(enc.aead, enc.noncePrefix, enc.id, enc.Plain(), 0))
  {
    hide Chunks, SealAll, SealFrame;
    ghost var frames := SealAll(enc.aead, enc.noncePrefix, enc.id, enc.Plain(), 0);
    steps := [];
    var last := false;
    while !last
      invariant enc.Valid() && enc.err != Broken
      invariant |steps| == enc.produced <= |enc.Plain()| && (last <==> enc.produced == |enc.Plain()|)
      invariant last ==> enc.done
      invariant forall k :: 0 <= k < |steps| ==> steps[k] == SourceStep.NextFrame(frames[k], k == |frames| - 1)
      decreases |enc.Plain()| - enc.produced
    {
      var step := enc.NextFrame();
      SealAt(enc.aead, enc.noncePrefix, enc.id, enc.Plain(), 0, |steps|);
      steps := steps + [step];
      last := step.last;
    }
  }

  /** Reads to end of file with a buffer of n bytes. */
  method ReadAll(reader: DecryptReader, n: nat, ghost chunks: seq<Bytes>) returns (plain: Bytes, ok: bool)
    requires n > 0 && reader.Valid() && reader.served == []
    modifies reader, reader.source
    ensures ok ==> reader.h.sha(plain) == reader.expectedSha && |plain| == reader.envelope.plainLength
    ensures old(reader.Genuine(chunks)) ==> ok && plain == Concat(chunks)
  {
    plain := [];
    while true
      invariant reader.Valid() && reader.served == plain
      invariant old(reader.Genuine(chunks)) ==> reader.Genuine(chunks)
      decreases |reader.source.frames| - reader.source.next, |reader.buf|
    {
      var out, status := reader.Read(n, chunks);
      plain := plain + out;
      if status != Open {
        return plain, status == AtEnd;
      }
    }
  }

  /** Encrypting any non-empty body, storing the frames in a Block and reading
      them back yields the body; on a healthy device nothing can fail. */
  method StoreAndLoad(h: Hashes, aead: Aead, id: Identity, noncePrefix: Bytes, plain: Bytes, w: Writer, n: nat)
    returns (r: Option<Bytes>)
    requires Sound(aead) && |noncePrefix| == NONCE_PREFIX && n > 0
    requires plain != [] && |Chunks(plain, PLAIN_FRAME)| < TWO_32
    requires w.h == h && w.Ready() && !w.closed && w.offset <= MAX_INT64
    modifies w, w.f
    ensures r.Some? ==> r.value == plain
                        && w.Ready() && w.docs == old(w.docs) + [SealAll(aead, noncePrefix, id, Chunks(plain, PLAIN_FRAME), 0)]
    ensures w.f.healthy ==> r.Some?
  {
    hide Chunks, SealAll, Streamed, Sound, ReadRun, DocsBytes, HeaderAccepted, Concat, TotalSize, Wrap32;
    var body := new Body(plain, false);
    var enc := new DocumentEncryptor(h, aead, id, noncePrefix, body);
    ghost var chunks := Chunks(plain, PLAIN_FRAME);
    ghost var frames := SealAll(aead, noncePrefix, id, chunks, 0);
    var steps := CollectFrames(enc);
    DeliveredFrames(steps, frames);
    ChunksMakeBody(plain, PLAIN_FRAME);
    SealedSizes(aead, noncePrefix, id, chunks, 0);
    assert Final(steps[|steps| - 1]);
    var ok, first, frameCount := w.AppendDocumentFrameSource(steps);
    if !ok {
      return None;
    }
    var envelope := enc.Finalize();
    Wrap32Id(|frames|);
    r := Load(h, aead, id, w, first, frameCount, envelope.value, n, chunks);
  }

  /** Opens the stored document behind `first` and decrypts it. */
  method Load(h: Hashes, aead: Aead, id: Identity, w: Writer, first: nat, frameCount: uint32, envelope: Envelope,
              n: nat, ghost chunks: seq<Bytes>) returns (r: Option<Bytes>)
    requires Sound(aead) && n > 0 && w.Ready() && w.h == h && w.docs != [] && |envelope.noncePrefix| == NONCE_PREFIX
    requires w.docs[|w.docs| - 1] == SealAll(aead, envelope.noncePrefix, id, chunks, 0)
    requires first == DocOffset(h, w.docs, |w.docs| - 1) <= MAX_INT64 && frameCount == |chunks|
    requires envelope.plainSha == h.sha(Concat(chunks)) && envelope.plainLength == |Concat(chunks)|
    requires envelope.cipherLength == TotalSize(SealAll(aead, envelope.noncePrefix, id, chunks, 0))
    ensures r == Some(Concat(chunks))
  {
    hide SealAll, Sound, ReadRun, DocsBytes, HeaderAccepted, Concat, TotalSize;
    ghost var frames := w.docs[|w.docs| - 1];
    var entry := IndexEntry(id.txId, id.docName, [], 0, first, frameCount, 0, envelope.plainSha, [1]);
    var handle := new File(w.f.data, true);
    ghost var committed := w.Committed();
    ReadsBack(h, w.header, w.docs, |w.docs| - 1, handle.data[|committed|..]);
    assert committed + handle.data[|committed|..] == handle.data;
    var source := new StoredFrameSource(h, handle, entry);
    var loaded := Drain(source);
    var feed := new FrameFeed(loaded.value, false);
    var reader := new DecryptReader(h, aead, id, envelope, envelope.plainSha, feed);
    ConcatNil();
    assert chunks[..0] == [];
    var bytes, ok := ReadAll(reader, n, chunks);
    r := if ok then Some(bytes) else None;
  }
}
