/** The decrypting reader, with its running length checks. */
module Decryption {
  import opened Bytes
  import opened Frame
  import opened Encryption

  /** A frame source: the frames it will deliver, then end of file or, when
      `failing`, an error. */
  class FrameFeed {
    const frames: seq<Bytes>
    const failing: bool
    var next: nat

    constructor (frames: seq<Bytes>, failing: bool)
      ensures this.frames == frames && this.failing == failing && next == 0
    {
      this.frames, this.failing, this.next := frames, failing, 0;
    }

    method NextFrame() returns (frame: Bytes, status: Sticky)
      requires next <= |frames|
      modifies this
      ensures next == (if old(next) < |frames| then old(next) + 1 else old(next))
      ensures old(next) < |frames| ==> status == Open && frame == frames[old(next)]
      ensures old(next) == |frames| ==> status == if failing then Broken else AtEnd
    {
      if next == |frames| {
        return [], if failing then Broken else AtEnd;
      }
      frame, status := frames[next], Open;
      next := next + 1;
    }
  }

  class DecryptReader {
    const h: Hashes
    const aead: Aead
    const id: Identity
    const envelope: Envelope
    const expectedSha: Digest
    const source: FrameFeed
    var hashed: Bytes
    var buf: Bytes
    var frameSeq: uint32
    var plainSize: nat
    var cipherSize: nat
    var err: Sticky
    /** Everything handed to the caller so far. */
    ghost var served: Bytes

    ghost predicate Valid()
      reads this, source
    {
      && |envelope.noncePrefix| == NONCE_PREFIX
      && source.next <= |source.frames|
      && hashed == served + buf && plainSize == |hashed|
      && (err == Open ==> frameSeq == Wrap32(source.next) && cipherSize == TotalSize(source.frames[..source.next]))
      && (err == AtEnd ==> Accepted())
    }

    /** What end of file vouches for. */
    ghost predicate Accepted()
      reads this, source
    {
      && buf == [] && h.sha(served) == expectedSha && |served| == envelope.plainLength
      && TotalSize(source.frames) == envelope.cipherLength
    }

    /** The source delivers exactly the sealed chunks the envelope describes. */
    ghost predicate Genuine(chunks: seq<Bytes>)
      reads this`hashed, this`err, source
    {
      && Sound(aead) && |envelope.noncePrefix| == NONCE_PREFIX && !source.failing
      && source.frames == SealAll(aead, envelope.noncePrefix, id, chunks, 0)
      && envelope.cipherLength == TotalSize(source.frames)
      && envelope.plainLength == |Concat(chunks)| && expectedSha == h.sha(Concat(chunks))
      && source.next <= |chunks| && hashed == Concat(chunks[..source.next]) && err != Broken
      && (err == AtEnd ==> source.next == |chunks|)
    }

    constructor (h: Hashes, aead: Aead, id: Identity, envelope: Envelope, expectedSha: Digest, source: FrameFeed)
      requires |envelope.noncePrefix| == NONCE_PREFIX && source.next == 0
      ensures Valid() && this.h == h && this.aead == aead && this.id == id && this.envelope == envelope
      ensures this.expectedSha == expectedSha && this.source == source
      ensures hashed == [] && served == [] && buf == [] && err == Open
    {
      this.h, this.aead, this.id, this.envelope := h, aead, id, envelope;
      this.expectedSha, this.source := expectedSha, source;
      hashed, buf, served := [], [], [];
      frameSeq, plainSize, cipherSize, err := 0, 0, 0, Open;
    }

    /** Fetches the next frame and authenticates it before any byte is served;
        an over-length ciphertext is refused before it is opened. */
    method FetchFrame(ghost chunks: seq<Bytes>)
      requires Valid() && err == Open && buf == []
      modifies this`hashed, this`buf, this`frameSeq, this`plainSize, this`cipherSize, this`err, source
      ensures Valid()
      ensures old(Genuine(chunks)) ==> Genuine(chunks)
      ensures err == Open ==> source.next == old(source.next) + 1
      ensures source.next >= old(source.next)
      ensures err != Open ==> buf == []
      ensures old(Genuine(chunks)) ==> err != Broken
    {
      hide TotalSize, SealAll, Concat, Wrap32, Sound, FrameNonce, FrameAad;
      ghost var n := source.next;
      ghost var genuine := Genuine(chunks);
      var frame, status := source.NextFrame();
      if status == AtEnd {
        assert source.frames[..n] == source.frames;
        assert genuine ==> chunks[..n] == chunks;
        err := Finish();
        assert served + buf == served;
        return;
      }
      if status == Broken {
        err := Broken;
        return;
      }
      TakeOne(source.frames, n);
      if genuine {
        GenuineFrame(aead, envelope.noncePrefix, id, chunks, n);
        TotalPrefix(source.frames, n + 1);
      }
      if |frame| < TAG || cipherSize + |frame| > envelope.cipherLength {
        err := Broken;
        return;
      }
      var plain := aead.unseal(FrameNonce(envelope.noncePrefix, frameSeq), frame, FrameAad(id, frameSeq));
      if plain == None {
        err := Broken;
        return;
      }
      cipherSize := cipherSize + |frame|;
      plainSize := plainSize + |plain.value|;
      hashed := hashed + plain.value;
      Wrap32Add(n, 1);
      frameSeq := Wrap32(frameSeq + 1);
      buf := plain.value;
    }

    /** The final length and digest checks. */
    method Finish() returns (r: Sticky)
      ensures r == AtEnd <==> cipherSize == envelope.cipherLength && plainSize == envelope.plainLength
                              && h.sha(hashed) == expectedSha
      ensures r != Open
    {
      r := if cipherSize != envelope.cipherLength then Broken
           else if plainSize != envelope.plainLength then Broken
           else if h.sha(hashed) != expectedSha then Broken
           else AtEnd;
    }

    /** One Read into a buffer of n bytes.  From any source whatsoever, end of
        file is reported only when what was served has the expected digest and
        length.  A genuine source never fails, and ends exactly when every chunk
        has been served. */
    method Read(n: nat, ghost chunks: seq<Bytes>) returns (out: Bytes, status: Sticky)
      requires Valid()
      modifies this, source
      ensures Valid() && status == err
      ensures served == old(served) + out && |out| <= n
      ensures status == AtEnd ==> out == [] && Accepted()
      ensures status == Open && n > 0 ==> out != []
      ensures old(Genuine(chunks)) ==> Genuine(chunks) && (status == AtEnd ==> served == Concat(chunks))
      ensures source.next >= old(source.next)
      ensures status == Open && n > 0 && source.next == old(source.next) ==> |buf| < old(|buf|)
    {
      hide TotalSize, Genuine, Wrap32;
      if err != Open {
        assert served + [] == served;
        if old(Genuine(chunks)) && err == AtEnd {
          GenuineEnds(chunks);
        }
        return [], err;
      }
      while buf == []
        invariant Valid() && err == Open && served == old(served)
        invariant old(Genuine(chunks)) ==> Genuine(chunks)
        invariant source.next >= old(source.next) && (buf == [] || source.next > old(source.next) || buf == old(buf))
        decreases |source.frames| - source.next
      {
        FetchFrame(chunks);
        if err != Open {
          if old(Genuine(chunks)) {
            GenuineEnds(chunks);
          }
          return [], err;
        }
      }
      out := if n <= |buf| then buf[..n] else buf;
      status := Open;
      buf := buf[|out|..];
      served := served + out;
    }

    lemma GenuineEnds(chunks: seq<Bytes>)
      requires Valid() && Genuine(chunks) && err == AtEnd
      ensures served == Concat(chunks)
    {
      hide SealAll, TotalSize, Concat, Sound;
      assert chunks[..source.next] == chunks && served + buf == served;
    }
  }

  lemma TakeOne(frames: seq<Bytes>, n: nat)
    requires n < |frames|
    ensures TotalSize(frames[..n + 1]) == TotalSize(frames[..n]) + |frames[n]|
  {
    assert frames[..n + 1] == frames[..n] + [frames[n]];
    TotalSnoc(frames[..n], frames[n]);
  }

  lemma {:induction false} TotalPrefix(frames: seq<Bytes>, k: nat)
    requires k <= |frames|
    ensures TotalSize(frames[..k]) <= TotalSize(frames)
    decreases |frames| - k
  {
    if k == |frames| {
      assert frames[..k] == frames;
    } else {
      TakeOne(frames, k);
      TotalPrefix(frames, k + 1);
    }
  }

  /** A sealed frame opens, under the nonce and data of its position, to its chunk. */
  lemma GenuineFrame(a: Aead, prefix: Bytes, id: Identity, chunks: seq<Bytes>, n: nat)
    requires |prefix| == NONCE_PREFIX && Sound(a) && n < |chunks|
    ensures var frame := SealAll(a, prefix, id, chunks, 0)[n];
            && |frame| == |chunks[n]| + TAG
            && a.unseal(FrameNonce(prefix, Wrap32(n)), frame, FrameAad(id, Wrap32(n))) == Some(chunks[n])
    ensures Concat(chunks[..n + 1]) == Concat(chunks[..n]) + chunks[n]
  {
    hide SealAll, FrameNonce, FrameAad, Concat;
    SealAt(a, prefix, id, chunks, 0, n);
    ConcatSnoc(chunks[..n], chunks[n]);
    assert chunks[..n + 1] == chunks[..n] + [chunks[n]];
  }
}
