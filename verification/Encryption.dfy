/** Streaming envelope encryption: nonces, associated data and a look-ahead encryptor that
    seals a body into frames. */
module Encryption {
  import opened Bytes
  import opened Storage
  import opened Frame
  import opened Layout
  import opened BlockWriter

  const TAG := 16
  /** A frame of 65536 bytes less the tag. */
  const PLAIN_FRAME := 65520
  const NONCE_PREFIX := 8

  /** Authenticated encryption, uninterpreted but for what is assumed below. */
  datatype Aead = Aead(seal: (Bytes, Bytes, Bytes) -> Bytes, unseal: (Bytes, Bytes, Bytes) -> Option<Bytes>)

  /** Sealing adds one tag and unsealing with the same nonce and associated data inverts it. */
  ghost predicate Sound(a: Aead)
  {
    forall nonce: Bytes, plain: Bytes, aad: Bytes ::
      |a.seal(nonce, plain, aad)| == |plain| + TAG && a.unseal(nonce, a.seal(nonce, plain, aad), aad) == Some(plain)
  }

  // ------------------------------------------------- nonces and associated data

  datatype Identity = Identity(txId: Bytes, docName: Bytes)

  function FrameNonce(prefix: Bytes, frameSeq: uint32): (n: Bytes)
    requires |prefix| == NONCE_PREFIX
    ensures |n| == 12
  {
    prefix + BE(frameSeq, 4)
  }

  function WithLen(value: Bytes): (r: Bytes)
    ensures |r| == 4 + |value|
  {
    BE(Wrap32(|value|), 4) + value
  }

  function AppendIdentity(domain: Bytes, id: Identity, frameSeq: uint32): Bytes
  {
    WithLen(domain) + (WithLen(id.txId) + (WithLen(id.docName) + BE(frameSeq, 4)))
  }

  // "scrap:v1:document-key" and "scrap:v1:document-frame"
  const DOMAIN_STEM: Bytes :=
    [0x73, 0x63, 0x72, 0x61, 0x70, 0x3a, 0x76, 0x31, 0x3a, 0x64, 0x6f, 0x63, 0x75, 0x6d, 0x65, 0x6e, 0x74, 0x2d]
  const KEY_DOMAIN: Bytes := DOMAIN_STEM + [0x6b, 0x65, 0x79]
  const FRAME_DOMAIN: Bytes := DOMAIN_STEM + [0x66, 0x72, 0x61, 0x6d, 0x65]

  function FrameAad(id: Identity, frameSeq: uint32): Bytes { AppendIdentity(FRAME_DOMAIN, id, frameSeq) }

  function KeyContext(id: Identity): Bytes { AppendIdentity(KEY_DOMAIN, id, 0) }

  /** Two frames of a document share a nonce exactly when their numbers agree
      modulo 2^32, so never below 2^32 frames. */
  lemma NonceReuse(prefix: Bytes, i: nat, j: nat)
    requires |prefix| == NONCE_PREFIX
    ensures FrameNonce(prefix, Wrap32(i)) == FrameNonce(prefix, Wrap32(j)) <==> Wrap32(i) == Wrap32(j)
    ensures i < TWO_32 && j < TWO_32 && i != j ==> FrameNonce(prefix, Wrap32(i)) != FrameNonce(prefix, Wrap32(j))
  {
    hide BE;
    var m, n := FrameNonce(prefix, Wrap32(i)), FrameNonce(prefix, Wrap32(j));
    if m == n {
      assert m[NONCE_PREFIX..] == BE(Wrap32(i), 4) && n[NONCE_PREFIX..] == BE(Wrap32(j), 4);
      Widths();
      BEInjective(Wrap32(i), Wrap32(j), 4);
    }
  }

  /** A length-prefixed field can be split off again. */
  lemma WithLenSplits(a: Bytes, s: Bytes, b: Bytes, t: Bytes)
    requires WithLen(a) + s == WithLen(b) + t
    requires |a| < TWO_32 && |b| < TWO_32
    ensures a == b && s == t
  {
    hide BE;
    var l, r := WithLen(a) + s, WithLen(b) + t;
    Wrap32Id(|a|);
    Wrap32Id(|b|);
    assert l[..4] == BE(|a|, 4) && r[..4] == BE(|b|, 4);
    Widths();
    BEInjective(|a|, |b|, 4);
    assert l[4..4 + |a|] == a && r[4..4 + |b|] == b;
    assert l[4 + |a|..] == s && r[4 + |b|..] == t;
  }

  /** Associated data identifies transaction, document and frame number; it can
      never be mistaken for a key context. */
  lemma AadInjective(a: Identity, i: uint32, b: Identity, j: uint32)
    requires |a.txId| < TWO_32 && |a.docName| < TWO_32 && |b.txId| < TWO_32 && |b.docName| < TWO_32
    ensures FrameAad(a, i) == FrameAad(b, j) <==> a == b && i == j
    ensures FrameAad(a, i) != KeyContext(b)
  {
    hide BE, WithLen, Wrap32;
    var ra, rb := WithLen(a.docName) + BE(i, 4), WithLen(b.docName) + BE(j, 4);
    if FrameAad(a, i) == FrameAad(b, j) {
      WithLenSplits(FRAME_DOMAIN, WithLen(a.txId) + ra, FRAME_DOMAIN, WithLen(b.txId) + rb);
      WithLenSplits(a.txId, ra, b.txId, rb);
      WithLenSplits(a.docName, BE(i, 4), b.docName, BE(j, 4));
      Widths();
      BEInjective(i, j, 4);
    }
    if FrameAad(a, i) == KeyContext(b) {
      WithLenSplits(FRAME_DOMAIN, WithLen(a.txId) + ra, KEY_DOMAIN, WithLen(b.txId) + (WithLen(b.docName) + BE(0, 4)));
    }
  }

  // ------------------------------------------------------------- sealed frames

  function SealFrame(a: Aead, prefix: Bytes, id: Identity, index: nat, plain: Bytes): Bytes
    requires |prefix| == NONCE_PREFIX
  {
    a.seal(FrameNonce(prefix, Wrap32(index)), plain, FrameAad(id, Wrap32(index)))
  }

  /** The ciphertext frames of chunks base, base + 1, ... */
  function SealAll(a: Aead, prefix: Bytes, id: Identity, chunks: seq<Bytes>, base: nat): (r: seq<Bytes>)
    requires |prefix| == NONCE_PREFIX
    ensures |r| == |chunks|
    decreases |chunks|
  {
    if chunks == [] then []
    else [SealFrame(a, prefix, id, base, chunks[0])] + SealAll(a, prefix, id, chunks[1..], base + 1)
  }

  lemma {:induction false} SealAt(a: Aead, prefix: Bytes, id: Identity, chunks: seq<Bytes>, base: nat, k: nat)
    requires |prefix| == NONCE_PREFIX && k < |chunks|
    ensures SealAll(a, prefix, id, chunks, base)[k] == SealFrame(a, prefix, id, base + k, chunks[k])
    decreases k
  {
    hide SealFrame;
    if k > 0 {
      SealAt(a, prefix, id, chunks[1..], base + 1, k - 1);
    }
  }

  function TotalSize(parts: seq<Bytes>): nat
  {
    if parts == [] then 0 else |parts[0]| + TotalSize(parts[1..])
  }

  /** Every sealed frame fits one Block frame. */
  lemma {:induction false} SealedSizes(a: Aead, prefix: Bytes, id: Identity, chunks: seq<Bytes>, base: nat)
    requires |prefix| == NONCE_PREFIX && Sound(a)
    requires forall c :: c in chunks ==> |c| <= PLAIN_FRAME
    ensures Fits(SealAll(a, prefix, id, chunks, base))
    ensures TotalSize(SealAll(a, prefix, id, chunks, base)) == TotalSize(chunks) + TAG * |chunks|
    decreases |chunks|
  {
    hide FrameNonce, FrameAad;
    if chunks != [] {
      assert chunks[0] in chunks;
      SealedSizes(a, prefix, id, chunks[1..], base + 1);
      var rest := SealAll(a, prefix, id, chunks[1..], base + 1);
      assert SealAll(a, prefix, id, chunks, base)[1..] == rest;
      assert |SealFrame(a, prefix, id, base, chunks[0])| == |chunks[0]| + TAG;
    }
  }

  lemma {:induction false} ConcatSize(parts: seq<Bytes>)
    ensures |Concat(parts)| == TotalSize(parts)
  {
    if parts != [] {
      ConcatSize(parts[1..]);
    }
  }

  // ------------------------------------------------------- ciphertext size bound

  /** The bytes that n bytes of plaintext seal to. */
  function CiphertextSize(n: nat): nat
  {
    n + (n + PLAIN_FRAME - 1) / PLAIN_FRAME * TAG
  }

  /** Division as the machine does it, toward zero. */
  function TruncDiv(a: int, b: int): int
    requires b > 0
  {
    if a >= 0 then a / b else -(-a / b)
  }

  /** MaxCiphertextSize, in int64 arithmetic. */
  function MaxCiphertextSize(plainMax: int64): int64
  {
    if plainMax <= 0 then 0
    else WrapInt64(plainMax + WrapInt64(TruncDiv(WrapInt64(plainMax + PLAIN_FRAME - 1), PLAIN_FRAME) * TAG))
  }

  /** The largest plaintext size whose ciphertext size is an int64. */
  const MAX_PLAIN: int64 := 0x7ff7_ffff_ffff_ffff

  /** The computation is exact up to MAX_PLAIN; beyond it the result is too small even for the
      plaintext. */
  lemma MaxCiphertextSizeExactly(n: int64)
    requires n >= 0
    ensures MaxCiphertextSize(n) == CiphertextSize(n) <==> n <= MAX_PLAIN
    ensures n > MAX_PLAIN ==> MaxCiphertextSize(n) < n
  {
    if n + PLAIN_FRAME - 1 <= MAX_INT64 {
      SizeWithoutWrap(n);
    } else {
      SizeWithWrap(n);
    }
    FramesBound(n);
  }

  lemma SizeWithoutWrap(n: int64)
    requires 0 <= n && n + PLAIN_FRAME - 1 <= MAX_INT64
    ensures MaxCiphertextSize(n) == WrapInt64(CiphertextSize(n))
    ensures CiphertextSize(n) < TWO_64 + n - 0x8000_0000_0000_0000
  {
    var frames := (n + PLAIN_FRAME - 1) / PLAIN_FRAME;
    assert 0 <= frames * TAG <= MAX_INT64;
    assert WrapInt64(n + PLAIN_FRAME - 1) == n + PLAIN_FRAME - 1 && WrapInt64(frames * TAG) == frames * TAG;
  }

  lemma SizeWithWrap(n: int64)
    requires n + PLAIN_FRAME - 1 > MAX_INT64
    ensures MaxCiphertextSize(n) < n
  {
    var m := n + PLAIN_FRAME - 1 - TWO_64;
    assert WrapInt64(n + PLAIN_FRAME - 1) == m;
    var q := TruncDiv(m, PLAIN_FRAME);
    assert -140774183676780 <= q < 0;
    assert WrapInt64(q * TAG) == q * TAG;
    assert WrapInt64(n + q * TAG) == n + q * TAG;
  }

  lemma FramesBound(n: nat)
    ensures CiphertextSize(n) <= MAX_INT64 <==> n <= MAX_PLAIN
  {
  }

  /** Below that size it is monotone. */
  lemma MaxCiphertextSizeMonotone(m: int64, n: int64)
    requires m <= n <= MAX_PLAIN
    ensures MaxCiphertextSize(m) <= MaxCiphertextSize(n)
  {
    hide MaxCiphertextSize, CiphertextSize;
    if m >= 0 {
      MaxCiphertextSizeExactly(m);
      MaxCiphertextSizeExactly(n);
      CiphertextSizeMonotone(m, n);
    } else {
      NothingFromNothing(m);
      if n >= 0 {
        MaxCiphertextSizeExactly(n);
      } else {
        NothingFromNothing(n);
      }
    }
  }

  lemma NothingFromNothing(n: int64)
    requires n <= 0
    ensures MaxCiphertextSize(n) == 0
  {
  }

  lemma CiphertextSizeMonotone(m: nat, n: nat)
    requires m <= n
    ensures CiphertextSize(m) <= CiphertextSize(n)
  {
  }

  lemma {:induction false} ChunkCount(body: Bytes)
    ensures |Chunks(body, PLAIN_FRAME)| == (|body| + PLAIN_FRAME - 1) / PLAIN_FRAME
    decreases |body|
  {
    if |body| > PLAIN_FRAME {
      ChunkCount(body[PLAIN_FRAME..]);
    }
  }

  /** The encryptor's total output for a body is exactly the bound for its size. */
  lemma CiphertextSizeExact(a: Aead, prefix: Bytes, id: Identity, body: Bytes)
    requires |prefix| == NONCE_PREFIX && Sound(a)
    ensures TotalSize(SealAll(a, prefix, id, Chunks(body, PLAIN_FRAME), 0)) == CiphertextSize(|body|)
    ensures |body| <= MAX_PLAIN ==> CiphertextSize(|body|) == MaxCiphertextSize(|body|)
  {
    hide SealAll;
    var chunks := Chunks(body, PLAIN_FRAME);
    ChunksMakeBody(body, PLAIN_FRAME);
    SealedSizes(a, prefix, id, chunks, 0);
    ConcatSize(chunks);
    ChunkCount(body);
    if |body| <= MAX_PLAIN {
      MaxCiphertextSizeExactly(|body|);
    }
  }

  /** A document within the plaintext limit never exceeds the wire budget computed from that
      limit, for every limit up to MAX_PLAIN. */
  lemma WithinWireBudget(a: Aead, prefix: Bytes, id: Identity, body: Bytes, limit: int64)
    requires |prefix| == NONCE_PREFIX && Sound(a) && |body| <= limit
    ensures limit <= MAX_PLAIN ==>
              TotalSize(SealAll(a, prefix, id, Chunks(body, PLAIN_FRAME), 0)) <= MaxCiphertextSize(limit)
    ensures limit > MAX_PLAIN && |body| == limit ==>
              TotalSize(SealAll(a, prefix, id, Chunks(body, PLAIN_FRAME), 0)) > MaxCiphertextSize(limit)
  {
    hide SealAll, Chunks, MaxCiphertextSize, CiphertextSize;
    CiphertextSizeExact(a, prefix, id, body);
    MaxCiphertextSizeExactly(limit);
    CiphertextSizeMonotone(|body|, limit);
    AtLeastPlain(|body|);
  }

  lemma AtLeastPlain(n: nat)
    ensures n <= CiphertextSize(n)
  {
  }

  /** The store's document limit, far below MAX_PLAIN. */
  const MAX_DOCUMENT_BYTES: int64 := 128 * 1024 * 1024

  /** What replication relies on. */
  lemma ReplicationBudget(a: Aead, prefix: Bytes, id: Identity, body: Bytes)
    requires |prefix| == NONCE_PREFIX && Sound(a) && |body| <= MAX_DOCUMENT_BYTES
    ensures TotalSize(SealAll(a, prefix, id, Chunks(body, PLAIN_FRAME), 0)) <= MaxCiphertextSize(MAX_DOCUMENT_BYTES)
  {
    hide SealAll, Chunks, MaxCiphertextSize;
    WithinWireBudget(a, prefix, id, body, MAX_DOCUMENT_BYTES);
  }

  // ---------------------------------------------------------------- the encryptor

  /** The n-th answer of an encryptor over a body that reads without fault. */
  function Answer(a: Aead, prefix: Bytes, id: Identity, chunks: seq<Bytes>, n: nat): SourceStep
    requires |prefix| == NONCE_PREFIX
  {
    if n < |chunks| then NextFrame(SealFrame(a, prefix, id, n, chunks[n]), n == |chunks| - 1) else SourceEof
  }

  datatype Sticky = Open | AtEnd | Broken

  datatype Envelope = Envelope(noncePrefix: Bytes, plainSha: Digest, plainLength: nat, cipherLength: nat)

  class DocumentEncryptor {
    const h: Hashes
    const aead: Aead
    const body: Body
    const id: Identity
    const noncePrefix: Bytes
    var cur: Bytes
    var curErr: ReadError
    var aheadErr: ReadError
    var primed: bool
    var done: bool
    var err: Sticky
    var frameSeq: uint32
    var hashed: Bytes
    var plainSize: nat
    var cipherSize: nat
    /** The whole body, and how many frames have been produced. */
    ghost const whole: Bytes
    ghost var produced: nat

    ghost function Plain(): seq<Bytes> { Chunks(whole, PLAIN_FRAME) }

    /** The frames produced so far, and the rest of the body in `cur` and behind it. */
    ghost predicate Valid()
      reads this, body
    {
      && Counters() && |noncePrefix| == NONCE_PREFIX && produced <= |Plain()|
      && (done ==> !body.faulty && produced == |Plain()|)
      && (err == AtEnd ==> done)
      && (!primed ==> !done && err == Open && produced == 0 && body.rest == whole)
      && (primed && !done && err == Open ==>
            && Plain()[produced..] == Chunks(cur + body.rest, PLAIN_FRAME)
            && InHand())
    }

    /** What is known of the chunk in hand. */
    ghost predicate InHand()
      reads this, body
    {
      && |cur| <= PLAIN_FRAME
      && (curErr == NoError ==> |cur| == PLAIN_FRAME)
      && (curErr != NoError ==> body.rest == [])
      && (curErr == Fault <==> curErr != NoError && body.faulty)
      && (cur == [] ==> produced == 0)
    }

    constructor (h: Hashes, aead: Aead, id: Identity, noncePrefix: Bytes, body: Body)
      requires |noncePrefix| == NONCE_PREFIX
      ensures Valid() && this.h == h && this.aead == aead && this.id == id && this.noncePrefix == noncePrefix
      ensures this.body == body && whole == body.rest && produced == 0 && err == Open
    {
      this.h, this.aead, this.id, this.noncePrefix, this.body := h, aead, id, noncePrefix, body;
      cur, curErr, aheadErr := [], NoError, NoError;
      primed, done, err, frameSeq := false, false, Open, 0;
      hashed, plainSize, cipherSize := [], 0, 0;
      whole, produced := body.rest, 0;
    }

    /** Reads the next chunk so that the frame being produced knows whether it is the last. */
    method ReadAhead() returns (next: Bytes, ok: bool)
      requires curErr != Fault && (curErr == NoError || body.rest == [])
      modifies body, this`aheadErr
      ensures old(body.rest) == next + body.rest && |next| <= PLAIN_FRAME
      ensures ok ==> (aheadErr == NoError ==> |next| == PLAIN_FRAME)
                     && (aheadErr != NoError ==> body.rest == [] && (aheadErr != Fault))
                     && (curErr != NoError ==> next == [] && aheadErr != NoError)
      ensures ok ==> (aheadErr != NoError && curErr == NoError ==> !body.faulty)
      ensures !ok ==> body.faulty
    {
      if curErr != NoError {
        aheadErr := curErr;
        return [], true;
      }
      var e;
      next, e := body.ReadFull(PLAIN_FRAME);
      if e == Fault {
        return next, false;
      }
      aheadErr := e;
      ok := true;
    }

    /** Totals and counters, as in Valid. */
    ghost predicate Counters()
      reads this`hashed, this`plainSize, this`cipherSize, this`frameSeq, this`produced
    {
      && |noncePrefix| == NONCE_PREFIX
      && produced <= |Plain()| && frameSeq == Wrap32(produced)
      && hashed == Concat(Plain()[..produced]) && plainSize == |hashed|
      && cipherSize == TotalSize(SealAll(aead, noncePrefix, id, Plain()[..produced], 0))
    }

    /** Seals the chunk in hand and counts it. */
    method SealCurrent() returns (frame: Bytes)
      requires Counters() && produced < |Plain()| && cur == Plain()[produced]
      modifies this`hashed, this`plainSize, this`cipherSize, this`frameSeq, this`produced
      ensures Counters() && produced == old(produced) + 1
      ensures frame == SealFrame(aead, noncePrefix, id, old(produced), cur)
    {
      hide SealFrame, Chunks, Concat, TotalSize, SealAll, Wrap32;
      hashed := hashed + cur;
      plainSize := plainSize + |cur|;
      frame := SealFrame(aead, noncePrefix, id, frameSeq, cur);
      cipherSize := cipherSize + |frame|;
      SameNonce(aead, noncePrefix, id, produced, cur);
      GrowTotals(aead, noncePrefix, id, Plain(), produced);
      Wrap32Add(produced, 1);
      frameSeq := Wrap32(frameSeq + 1);
      produced := produced + 1;
    }

    /** The first read of the body. */
    method Prime()
      requires Valid() && !done && err == Open
      modifies this`cur, this`curErr, this`primed, body
      ensures Valid() && primed
    {
      hide Chunks, Counters;
      if !primed {
        cur, curErr := body.ReadFull(PLAIN_FRAME);
        primed := true;
        assert cur + body.rest == whole;
        assert Plain()[0..] == Plain();
      }
    }

    /** Seals one frame.  A body that reads without fault yields exactly the
        answers of `Answer`; a faulty one never yields a frame marked last. */
    method NextFrame() returns (r: SourceStep)
      requires Valid()
      modifies this, body
      ensures Valid()
      ensures !body.faulty && old(err) != Broken ==>
                && r == Answer(aead, noncePrefix, id, Plain(), old(produced)) && err != Broken
                && produced == (if old(produced) < |Plain()| then old(produced) + 1 else old(produced))
      ensures r.NextFrame? && r.last ==> done && !body.faulty
      ensures produced >= old(produced)
    {
      hide SealFrame, Chunks, Counters;
      if err != Open {
        return if err == AtEnd then SourceEof else SourceFailed;
      }
      if done {
        err := AtEnd;
        return SourceEof;
      }
      Prime();
      if curErr == Fault {
        err := Broken;
        return SourceFailed;
      }
      if cur == [] {
        assert cur + body.rest == [];
        done, err := true, AtEnd;
        return SourceEof;
      }
      r := ProduceFrame();
    }

    /** Looks one chunk ahead, then seals the one in hand. */
    method ProduceFrame() returns (r: SourceStep)
      requires Valid() && primed && !done && err == Open && cur != [] && curErr != Fault
      modifies this, body
      ensures Valid()
      ensures !body.faulty ==>
                r == Answer(aead, noncePrefix, id, Plain(), old(produced)) && err == Open
                && produced == old(produced) + 1 <= |Plain()|
      ensures r.NextFrame? && r.last ==> done && !body.faulty
      ensures produced >= old(produced)
    {
      hide SealFrame, Chunks, Counters;
      var next, ok := ReadAhead();
      if !ok {
        err := Broken;
        return SourceFailed;
      }
      NextChunk(cur, next + body.rest, PLAIN_FRAME);
      assert Plain()[produced..][0] == cur && Plain()[produced + 1..] == Plain()[produced..][1..];
      var frame := SealCurrent();
      cur, curErr := next, aheadErr;
      done := next == [];
      r := SourceStep.NextFrame(frame, done);
    }

    /** The envelope, once the last frame has been produced. */
    method Finalize() returns (r: Option<Envelope>)
      requires Valid()
      ensures r.Some? <==> done
      ensures r.Some? ==>
                && !body.faulty
                && r.value == Envelope(noncePrefix, h.sha(whole), |whole|,
                                       TotalSize(SealAll(aead, noncePrefix, id, Plain(), 0)))
    {
      if !done {
        return None;
      }
      assert Plain()[..produced] == Plain();
      ChunksMakeBody(whole, PLAIN_FRAME);
      r := Some(Envelope(noncePrefix, h.sha(hashed), plainSize, cipherSize));
    }
  }

  lemma SameNonce(a: Aead, prefix: Bytes, id: Identity, n: nat, plain: Bytes)
    requires |prefix| == NONCE_PREFIX
    ensures SealFrame(a, prefix, id, Wrap32(n), plain) == SealFrame(a, prefix, id, n, plain)
  {
    hide FrameNonce, FrameAad;
    Wrap32Id(Wrap32(n));
  }

  lemma {:induction false} SealSnoc(a: Aead, prefix: Bytes, id: Identity, chunks: seq<Bytes>, c: Bytes, base: nat)
    requires |prefix| == NONCE_PREFIX
    ensures SealAll(a, prefix, id, chunks + [c], base)
            == SealAll(a, prefix, id, chunks, base) + [SealFrame(a, prefix, id, base + |chunks|, c)]
    decreases |chunks|
  {
    hide SealFrame;
    if chunks == [] {
      assert [c][1..] == [];
    } else {
      assert (chunks + [c])[1..] == chunks[1..] + [c];
      SealSnoc(a, prefix, id, chunks[1..], c, base + 1);
    }
  }

  lemma {:induction false} TotalSnoc(parts: seq<Bytes>, p: Bytes)
    ensures TotalSize(parts + [p]) == TotalSize(parts) + |p|
  {
    if parts == [] {
      assert [p][1..] == [];
    } else {
      assert (parts + [p])[1..] == parts[1..] + [p];
      TotalSnoc(parts[1..], p);
    }
  }

  lemma GrowTotals(a: Aead, prefix: Bytes, id: Identity, chunks: seq<Bytes>, n: nat)
    requires |prefix| == NONCE_PREFIX && n < |chunks|
    ensures Concat(chunks[..n + 1]) == Concat(chunks[..n]) + chunks[n]
    ensures TotalSize(SealAll(a, prefix, id, chunks[..n + 1], 0))
            == TotalSize(SealAll(a, prefix, id, chunks[..n], 0)) + |SealFrame(a, prefix, id, n, chunks[n])|
  {
    hide SealFrame, SealAll, Concat, TotalSize;
    assert chunks[..n + 1] == chunks[..n] + [chunks[n]];
    ConcatSnoc(chunks[..n], chunks[n]);
    SealSnoc(a, prefix, id, chunks[..n], chunks[n], 0);
    TotalSnoc(SealAll(a, prefix, id, chunks[..n], 0), SealFrame(a, prefix, id, n, chunks[n]));
  }
}
