/** The Block frame: a 32-byte checksummed header followed by the payload. */
module Frame {
  import opened Bytes
  import opened Storage

  const FRAME_HEADER_SIZE := 32
  const MAX_FRAME_PAYLOAD := 65536
  const FRAME_MAGIC: uint16 := 0x5343
  const FRAME_VERSION: byte := 1

  const FLAG_FIRST: byte := 1
  const FLAG_LAST: byte := 2
  const FLAG_SINGLE: byte := 3

  function Zeros(n: nat): (s: Bytes)
    ensures |s| == n
  {
    if n == 0 then [] else [0] + Zeros(n - 1)
  }

  type Digest = s: Bytes | |s| == 32 witness Zeros(32)

  /** The digest value that stands for "none recorded". */
  const ZERO_DIGEST: Digest := Zeros(32)

  /** CRC-32C and SHA-256, left uninterpreted: every result holds for any pair. */
  datatype Hashes = Hashes(crc: Bytes -> uint32, sha: Bytes -> Digest)

  datatype FrameHeader =
    FrameHeader(flags: byte, docSeq: uint32, frameSeq: uint32, payloadLen: uint32, payloadCrc: uint32)

  datatype FrameError = BadMagic | BadVersion | CrcMismatch | HeaderCrc | Truncated | PayloadLimit | AtEof

  datatype FrameRead = Frame(hdr: FrameHeader, payload: Bytes) | Failed(error: FrameError)

  predicate IsLast(flags: byte) { flags == FLAG_LAST || flags == FLAG_SINGLE }

  function FrameFlags(seq_: uint32, last: bool): (flags: byte)
    ensures IsLast(flags) == last
  {
    if seq_ == 0 && last then FLAG_SINGLE
    else if seq_ == 0 then FLAG_FIRST
    else if last then FLAG_LAST
    else 0
  }

  /** The first 28 header bytes: everything the header checksum covers. */
  function HeaderPrefix(h: Hashes, flags: byte, docSeq: uint32, frameSeq: uint32, payload: Bytes): (s: Bytes)
    requires |payload| <= MAX_FRAME_PAYLOAD
    ensures |s| == 28
  {
    (LE(FRAME_MAGIC, 2) + [FRAME_VERSION, flags] + LE(FRAME_HEADER_SIZE, 2) + [0, 0])
    + LE(docSeq, 4) + LE(frameSeq, 4) + LE(|payload|, 4) + LE(h.crc(payload), 4) + [0, 0, 0, 0]
  }

  function HeaderBytes(h: Hashes, flags: byte, docSeq: uint32, frameSeq: uint32, payload: Bytes): (s: Bytes)
    requires |payload| <= MAX_FRAME_PAYLOAD
    ensures |s| == FRAME_HEADER_SIZE
  {
    var prefix := HeaderPrefix(h, flags, docSeq, frameSeq, payload);
    prefix + LE(h.crc(prefix), 4)
  }

  /** What WriteFrame leaves on disk. */
  function FrameBytes(h: Hashes, flags: byte, docSeq: uint32, frameSeq: uint32, payload: Bytes): (s: Bytes)
    requires |payload| <= MAX_FRAME_PAYLOAD
    ensures |s| == FRAME_HEADER_SIZE + |payload|
  {
    HeaderBytes(h, flags, docSeq, frameSeq, payload) + payload
  }

  /** Header checks in ReadFrame's order: checksum, magic, version, payload limit. */
  function ParseHeader(h: Hashes, buf: Bytes): (r: FrameRead)
    requires |buf| == FRAME_HEADER_SIZE
    ensures r.Frame? ==> r.payload == [] && r.hdr.payloadLen <= MAX_FRAME_PAYLOAD
    ensures r.Failed? ==> r.error in {HeaderCrc, BadMagic, BadVersion, PayloadLimit}
  {
    if h.crc(buf[..28]) != Uint32(buf[28..32]) then Failed(HeaderCrc)
    else if Uint16(buf[..2]) != FRAME_MAGIC then Failed(BadMagic)
    else if buf[2] != FRAME_VERSION then Failed(BadVersion)
    else if Uint32(buf[16..20]) > MAX_FRAME_PAYLOAD then Failed(PayloadLimit)
    else Frame(FrameHeader(buf[3], Uint32(buf[8..12]), Uint32(buf[12..16]),
                           Uint32(buf[16..20]), Uint32(buf[20..24])), [])
  }

  /** ReadFrame on the bytes at the cursor.  A header whose payload is wholly
      missing surfaces as end of file, a partly missing one as Truncated. */
  function ParseFrame(h: Hashes, rest: Bytes): (r: FrameRead)
    ensures r.Frame? ==> |r.payload| == r.hdr.payloadLen
                         && FRAME_HEADER_SIZE + |r.payload| <= |rest|
  {
    if rest == [] then Failed(AtEof)
    else if |rest| < FRAME_HEADER_SIZE then Failed(Truncated)
    else
      var header := ParseHeader(h, rest[..FRAME_HEADER_SIZE]);
      if header.Failed? then header
      else
        var n := header.hdr.payloadLen;
        var body := rest[FRAME_HEADER_SIZE..];
        if n > 0 && body == [] then Failed(AtEof)
        else if n > |body| then Failed(Truncated)
        else if h.crc(body[..n]) != header.hdr.payloadCrc then Failed(CrcMismatch)
        else Frame(header.hdr, body[..n])
  }

  function WrittenHeader(h: Hashes, flags: byte, docSeq: uint32, frameSeq: uint32, payload: Bytes): FrameHeader
    requires |payload| <= MAX_FRAME_PAYLOAD
  {
    FrameHeader(flags, docSeq, frameSeq, |payload|, h.crc(payload))
  }

  lemma PrefixFields(h: Hashes, flags: byte, docSeq: uint32, frameSeq: uint32, payload: Bytes)
    requires |payload| <= MAX_FRAME_PAYLOAD
    ensures var p := HeaderPrefix(h, flags, docSeq, frameSeq, payload);
            && p[..2] == LE(FRAME_MAGIC, 2) && p[2] == FRAME_VERSION && p[3] == flags
            && p[8..12] == LE(docSeq, 4) && p[12..16] == LE(frameSeq, 4)
            && p[16..20] == LE(|payload|, 4) && p[20..24] == LE(h.crc(payload), 4)
  {
    hide LE;
    var p8 := LE(FRAME_MAGIC, 2) + [FRAME_VERSION, flags] + LE(FRAME_HEADER_SIZE, 2) + [0, 0];
    assert HeaderPrefix(h, flags, docSeq, frameSeq, payload)[..8] == p8;
  }

  lemma ParseWrittenHeader(h: Hashes, flags: byte, docSeq: uint32, frameSeq: uint32, payload: Bytes)
    requires |payload| <= MAX_FRAME_PAYLOAD
    ensures ParseHeader(h, HeaderBytes(h, flags, docSeq, frameSeq, payload))
            == Frame(WrittenHeader(h, flags, docSeq, frameSeq, payload), [])
  {
    var p := HeaderPrefix(h, flags, docSeq, frameSeq, payload);
    var b := HeaderBytes(h, flags, docSeq, frameSeq, payload);
    PrefixFields(h, flags, docSeq, frameSeq, payload);
    assert b[..28] == p && b[28..32] == LE(h.crc(p), 4);
    assert b[..2] == p[..2] && b[8..12] == p[8..12] && b[12..16] == p[12..16];
    assert b[16..20] == p[16..20] && b[20..24] == p[20..24];
    LE4(h.crc(p));
    LE2(FRAME_MAGIC);
    LE4(docSeq);
    LE4(frameSeq);
    LE4(|payload|);
    LE4(h.crc(payload));
  }

  lemma ParseAfterHeader(h: Hashes, header: Bytes, hdr: FrameHeader, payload: Bytes, tail: Bytes)
    requires |header| == FRAME_HEADER_SIZE && ParseHeader(h, header) == Frame(hdr, [])
    requires hdr.payloadLen == |payload| && hdr.payloadCrc == h.crc(payload)
    ensures ParseFrame(h, header + payload + tail) == Frame(hdr, payload)
  {
    var rest := header + payload + tail;
    assert rest[..FRAME_HEADER_SIZE] == header;
    assert rest[FRAME_HEADER_SIZE..] == payload + tail;
    assert (payload + tail)[..|payload|] == payload;
  }

  /** Reading back a written frame yields its header fields and payload,
      whatever bytes follow it. */
  lemma FrameRoundTrip(h: Hashes, flags: byte, docSeq: uint32, frameSeq: uint32, payload: Bytes, tail: Bytes)
    requires |payload| <= MAX_FRAME_PAYLOAD
    ensures ParseFrame(h, FrameBytes(h, flags, docSeq, frameSeq, payload) + tail)
            == Frame(WrittenHeader(h, flags, docSeq, frameSeq, payload), payload)
  {
    ParseWrittenHeader(h, flags, docSeq, frameSeq, payload);
    ParseAfterHeader(h, HeaderBytes(h, flags, docSeq, frameSeq, payload),
                     WrittenHeader(h, flags, docSeq, frameSeq, payload), payload, tail);
  }

  /** Exactly how a frame cut short after k bytes reads: a clean end of file
      after 0 bytes, but also after the whole header of a non-empty payload. */
  lemma TornFrame(h: Hashes, flags: byte, docSeq: uint32, frameSeq: uint32, payload: Bytes, k: nat)
    requires |payload| <= MAX_FRAME_PAYLOAD && k < FRAME_HEADER_SIZE + |payload|
    ensures ParseFrame(h, FrameBytes(h, flags, docSeq, frameSeq, payload)[..k])
            == Failed(if k == 0 || k == FRAME_HEADER_SIZE then AtEof else Truncated)
  {
    var rest := FrameBytes(h, flags, docSeq, frameSeq, payload)[..k];
    if k >= FRAME_HEADER_SIZE {
      ParseWrittenHeader(h, flags, docSeq, frameSeq, payload);
      assert rest[..FRAME_HEADER_SIZE] == HeaderBytes(h, flags, docSeq, frameSeq, payload);
    }
  }

  /** Little-endian store of v into n bytes of a buffer. */
  method PutLE(buf: array<byte>, off: nat, v: nat, n: nat)
    requires off + n <= buf.Length
    modifies buf
    ensures buf[..] == old(buf[..off]) + LE(v, n) + old(buf[off + n..])
    ensures forall i :: 0 <= i < off || off + n <= i < buf.Length ==> buf[i] == old(buf[i])
  {
    var rest, i := v, 0;
    while i < n
      invariant i <= n
      invariant LE(v, n) == buf[off..off + i] + LE(rest, n - i)
      invariant forall j :: 0 <= j < off || off + n <= j < buf.Length ==> buf[j] == old(buf[j])
    {
      ghost var before := buf[off..off + i];
      buf[off + i] := rest % 256;
      assert buf[off..off + i + 1] == before + [rest % 256];
      rest, i := rest / 256, i + 1;
    }
    assert buf[..] == buf[..off] + buf[off..off + n] + buf[off + n..];
    assert buf[..off] == old(buf[..off]) && buf[off + n..] == old(buf[off + n..]);
  }

  /** The first `off` bytes of a zeroed buffer have been filled with `done`. */
  ghost predicate Filled(buf: array<byte>, done: Bytes)
    reads buf
  {
    && |done| <= buf.Length && buf[..|done|] == done
    && forall i :: |done| <= i < buf.Length ==> buf[i] == 0
  }

  method PutField(buf: array<byte>, ghost done: Bytes, off: nat, v: nat, n: nat)
    requires Filled(buf, done) && off == |done| && off + n <= buf.Length
    modifies buf
    ensures Filled(buf, done + LE(v, n))
  {
    hide LE;
    PutLE(buf, off, v, n);
    assert buf[..off + n] == done + LE(v, n);
  }

  method PutByte(buf: array<byte>, ghost done: Bytes, off: nat, b: byte)
    requires Filled(buf, done) && off == |done| < buf.Length
    modifies buf
    ensures Filled(buf, done + [b])
  {
    buf[off] := b;
    assert buf[..off + 1] == buf[..off] + [b];
  }

  /** A reserved field is left as it is. */
  lemma SkipReserved(buf: array<byte>, done: Bytes, zeros: Bytes)
    requires Filled(buf, done) && |done| + |zeros| <= buf.Length && forall i :: 0 <= i < |zeros| ==> zeros[i] == 0
    ensures Filled(buf, done + zeros)
  {
    assert buf[..|done| + |zeros|] == buf[..|done|] + buf[|done|..|done| + |zeros|];
    assert buf[|done|..|done| + |zeros|] == zeros;
  }

  method FillHeader(h: Hashes, buf: array<byte>, flags: byte, docSeq: uint32, frameSeq: uint32, payload: Bytes)
    requires buf.Length == FRAME_HEADER_SIZE && |payload| <= MAX_FRAME_PAYLOAD
    requires forall i :: 0 <= i < buf.Length ==> buf[i] == 0
    modifies buf
    ensures buf[..] == HeaderBytes(h, flags, docSeq, frameSeq, payload)
  {
    hide LE, Filled;
    assert Filled(buf, []) by { NothingFilled(buf); }
    ghost var d: Bytes := [];
    PutField(buf, d, 0, FRAME_MAGIC, 2);
    d := d + LE(FRAME_MAGIC, 2);
    PutByte(buf, d, 2, FRAME_VERSION);
    d := d + [FRAME_VERSION];
    PutByte(buf, d, 3, flags);
    d := d + [flags];
    PutField(buf, d, 4, FRAME_HEADER_SIZE, 2);
    d := d + LE(FRAME_HEADER_SIZE, 2);
    SkipReserved(buf, d, [0, 0]);
    d := d + [0, 0];
    PutField(buf, d, 8, docSeq, 4);
    d := d + LE(docSeq, 4);
    PutField(buf, d, 12, frameSeq, 4);
    d := d + LE(frameSeq, 4);
    PutField(buf, d, 16, |payload|, 4);
    d := d + LE(|payload|, 4);
    PutField(buf, d, 20, h.crc(payload), 4);
    d := d + LE(h.crc(payload), 4);
    SkipReserved(buf, d, [0, 0, 0, 0]);
    d := d + [0, 0, 0, 0];
    SameFields(h, flags, docSeq, frameSeq, payload, d);
    assert buf[..28] == d by { FilledSoFar(buf, d); }
    PutField(buf, d, 28, h.crc(buf[..28]), 4);
    FilledSoFar(buf, d + LE(h.crc(d), 4));
    assert buf[..32] == buf[..];
  }

  lemma NothingFilled(buf: array<byte>)
    requires forall i :: 0 <= i < buf.Length ==> buf[i] == 0
    ensures Filled(buf, [])
  {
  }

  lemma FilledSoFar(buf: array<byte>, done: Bytes)
    requires Filled(buf, done)
    ensures |done| <= buf.Length && buf[..|done|] == done
  {
  }

  lemma SameFields(h: Hashes, flags: byte, docSeq: uint32, frameSeq: uint32, payload: Bytes, d: Bytes)
    requires |payload| <= MAX_FRAME_PAYLOAD
    requires d == [] + LE(FRAME_MAGIC, 2) + [FRAME_VERSION] + [flags] + LE(FRAME_HEADER_SIZE, 2) + [0, 0] + LE(docSeq, 4)
                  + LE(frameSeq, 4) + LE(|payload|, 4) + LE(h.crc(payload), 4) + [0, 0, 0, 0]
    ensures d == HeaderPrefix(h, flags, docSeq, frameSeq, payload)
  {
    hide LE;
    assert [] + LE(FRAME_MAGIC, 2) + [FRAME_VERSION] + [flags] == LE(FRAME_MAGIC, 2) + [FRAME_VERSION, flags];
  }

  /** Writes two pieces one after the other: some prefix of their concatenation
      lands, all of it when both writes are accepted. */
  method WriteBoth(f: File, a: Bytes, b: Bytes) returns (ok: bool)
    requires a != []
    modifies f
    ensures exists n :: 0 <= n <= |a| + |b| && (ok ==> n == |a| + |b|) && f.pos == old(f.pos) + n
                        && f.data == Splice(old(f.data), old(f.pos), (a + b)[..n])
    ensures f.healthy ==> ok
  {
    ghost var d0, p0 := f.data, f.pos;
    ok := f.Write(a);
    ghost var i :| 0 <= i <= |a| && (ok ==> i == |a|) && f.pos == p0 + i && f.data == Splice(d0, p0, a[..i]);
    assert (a + b)[..i] == a[..i];
    if ok && |b| > 0 {
      ghost var d1 := f.data;
      ok := f.Write(b);
      ghost var n :| 0 <= n <= |b| && (ok ==> n == |b|) && f.pos == p0 + |a| + n
                     && f.data == Splice(d1, p0 + |a|, b[..n]);
      assert a[..i] == a;
      SpliceTwice(d0, p0, a, b[..n]);
      assert (a + b)[..|a| + n] == a + b[..n];
    }
  }

  /** Assembles the header in a zeroed buffer, then writes header and payload.
      A refused write leaves some prefix of the frame. */
  method WriteFrame(h: Hashes, f: File, flags: byte, docSeq: uint32, frameSeq: uint32, payload: Bytes)
    returns (ok: bool)
    modifies f
    ensures |payload| > MAX_FRAME_PAYLOAD ==> !ok && f.data == old(f.data) && f.pos == old(f.pos)
    ensures |payload| <= MAX_FRAME_PAYLOAD ==>
              exists n :: 0 <= n <= FRAME_HEADER_SIZE + |payload|
                && (ok ==> n == FRAME_HEADER_SIZE + |payload|)
                && f.pos == old(f.pos) + n
                && f.data == Splice(old(f.data), old(f.pos), FrameBytes(h, flags, docSeq, frameSeq, payload)[..n])
    ensures f.healthy && |payload| <= MAX_FRAME_PAYLOAD ==> ok
  {
    if |payload| > MAX_FRAME_PAYLOAD {
      return false;
    }
    var buf := new byte[FRAME_HEADER_SIZE](_ => 0);
    FillHeader(h, buf, flags, docSeq, frameSeq, payload);
    assert buf[..] + payload == FrameBytes(h, flags, docSeq, frameSeq, payload);
    ok := WriteBoth(f, buf[..], payload);
  }

  method ReadFrame(h: Hashes, f: File) returns (r: FrameRead)
    modifies f`pos
    ensures r == ParseFrame(h, old(f.Rest()))
    ensures r.Frame? ==> f.pos == old(f.pos) + FRAME_HEADER_SIZE + |r.payload|
                         && f.Rest() == old(f.Rest())[FRAME_HEADER_SIZE + |r.payload|..]
    ensures old(f.pos) <= f.pos
  {
    ghost var rest := f.Rest();
    var buf, err := f.ReadFull(FRAME_HEADER_SIZE);
    if err != NoError {
      return Failed(if err == UnexpectedEof then Truncated else AtEof);
    }
    r := ParseHeader(h, buf);
    if r.Failed? {
      return;
    }
    var payload := [];
    if r.hdr.payloadLen > 0 {
      payload, err := f.ReadFull(r.hdr.payloadLen);
      if err != NoError {
        return Failed(if err == UnexpectedEof then Truncated else AtEof);
      }
    }
    if h.crc(payload) != r.hdr.payloadCrc {
      return Failed(CrcMismatch);
    }
    r := Frame(r.hdr, payload);
  }
}
