/** The operating-system file and the reader the store works on.  A device may
    refuse a write after any number of bytes and may fail a sync; both are left
    to non-deterministic choice, so what is proved holds for every such outcome. */
module Storage {
  import opened Bytes

  /** Outcome of io.ReadFull: a read that ends at the very first byte is Eof,
      one that ends part-way is UnexpectedEof. */
  datatype ReadError = NoError | Eof | UnexpectedEof | Fault

  /** The bytes io.ReadFull delivers out of `rest` when asked for n. */
  function Taken(rest: Bytes, n: nat): (buf: Bytes)
    ensures |buf| <= n
  {
    if n <= |rest| then rest[..n] else rest
  }

  function FullError(rest: Bytes, n: nat): ReadError
  {
    if n <= |rest| then NoError
    else if rest == [] then Eof
    else UnexpectedEof
  }

  /** Contents of a file after writing b at position p; a hole reads as zeros. */
  function Splice(d: Bytes, p: nat, b: Bytes): (r: Bytes)
  {
    if b == [] then d
    else if p > |d| then d + seq(p - |d|, _ => 0) + b
    else d[..p] + b + (if p + |b| < |d| then d[p + |b|..] else [])
  }

  lemma SpliceTwice(d: Bytes, p: nat, a: Bytes, b: Bytes)
    requires a != []
    ensures Splice(Splice(d, p, a), p + |a|, b) == Splice(d, p, a + b)
  {
    if b == [] {
      assert a + b == a;
    } else if p > |d| {
      var pre := d + seq(p - |d|, _ => 0);
      assert (pre + a)[..p + |a|] == pre + a;
      assert pre + a + b == pre + (a + b);
    } else {
      SpliceInside(d, p, a, b);
    }
  }

  lemma SpliceInside(d: Bytes, p: nat, a: Bytes, b: Bytes)
    requires a != [] && b != [] && p <= |d|
    ensures Splice(Splice(d, p, a), p + |a|, b) == Splice(d, p, a + b)
  {
    var tail := if p + |a| < |d| then d[p + |a|..] else [];
    var s := d[..p] + a + tail;
    assert s[..p + |a|] == d[..p] + a;
    assert d[..p] + a + b == d[..p] + (a + b);
    if |b| < |tail| {
      assert s[p + |a| + |b|..] == tail[|b|..] == d[p + |a| + |b|..];
    }
  }

  class File {
    var data: Bytes
    var pos: nat
    /** A healthy device accepts every write, sync and truncation. */
    const healthy: bool

    constructor (contents: Bytes, healthy: bool)
      ensures data == contents && pos == 0 && this.healthy == healthy
    {
      data := contents;
      pos := 0;
      this.healthy := healthy;
    }

    /** The bytes at and after the cursor. */
    function Rest(): Bytes
      reads this
    {
      if pos <= |data| then data[pos..] else []
    }

    method ReadFull(n: nat) returns (buf: Bytes, err: ReadError)
      modifies this`pos
      ensures buf == Taken(old(Rest()), n) && err == FullError(old(Rest()), n)
      ensures pos == old(pos) + |buf|
      ensures Rest() == old(Rest())[|buf|..]
    {
      var rest := Rest();
      buf, err := Taken(rest, n), FullError(rest, n);
      pos := pos + |buf|;
    }

    method Seek(offset: nat)
      modifies this`pos
      ensures pos == offset
    {
      pos := offset;
    }

    method Write(buf: Bytes) returns (ok: bool)
      modifies this
      ensures exists n :: 0 <= n <= |buf| && (ok ==> n == |buf|) && pos == old(pos) + n
                          && data == Splice(old(data), old(pos), buf[..n])
      ensures healthy ==> ok
    {
      var n :| 0 <= n <= |buf| && (healthy ==> n == |buf|);
      ok := n == |buf|;
      data := Splice(data, pos, buf[..n]);
      pos := pos + n;
    }

    method Sync() returns (ok: bool)
      ensures healthy ==> ok
    {
      ok :| healthy ==> ok;
    }

    method Truncate(size: nat) returns (ok: bool)
      modifies this`data
      ensures ok ==> data == if size <= |old(data)| then old(data)[..size]
                             else old(data) + seq(size - |old(data)|, _ => 0)
      ensures !ok ==> data == old(data)
      ensures healthy ==> ok
    {
      ok :| healthy ==> ok;
      if ok {
        data := if size <= |data| then data[..size] else data + seq(size - |data|, _ => 0);
      }
    }
  }

  /** A document body: its bytes, then end of file or, when `faulty`, an error. */
  class Body {
    var rest: Bytes
    const faulty: bool

    constructor (contents: Bytes, faulty: bool)
      ensures rest == contents && this.faulty == faulty
    {
      rest := contents;
      this.faulty := faulty;
    }

    method ReadFull(n: nat) returns (buf: Bytes, err: ReadError)
      modifies this
      ensures buf == Taken(old(rest), n) && rest == old(rest)[|buf|..]
      ensures err == if faulty && n > |old(rest)| then Fault else FullError(old(rest), n)
    {
      buf := Taken(rest, n);
      err := if faulty && n > |rest| then Fault else FullError(rest, n);
      rest := rest[|buf|..];
    }
  }
}
