/** Streaming a file range into device memory chunk by chunk. */
module GdsRouters {
  import opened Common
  import opened PageTables

  newtype Byte = x: int | 0 <= x < 256

  /** One read of the DMA engine: file offset and length. */
  datatype Request = Request(off: nat, n: nat)

  const DEFAULT_CHUNK: Word := 16 * 1024 * 1024

  /** Consecutive non-empty requests of at most `chunk` bytes from `from` to `to`. */
  ghost predicate Tiles(rs: seq<Request>, from: nat, to: nat, chunk: nat) {
    if rs == [] then from == to
    else
      var r := rs[|rs| - 1];
      && from <= r.off && 1 <= r.n <= chunk && r.off + r.n == to
      && Tiles(rs[..|rs| - 1], from, r.off, chunk)
  }

  /** The same, every request a whole chunk. */
  ghost predicate TilesWhole(rs: seq<Request>, from: nat, to: nat, chunk: nat) {
    Tiles(rs, from, to, chunk) && forall i | 0 <= i < |rs| :: rs[i].n == chunk
  }

  /** No two requests of a tiling overlap, and each lies within the range. */
  lemma {:induction false} TilesDisjoint(rs: seq<Request>, from: nat, to: nat, chunk: nat, i: nat, j: nat)
    requires Tiles(rs, from, to, chunk) && i < j < |rs|
    ensures from <= rs[i].off && rs[i].off + rs[i].n <= rs[j].off && rs[j].off + rs[j].n <= to
    decreases |rs|
  {
    var init := rs[..|rs| - 1];
    if j < |rs| - 1 {
      TilesDisjoint(init, from, rs[|rs| - 1].off, chunk, i, j);
      assert rs[i] == init[i] && rs[j] == init[j];
    } else {
      TileWithin(init, from, rs[|rs| - 1].off, chunk, i);
      assert rs[i] == init[i];
    }
  }

  lemma {:induction false} TileWithin(rs: seq<Request>, from: nat, to: nat, chunk: nat, i: nat)
    requires Tiles(rs, from, to, chunk) && i < |rs|
    ensures from <= rs[i].off && rs[i].off + rs[i].n <= to
    decreases |rs|
  {
    if i < |rs| - 1 {
      TileWithin(rs[..|rs| - 1], from, rs[|rs| - 1].off, chunk, i);
    }
  }

  /** The tiles together are the range: every offset lies in one of them. */
  lemma {:induction false} TilesCover(rs: seq<Request>, from: nat, to: nat, chunk: nat, x: nat)
    requires Tiles(rs, from, to, chunk) && from <= x < to
    ensures exists i :: 0 <= i < |rs| && rs[i].off <= x < rs[i].off + rs[i].n
    decreases |rs|
  {
    var init, r := rs[..|rs| - 1], rs[|rs| - 1];
    if x < r.off {
      TilesCover(init, from, r.off, chunk, x);
      var i :| 0 <= i < |init| && init[i].off <= x < init[i].off + init[i].n;
      assert rs[i] == init[i];
    } else {
      assert rs[|rs| - 1].off <= x;
    }
  }

  /** A reply of the DMA engine; when it is a failure, `copied` bytes had been copied. */
  datatype Reply = Reply(s: Status, copied: nat)

  /** What the engine answers a request: it fails past the end of the file. */
  function Answer(file: seq<Byte>, r: Request, reply: Reply): Status {
    if r.off + r.n > |file| then IoError else reply.s
  }

  /** The DMA engine: may fail at any point of the copy; Ok means the whole piece was
      copied. */
  method GdsRead(file: seq<Byte>, off: Word, dst: array<Byte>, at: nat, n: nat, reply: Reply) returns (s: Status)
    requires at + n <= dst.Length
    modifies dst
    ensures s == Answer(file, Request(off, n), reply)
    ensures dst[..at] == old(dst[..at]) && dst[at + n..] == old(dst[at + n..])
    ensures s.Ok? ==> off + n <= |file| && dst[at..at + n] == file[off..off + n]
  {
    if off + n > |file| { return IoError; }
    var upto := if reply.s.Ok? then n else Min(reply.copied, n);
    for i := 0 to upto
      invariant dst[..at] == old(dst[..at]) && dst[at + n..] == old(dst[at + n..])
      invariant dst[at..at + i] == file[off..off + i]
    {
      dst[at + i] := file[off + i];
      assert dst[at..at + i + 1] == dst[at..at + i] + [file[off + i]];
      assert file[off..off + i + 1] == file[off..off + i] + [file[off + i]];
    }
    s := reply.s;
  }

  /** The first `done` bytes of the range are in place. */
  ghost predicate Holds(file: seq<Byte>, offset: nat, buf: seq<Byte>, done: nat) {
    done > 0 ==> offset + done <= |file| && done <= |buf| && buf[..done] == file[offset..offset + done]
  }

  /** A prefix of the range followed by the next piece is a longer prefix. */
  lemma ReadExtends(file: seq<Byte>, offset: nat, buf: seq<Byte>, off: nat, n: nat)
    requires off + n <= |buf| && offset + off + n <= |file| && n > 0
    requires Holds(file, offset, buf, off)
    requires buf[off..off + n] == file[offset + off..offset + off + n]
    ensures Holds(file, offset, buf, off + n)
  {
  }

  /** Read one piece after the first `off` bytes of the range. */
  method ReadPiece(file: seq<Byte>, offset: Word, dst: array<Byte>, off: nat, n: nat, reply: Reply)
      returns (s: Status, ghost r: Request)
    requires off + n <= dst.Length < 0x8000_0000_0000_0000 && n > 0 && |file| < 0x8000_0000_0000_0000
    requires Holds(file, offset, dst[..], off)
    modifies dst
    ensures r == Request(offset + off, n) && s == Answer(file, r, reply)
    ensures Holds(file, offset, dst[..], if s.Ok? then off + n else off)
    ensures dst[..][off + n..] == old(dst[..])[off + n..]
  {
    var at: Word := (offset + off) % U64;
    r := Request(at, n);
    s := GdsRead(file, at, dst, off, n, reply);
    assert dst[..][..off] == dst[..off] && old(dst[..])[..off] == old(dst[..off]);
    assert dst[..][off + n..] == dst[off + n..] && old(dst[..])[off + n..] == old(dst[off + n..]);
    if s.Ok? {
      assert dst[..][off..off + n] == dst[off..off + n];
      ReadExtends(file, offset, dst[..], off, n);
    }
  }

  /** `buf` is `was` with the first `done` bytes of the range read into it, by the
      requests `rs`. */
  ghost predicate Streamed(file: seq<Byte>, offset: nat, was: seq<Byte>, buf: seq<Byte>, rs: seq<Request>,
                           done: nat, chunk: nat)
  {
    && |buf| == |was| && done <= |buf|
    && Holds(file, offset, buf, done)
    && buf[done..] == was[done..]
    && Tiles(rs, offset, offset + done, chunk)
  }

  /** A run that stopped at a failed request: those before it are whole chunks and in
      place, and nothing past the failed piece has changed. */
  ghost predicate Interrupted(file: seq<Byte>, offset: nat, was: seq<Byte>, buf: seq<Byte>, rs: seq<Request>, done: nat,
                              bytes: nat, chunk: nat)
  {
    && |buf| == |was| && done < bytes <= |buf| && rs != []
    && Holds(file, offset, buf, done)
    && TilesWhole(rs[..|rs| - 1], offset, offset + done, chunk)
    && rs[|rs| - 1] == Request(offset + done, Min(chunk, bytes - done))
    && buf[done + rs[|rs| - 1].n..] == was[done + rs[|rs| - 1].n..]
  }

  lemma StreamStep(file: seq<Byte>, offset: nat, was: seq<Byte>, buf: seq<Byte>, rs: seq<Request>, done: nat,
                   bytes: nat, chunk: nat, n: nat, buf': seq<Byte>, ok: bool)
    requires Streamed(file, offset, was, buf, rs, done, chunk) && TilesWhole(rs, offset, offset + done, chunk)
    requires done < bytes <= |buf| && chunk > 0 && n == Min(chunk, bytes - done) && |buf'| == |buf|
    requires Holds(file, offset, buf', if ok then done + n else done) && buf'[done + n..] == buf[done + n..]
    ensures var rs' := rs + [Request(offset + done, n)];
            && (ok ==> Streamed(file, offset, was, buf', rs', done + n, chunk))
            && (ok && n == chunk ==> TilesWhole(rs', offset, offset + done + n, chunk))
            && (!ok ==> Interrupted(file, offset, was, buf', rs', done, bytes, chunk))
  {
  }

  /** Requests answered in turn: all Ok but perhaps the last, all whole chunks but the last. */
  ghost predicate InTurn(file: seq<Byte>, rs: seq<Request>, engine: nat -> Reply, chunk: nat) {
    && (forall i | 0 <= i < |rs| - 1 :: Answer(file, rs[i], engine(i)) == Ok && rs[i].n == chunk)
    && (rs != [] ==> rs[|rs| - 1].n <= chunk)
  }

  lemma NextInTurn(file: seq<Byte>, rs: seq<Request>, engine: nat -> Reply, chunk: nat, from: nat, to: nat, r: Request)
    requires InTurn(file, rs, engine, chunk) && TilesWhole(rs, from, to, chunk) && r.n <= chunk
    requires rs != [] ==> Answer(file, rs[|rs| - 1], engine(|rs| - 1)) == Ok
    ensures InTurn(file, rs + [r], engine, chunk)
  {
  }

  function ChunkOr(chunkBytes: Word): Word {
    if chunkBytes == 0 then DEFAULT_CHUNK else chunkBytes
  }

  /** Below 2^63 the next chunk offset does not wrap. */
  lemma NextOffset(off: Word, chunk: Word, bytes: nat)
    requires off < bytes < 0x8000_0000_0000_0000 && (off > 0 ==> chunk < bytes)
    ensures (off + chunk) % U64 == off + chunk
  {
  }

  /** Stream `bytes` bytes at `offset` of the file to the front of `dst`. Offsets are
      64-bit words and every addition wraps; no object, in memory or on disk, reaches
      2^63 bytes. An Ok run is one read of the whole range. The engine answers the
      requests in turn, and the first that is not Ok ends the run with that answer. */
  method GdsStream(file: seq<Byte>, offset: Word, dst: array<Byte>, bytes: Word, chunkBytes: Word,
                   engine: nat -> Reply)
      returns (s: Status, ghost rs: seq<Request>, ghost done: nat)
    requires bytes <= dst.Length < 0x8000_0000_0000_0000 && |file| < 0x8000_0000_0000_0000
    modifies dst
    ensures s.Ok? ==> done == bytes && Streamed(file, offset, old(dst[..]), dst[..], rs, bytes, ChunkOr(chunkBytes))
    ensures !s.Ok? ==> Interrupted(file, offset, old(dst[..]), dst[..], rs, done, bytes, ChunkOr(chunkBytes))
    ensures done > 0 ==> offset + done <= |file| && dst[..done] == file[offset..offset + done]
    ensures var chunk := if chunkBytes == 0 then 16777216 else chunkBytes;
            && (forall i | 0 <= i < |rs| - 1 :: Answer(file, rs[i], engine(i)) == Ok && rs[i].n == chunk)
            && (rs != [] ==> rs[|rs| - 1].n <= chunk)
    ensures s == if rs == [] then Ok else Answer(file, rs[|rs| - 1], engine(|rs| - 1))
  {
    var chunk := ChunkOr(chunkBytes);
    s, rs, done := StreamChunks(file, offset, dst, bytes, chunk, engine);
    assert done > 0 ==> Holds(file, offset, dst[..], done) && dst[..][..done] == dst[..done];
  }

  /** The streaming loop, with the chunk size settled. */
  method StreamChunks(file: seq<Byte>, offset: Word, dst: array<Byte>, bytes: Word, chunk: Word, engine: nat -> Reply)
      returns (s: Status, ghost rs: seq<Request>, ghost done: nat)
    requires bytes <= dst.Length < 0x8000_0000_0000_0000 && |file| < 0x8000_0000_0000_0000 && chunk > 0
    modifies dst
    ensures s.Ok? ==> done == bytes && Streamed(file, offset, old(dst[..]), dst[..], rs, bytes, chunk)
    ensures !s.Ok? ==> Interrupted(file, offset, old(dst[..]), dst[..], rs, done, bytes, chunk)
    ensures InTurn(file, rs, engine, chunk)
    ensures s == if rs == [] then Ok else Answer(file, rs[|rs| - 1], engine(|rs| - 1))
  {
    var count: nat := 0;
    rs := [];
    var off: Word := 0;
    done := 0;
    ghost var was := dst[..];
    s := Ok;
    while off < bytes
      invariant count == |rs| && done == Min(off, bytes) && (0 < off < bytes ==> chunk < bytes)
      invariant Streamed(file, offset, was, dst[..], rs, done, chunk)
      invariant off < bytes ==> TilesWhole(rs, offset, offset + done, chunk)
      invariant InTurn(file, rs, engine, chunk)
      invariant s == Ok && (rs != [] ==> Answer(file, rs[|rs| - 1], engine(|rs| - 1)) == Ok)
      decreases U64 - off
    {
      var n := Min(chunk, bytes - off);
      s, rs := StreamPiece(file, offset, dst, off, n, count, engine, was, rs, bytes, chunk);
      if !s.Ok? { return; }
      count := count + 1;
      done := off + n;
      NextOffset(off, chunk, bytes);
      off := (off + chunk) % U64;
    }
  }

  /** One turn of the streaming loop. */
  method StreamPiece(file: seq<Byte>, offset: Word, dst: array<Byte>, off: nat, n: nat,
                     count: nat, engine: nat -> Reply,
                     ghost was: seq<Byte>, ghost rs0: seq<Request>, ghost bytes: nat, ghost chunk: nat)
      returns (s: Status, ghost rs: seq<Request>)
    requires off < bytes <= dst.Length < 0x8000_0000_0000_0000 && |file| < 0x8000_0000_0000_0000
    requires chunk > 0 && n == Min(chunk, bytes - off)
    requires Streamed(file, offset, was, dst[..], rs0, off, chunk) && TilesWhole(rs0, offset, offset + off, chunk)
    requires count == |rs0| && InTurn(file, rs0, engine, chunk)
    requires rs0 != [] ==> Answer(file, rs0[|rs0| - 1], engine(|rs0| - 1)) == Ok
    modifies dst
    ensures s.Ok? ==> Streamed(file, offset, was, dst[..], rs, off + n, chunk)
    ensures s.Ok? && n == chunk ==> TilesWhole(rs, offset, offset + off + n, chunk)
    ensures !s.Ok? ==> Interrupted(file, offset, was, dst[..], rs, off, bytes, chunk)
    ensures rs == rs0 + [Request(offset + off, n)] && InTurn(file, rs, engine, chunk)
    ensures s == Answer(file, Request(offset + off, n), engine(count))
  {
    ghost var buf, r := dst[..], Request(0, 0);
    s, r := ReadPiece(file, offset, dst, off, n, engine(count));
    NextInTurn(file, rs0, engine, chunk, offset, offset + off, r);
    StreamStep(file, offset, was, buf, rs0, off, bytes, chunk, n, dst[..], s.Ok?);
    rs := rs0 + [r];
  }
}
