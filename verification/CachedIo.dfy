// include/cached_io.h: sequential reads and writes through one block of cache.

module CachedIo {
  import opened Bytes

  class CachedReader {
    const file: seq<byte>
    const cacheSize: nat
    const cache: array<byte>
    var curOff: nat
    /** Position of the underlying stream. */
    var pos: nat

    /** The unread part of the cache is what lies just before the stream position. */
    ghost predicate Valid()
      reads this, cache
    {
      && cache.Length == cacheSize <= |file| && curOff <= cacheSize
      && cacheSize - curOff <= pos <= |file|
      && (curOff < cacheSize ==> cacheSize <= pos && cache[..] == file[pos - cacheSize..pos])
    }

    /** Where a plain sequential reader would stand. */
    ghost function Position(): (p: nat)
      requires Valid()
      reads this, cache
      ensures p <= |file|
    {
      pos - (cacheSize - curOff)
    }

    /** open: the cache never exceeds the file and is filled at once. */
    constructor (file: seq<byte>, cacheSize: nat)
      ensures Valid() && Position() == 0 && this.file == file && fresh(cache)
      ensures this.cacheSize == if cacheSize < |file| then cacheSize else |file|
    {
      var size := if cacheSize < |file| then cacheSize else |file|;
      this.file, this.cacheSize := file, size;
      cache := new byte[size](_ => 0);
      curOff, pos := size, 0;
      new;
      Refill();
    }

    /** read: exactly the next `n` bytes of the file; it throws exactly when the
        file does not have them, and then nothing has moved. */
    method Read(n: nat) returns (ok: bool, out: seq<byte>)
      requires Valid()
      modifies this, cache
      ensures Valid()
      ensures ok <==> old(Position()) + n <= |file|
      ensures ok ==> out == file[old(Position())..old(Position()) + n] && Position() == old(Position()) + n
      ensures !ok ==> Position() == old(Position())
    {
      if n <= cacheSize - curOff {
        CacheAgrees(n);
        out := cache[curOff..curOff + n];
        curOff := curOff + n;
        return true, out;
      }
      if n - (cacheSize - curOff) > |file| - pos {
        return false, [];
      }
      out := ReadThrough(n);
      ok := true;
    }

    /** The rest of the cache, the remainder straight from the file, then a new
        cache if the file still has that much. */
    method ReadThrough(n: nat) returns (out: seq<byte>)
      requires Valid() && cacheSize - curOff < n && Position() + n <= |file|
      modifies this, cache
      ensures Valid()
      ensures out == file[old(Position())..old(Position()) + n] && Position() == old(Position()) + n
    {
      var cached := cacheSize - curOff;
      CacheAgrees(cached);
      out := cache[curOff..curOff + cached] + file[pos..pos + (n - cached)];
      pos := pos + (n - cached);
      curOff := cacheSize;
      if |file| - pos >= cacheSize {
        Refill();
      }
    }

    /** The unread part of the cache is the file from the position on. */
    lemma CacheAgrees(n: nat)
      requires Valid() && n <= cacheSize - curOff
      ensures cache[curOff..curOff + n] == file[Position()..Position() + n]
    {
      if curOff < cacheSize {
        SliceOfSlice(file, pos - cacheSize, cacheSize, curOff, n);
        assert cache[curOff..curOff + n] == cache[..][curOff..curOff + n];
      }
    }

    method Refill()
      requires cache.Length == cacheSize <= |file| - pos && pos <= |file|
      modifies this, cache
      ensures Valid() && curOff == 0 && pos == old(pos) + cacheSize
    {
      forall i | 0 <= i < cacheSize {
        cache[i] := file[pos + i];
      }
      pos := pos + cacheSize;
      curOff := 0;
      assert cache[..] == file[pos - cacheSize..pos];
    }
  }

  /** A write of `b` at `pos`: overwrites, and extends at the end. */
  function WriteAt(file: seq<byte>, pos: nat, b: seq<byte>): (r: seq<byte>)
    requires pos <= |file|
    ensures pos + |b| <= |r|
  {
    file[..pos] + b + (if pos + |b| < |file| then file[pos + |b|..] else [])
  }

  /** Two writes in a row are one. */
  lemma WriteTwice(file: seq<byte>, pos: nat, a: seq<byte>, b: seq<byte>)
    requires pos <= |file|
    ensures WriteAt(WriteAt(file, pos, a), pos + |a|, b) == WriteAt(file, pos, a + b)
  {
    var once, both := WriteAt(file, pos, a), WriteAt(file, pos, a + b);
    var twice := WriteAt(once, pos + |a|, b);
    assert once[..pos + |a|] == file[..pos] + a;
    assert |twice| == |both|;
    forall i | 0 <= i < |both| ensures twice[i] == both[i] {
    }
  }

  class CachedWriter {
    const cacheSize: nat
    const cache: array<byte>
    var curOff: nat
    var fsize: nat
    /** The underlying stream. */
    var file: seq<byte>
    var pos: nat

    ghost predicate Valid()
      reads this
    {
      cache.Length == cacheSize && curOff <= cacheSize && pos <= |file|
    }

    /** The file and position a plain writer would have. */
    ghost function Contents(): seq<byte>
      requires Valid()
      reads this, cache
    {
      WriteAt(file, pos, cache[..curOff])
    }

    ghost function Position(): nat
      reads this
    {
      pos + curOff
    }

    constructor (cacheSize: nat)
      ensures Valid() && Contents() == [] && Position() == 0 && fsize + curOff == 0 && fresh(cache)
    {
      this.cacheSize := cacheSize;
      cache := new byte[cacheSize](_ => 0);
      curOff, fsize, file, pos := 0, 0, [], 0;
    }

    /** write */
    method Write(b: seq<byte>)
      requires Valid()
      modifies this, cache
      ensures Valid() && Contents() == WriteAt(old(Contents()), old(Position()), b)
      ensures Position() == old(Position()) + |b| && fsize + curOff == old(fsize + curOff) + |b|
    {
      WriteTwice(file, pos, cache[..curOff], b);
      if |b| <= cacheSize - curOff {
        ghost var before := cache[..curOff];
        forall i | 0 <= i < |b| {
          cache[curOff + i] := b[i];
        }
        curOff := curOff + |b|;
        assert cache[..curOff] == before + b;
      } else {
        file := WriteAt(file, pos, cache[..curOff]);
        pos := pos + curOff;
        file := WriteAt(file, pos, b);
        pos := pos + |b|;
        fsize := fsize + curOff + |b|;
        Zero();
        assert cache[..curOff] == [];
        NothingPending(file, pos);
      }
    }

    method Zero()
      requires cache.Length == cacheSize
      modifies cache, `curOff
      ensures curOff == 0
    {
      forall i | 0 <= i < cache.Length {
        cache[i] := 0;
      }
      curOff := 0;
    }

    /** flush_cache: what was pending is in the file. */
    method FlushCache()
      requires Valid()
      modifies this, cache
      ensures Valid() && curOff == 0 && file == old(Contents()) == Contents() && Position() == old(Position())
      ensures fsize == old(fsize + curOff)
    {
      file := WriteAt(file, pos, cache[..curOff]);
      pos := pos + curOff;
      fsize := fsize + curOff;
      Zero();
      assert cache[..curOff] == [];
      NothingPending(file, pos);
    }

    /** reset: back to the start of the file, for rewriting the header. */
    method Reset()
      requires Valid()
      modifies this, cache
      ensures Valid() && file == Contents() == old(Contents()) && Position() == 0
      ensures fsize + curOff == old(fsize + curOff)
    {
      FlushCache();
      pos := 0;
      assert cache[..curOff] == [];
      NothingPending(file, pos);
    }

    /** close: nothing stays behind in the cache. */
    method Close()
      requires Valid()
      modifies this, cache
      ensures Valid() && file == old(Contents()) && curOff == 0 && fsize == old(fsize + curOff)
    {
      if curOff > 0 {
        FlushCache();
      } else {
        assert cache[..curOff] == [];
        NothingPending(file, pos);
      }
    }
  }

  lemma NothingPending(file: seq<byte>, pos: nat)
    requires pos <= |file|
    ensures WriteAt(file, pos, []) == file
  {
  }

  // ---- what get_file_size reports ----

  datatype WriterOp = Put(b: seq<byte>) | Flush | Rewind

  /** A writer without a cache, and the number of bytes written through it. */
  datatype Plain = Plain(contents: seq<byte>, pos: nat, counted: nat)

  function Written(ops: seq<WriterOp>): (p: Plain)
    ensures p.pos <= |p.contents|
  {
    if ops == [] then Plain([], 0, 0)
    else
      var p := Written(ops[..|ops| - 1]);
      match ops[|ops| - 1]
      case Put(b) => Plain(WriteAt(p.contents, p.pos, b), p.pos + |b|, p.counted + |b|)
      case Flush => p
      case Rewind => p.(pos := 0)
  }

  /** No byte is written over another one. */
  ghost predicate AppendsOnly(ops: seq<WriterOp>) {
    ops == [] ||
      var init, op, p := ops[..|ops| - 1], ops[|ops| - 1], Written(ops[..|ops| - 1]);
      AppendsOnly(init) && (op.Put? && op.b != [] ==> p.pos == |p.contents|)
  }

  /** The counted size is the size of the file exactly when every non-empty write
      started at its end; otherwise it is larger. */
  lemma {:induction false} CountedExactly(ops: seq<WriterOp>)
    ensures Written(ops).counted >= |Written(ops).contents|
    ensures Written(ops).counted == |Written(ops).contents| <==> AppendsOnly(ops)
  {
    if ops != [] {
      CountedExactly(ops[..|ops| - 1]);
    }
  }

  /** Any sequence of operations through a cache of any size, and a close: file and
      counted size are the plain writer's. */
  method Replay(ops: seq<WriterOp>, cacheSize: nat) returns (file: seq<byte>, size: nat)
    ensures file == Written(ops).contents && size == Written(ops).counted
    ensures size == |file| <==> AppendsOnly(ops)
  {
    var w := new CachedWriter(cacheSize);
    for k := 0 to |ops|
      invariant w.Valid() && fresh(w) && fresh(w.cache)
      invariant Plain(w.Contents(), w.Position(), w.fsize + w.curOff) == Written(ops[..k])
    {
      assert ops[..k + 1][..k] == ops[..k];
      match ops[k]
      case Put(b) => w.Write(b);
      case Flush => w.FlushCache();
      case Rewind => w.Reset();
    }
    w.Close();
    assert ops[..|ops|] == ops;
    CountedExactly(ops);
    file, size := w.file, w.fsize;
  }

  /** A header rewritten in place is counted twice. */
  lemma RewriteCountsTwice()
    ensures var p := Written([Put([1, 2]), Rewind, Put([7])]); p.contents == [7, 2] && p.counted == 3
  {
    var ops: seq<WriterOp> := [Put([1, 2]), Rewind, Put([7])];
    assert ops[..2] == [Put([1, 2]), Rewind] && ops[..2][..1] == [Put([1, 2])] && ops[..2][..1][..0] == [];
    assert Written(ops[..2][..1]) == Plain([1, 2], 2, 2);
  }

  /** Writing block after block from an empty file. */
  function Blocks(bs: seq<seq<byte>>): seq<byte> {
    if bs == [] then [] else Blocks(bs[..|bs| - 1]) + bs[|bs| - 1]
  }

  /** Whatever the cache size, a run of writes and a close leave the concatenation
      of the blocks in the file, and reads of the same sizes give the blocks back. */
  method WriteThenRead(bs: seq<seq<byte>>, writeCache: nat, readCache: nat) returns (back: seq<seq<byte>>)
    ensures back == bs
  {
    var w := new CachedWriter(writeCache);
    for k := 0 to |bs|
      invariant w.Valid() && fresh(w) && fresh(w.cache)
      invariant w.Contents() == Blocks(bs[..k]) && w.Position() == |Blocks(bs[..k])|
    {
      assert bs[..k + 1][..k] == bs[..k];
      w.Write(bs[k]);
    }
    w.Close();
    assert bs[..|bs|] == bs;
    back := ReadBack(w.file, bs, readCache);
  }

  method ReadBack(file: seq<byte>, bs: seq<seq<byte>>, readCache: nat) returns (back: seq<seq<byte>>)
    requires file == Blocks(bs)
    ensures back == bs
  {
    var r := new CachedReader(file, readCache);
    back := [];
    for k := 0 to |bs|
      invariant r.Valid() && fresh(r) && fresh(r.cache) && r.file == file
      invariant back == bs[..k] && r.Position() == |Blocks(bs[..k])|
    {
      BlockAt(bs, k);
      var ok, out := r.Read(|bs[k]|);
      assert out == bs[k];
      back := back + [out];
    }
    assert bs[..|bs|] == bs;
  }

  lemma {:induction false} BlockAt(bs: seq<seq<byte>>, k: nat)
    requires k < |bs|
    ensures |Blocks(bs[..k + 1])| == |Blocks(bs[..k])| + |bs[k]| <= |Blocks(bs)|
    ensures Blocks(bs)[|Blocks(bs[..k])|..|Blocks(bs[..k])| + |bs[k]|] == bs[k]
    decreases |bs|
  {
    assert bs[..k + 1][..k] == bs[..k];
    if k == |bs| - 1 {
      assert bs[..k + 1] == bs;
    } else {
      var init := bs[..|bs| - 1];
      BlockAt(init, k);
      assert init[..k] == bs[..k] && init[..k + 1] == bs[..k + 1];
    }
  }
}
