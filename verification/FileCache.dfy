/**
 The one-block write-back cache of fileio/impl/student.c, which must behave like the uncached calls
 of fileio/impl/naive.c:76-98, that is like `Posix.Apply`.

 The contents a caller sees are the disk overlaid with the dirty block.  System calls do not fail
 here; a write may be short, a read is complete.
 */
module FileCache {
  import opened Posix

  /** How many bytes of a file of `n` bytes lie in the block of `size` bytes at `pos`. */
  function InBlock(n: nat, pos: nat, size: nat): (v: nat)
    ensures v <= size
  {
    if n <= pos then 0 else if n - pos <= size then n - pos else size
  }

  function Min(a: nat, b: nat): nat { if a < b then a else b }
  function Max(a: nat, b: nat): nat { if a > b then a else b }

  /** What a caller sees of the file. */
  function Seen(disk: seq<Byte>, pos: nat, block: seq<Byte>, dirty: bool): seq<Byte> {
    if dirty then Overlay(disk, pos, block) else disk
  }

  /** The valid part of the cache is the file's part of the block. */
  ghost predicate Coherent(disk: seq<Byte>, pos: nat, block: seq<Byte>, dirty: bool, size: nat) {
    && |block| == InBlock(|Seen(disk, pos, block, dirty)|, pos, size)
    && (!dirty && block != [] ==> pos + |block| <= |disk| && disk[pos..pos + |block|] == block)
  }

  lemma SeenAt(disk: seq<Byte>, pos: nat, block: seq<Byte>, dirty: bool, size: nat, i: nat)
    requires Coherent(disk, pos, block, dirty, size) && i < |Seen(disk, pos, block, dirty)|
    ensures Seen(disk, pos, block, dirty)[i]
         == if pos <= i < pos + |block| then block[i - pos] else if i < |disk| then disk[i] else 0
  {
    if dirty && block != [] {
      OverlayAt(disk, pos, block, i);
    } else if pos <= i < pos + |block| {
      assert disk[pos..pos + |block|][i - pos] == disk[i];
    }
  }

  /** The block and the disk after zeros were put before `idx` and `piece` at `idx`. */
  ghost predicate StoredIn(disk: seq<Byte>, pos: nat, block: seq<Byte>, disk': seq<Byte>, block': seq<Byte>,
                           idx: nat, piece: seq<Byte>) {
    && |block'| == Max(|block|, idx + |piece|)
    && (forall i: nat :: i < |block'| ==>
          block'[i] == if idx <= i < idx + |piece| then piece[i - idx] else if i < |block| then block[i] else 0)
    && |disk| <= |disk'| && (|disk'| == |disk| || |disk'| <= pos)
    && (forall i: nat :: i < |disk'| ==> disk'[i] == if i < |disk| then disk[i] else 0)
  }

  lemma StoredAt(disk: seq<Byte>, pos: nat, block: seq<Byte>, dirty: bool, size: nat, disk': seq<Byte>, block': seq<Byte>,
                 idx: nat, piece: seq<Byte>, i: nat)
    requires Coherent(disk, pos, block, dirty, size) && piece != [] && idx + |piece| <= size
    requires StoredIn(disk, pos, block, disk', block', idx, piece)
    requires i < |Overlay(disk', pos, block')| && i < |Overlay(Seen(disk, pos, block, dirty), pos + idx, piece)|
    ensures Overlay(disk', pos, block')[i] == Overlay(Seen(disk, pos, block, dirty), pos + idx, piece)[i]
  {
    hide Overlay, Seen, Coherent;
    var c := Seen(disk, pos, block, dirty);
    OverlayAt(disk', pos, block', i);
    OverlayAt(c, pos + idx, piece, i);
    CoherentLength(disk, pos, block, dirty, size);
    if i < |c| { SeenAt(disk, pos, block, dirty, size, i); }
  }

  lemma CoherentLength(disk: seq<Byte>, pos: nat, block: seq<Byte>, dirty: bool, size: nat)
    requires Coherent(disk, pos, block, dirty, size)
    ensures var n := |Seen(disk, pos, block, dirty)|;
            |block| == InBlock(n, pos, size) && |disk| <= n && (|disk| == n || n == pos + |block|)
  {
  }

  /** Storing `piece` in the block at `idx`, with zeros between the old end and `idx`, is what a
      write to the file at that place does. */
  lemma Stored(disk: seq<Byte>, pos: nat, block: seq<Byte>, dirty: bool, size: nat, disk': seq<Byte>, block': seq<Byte>,
               idx: nat, piece: seq<Byte>)
    requires Coherent(disk, pos, block, dirty, size) && piece != [] && idx + |piece| <= size
    requires StoredIn(disk, pos, block, disk', block', idx, piece)
    ensures Seen(disk', pos, block', true) == Overlay(Seen(disk, pos, block, dirty), pos + idx, piece)
    ensures Coherent(disk', pos, block', true, size)
  {
    CoherentLength(disk, pos, block, dirty, size);
    hide Overlay, Coherent;
    var c := Seen(disk, pos, block, dirty);
    var l, r := Overlay(disk', pos, block'), Overlay(c, pos + idx, piece);
    assert |l| == |r|;
    forall i: nat | i < |l| ensures l[i] == r[i] {
      StoredAt(disk, pos, block, dirty, size, disk', block', idx, piece, i);
    }
    assert l == r;
    BlockOf(disk', pos, block', size);
  }

  /** A dirty block is coherent if it is the part of the file in its place. */
  lemma BlockOf(disk: seq<Byte>, pos: nat, block: seq<Byte>, size: nat)
    requires |block| == InBlock(|Overlay(disk, pos, block)|, pos, size)
    ensures Coherent(disk, pos, block, true, size)
  {
  }

  lemma ReadPastEnd(c: seq<Byte>, off: nat, n: nat)
    requires off >= |c|
    ensures ReadAt(c, off, n) == []
  {
  }

  lemma ReadMeans(f: File, n: nat)
    ensures var r := ReadAt(f.contents, f.offset, n);
            Apply(f, Op.Read(n)) == (File(f.contents, f.offset + |r|), Bytes(r))
  {
  }

  /** Reading `k` bytes and then going on at `next`, which is right behind them or past the end. */
  lemma ReadOn(c: seq<Byte>, off: nat, k: nat, n: nat, next: nat)
    requires k <= n && (k == 0 || off + k <= |c|)
    requires next == off + k || (off + k >= |c| && next >= |c|)
    ensures ReadAt(c, off, k) + ReadAt(c, next, n - k) == ReadAt(c, off, n)
  {
    hide ReadAt;
    ReadIs(c, off, k);
    ReadIs(c, next, n - k);
    ReadIs(c, off, n);
    if off <= |c| { Pieces(c, off, Within(c, off + k), Within(c, off + n)); }
  }

  function Within(c: seq<Byte>, i: nat): nat { if i <= |c| then i else |c| }

  lemma ReadIs(c: seq<Byte>, off: nat, n: nat)
    ensures ReadAt(c, off, n) == if off >= |c| then [] else c[off..Within(c, off + n)]
  {
  }

  lemma Pieces(c: seq<Byte>, a: nat, b: nat, d: nat)
    requires a <= b <= d <= |c|
    ensures c[a..b] + c[b..d] == c[a..d]
  {
    var l, r := c[a..b] + c[b..d], c[a..d];
    assert |l| == |r| && forall i: nat :: i < |l| ==> l[i] == r[i];
  }

  lemma ReadToEnd(c: seq<Byte>, off: nat, k: nat, n: nat)
    requires k <= n && off + k == |c|
    ensures ReadAt(c, off, k) == ReadAt(c, off, n)
  {
  }

  class CachedFile {
    const size: nat
    const disk: Descriptor
    const cache: array<Byte>
    var pos: nat
    var idx: nat
    var valid: nat
    var dirty: bool
    var fileSize: nat

    ghost predicate Shape()
      reads this
    {
      size > 0 && cache.Length == size && valid <= size && idx <= size && Aligned(pos, size)
    }

    /** The file as its user sees it. */
    ghost function Contents(): seq<Byte>
      requires Shape()
      reads this, disk, cache
    {
      Seen(disk.contents, pos, cache[..valid], dirty)
    }

    ghost function View(): File
      requires Shape()
      reads this, disk, cache
    {
      File(Contents(), pos + idx)
    }

    ghost predicate BlockOk()
      requires Shape()
      reads this, disk, cache
    {
      Coherent(disk.contents, pos, cache[..valid], dirty, size)
    }

    /** The recorded size may be too large. */
    ghost predicate Loose()
      reads this, disk, cache
    {
      Shape() && BlockOk() && idx < size && fileSize >= |Contents()|
    }

    ghost predicate Valid()
      reads this, disk, cache
    {
      Loose() && fileSize == |Contents()|
    }

    constructor (disk: Descriptor, size: nat, truncate: bool)
      requires size >= 4
      modifies disk
      ensures Valid() && this.size == size && this.disk == disk && fresh(cache)
      ensures View() == File(if truncate then [] else old(disk.contents), 0)
      ensures disk.contents == View().contents
    {
      this.size, this.disk := size, disk;
      this.cache := new Byte[size](_ => 0);
      this.pos, this.idx, this.valid, this.dirty, this.fileSize := 0, 0, 0, false, 0;
      new;
      if truncate { disk.contents := []; }
      fileSize := |disk.contents|;
      valid := Min(fileSize, size);
      disk.Lseek(0);
      var fetched := Fetch();
      if fetched < size { valid := fetched; }
    }

    /** Writes the valid part of a dirty block to disk, however short the single writes are. */
    method Flush()
      requires Shape()
      modifies this`dirty, disk
      ensures Shape() && !dirty && disk.contents == old(Contents()) && Contents() == old(Contents())
    {
      hide Overlay, Aligned;
      if !dirty { return; }
      disk.Lseek(pos);
      var count: nat := 0;
      ghost var was, block := disk.contents, cache[..valid];
      OverlayNothing(was, pos);
      while count < valid
        invariant count <= valid
        invariant disk.contents == Overlay(was, pos, block[..count]) && disk.offset == pos + count
        decreases valid - count
      {
        var written := disk.Write(cache[count..valid]);
        OverlayTwice(was, pos, block[..count], cache[count..valid][..written]);
        assert block[..count] + cache[count..valid][..written] == block[..count + written];
        count := count + written;
      }
      assert block[..count] == block;
      dirty := false;
    }

    /** Reads the block at `pos` into the cache. */
    method Fetch() returns (n: nat)
      requires Shape() && !dirty && |disk.contents| <= fileSize
      modifies this`valid, cache, disk
      ensures Shape() && BlockOk() && disk.contents == old(disk.contents) && n == valid
    {
      if pos >= fileSize {
        valid := 0;
        return 0;
      }
      disk.Lseek(pos);
      var bytes := disk.Read(size);
      Fill(0, bytes);
      valid := |bytes|;
      assert cache[..valid] == bytes;
      return valid;
    }

    /** `memcpy` into the cache. */
    method Fill(at: nat, bytes: seq<Byte>)
      requires at + |bytes| <= cache.Length
      modifies cache
      ensures forall i: nat :: i < cache.Length ==>
                cache[i] == if at <= i < at + |bytes| then bytes[i - at] else old(cache[i])
    {
      var i: nat := 0;
      while i < |bytes|
        invariant i <= |bytes|
        invariant forall j: nat :: j < cache.Length ==>
                    cache[j] == if at <= j < at + i then bytes[j - at] else old(cache[j])
      {
        cache[at + i] := bytes[i];
        i := i + 1;
      }
    }

    method Seek(to: int) returns (r: int)
      requires Loose()
      modifies this, disk, cache
      ensures Loose() && fileSize == old(fileSize) && (View(), Number(r)) == Apply(old(View()), Op.Seek(to))
    {
      if to < 0 { return -1; }
      if pos <= to < pos + size {
        idx := to - pos;
        return to;
      }
      hide Overlay, InBlock, Aligned;
      Flush();
      BlockStart(to, size);
      pos := to - to % size;
      idx := to % size;
      var _ := Fetch();
      return to;
    }

    /** The bytes are those POSIX returns.  So is the offset, unless the recorded size is too large and
        the read meets the end: then it goes on to a block past it. */
    method Read(n: nat) returns (bytes: seq<Byte>)
      requires Loose()
      modifies this, disk, cache
      ensures Loose() && Contents() == old(Contents()) && fileSize == old(fileSize)
      ensures Bytes(bytes) == Apply(old(View()), Op.Read(n)).1
      ensures old(Valid()) || |bytes| == n || old(pos + idx >= fileSize) ==> View() == Apply(old(View()), Op.Read(n)).0
      ensures !old(Valid()) && |bytes| < n && old(pos + idx < fileSize) ==> pos >= fileSize && idx == 0
      ensures old(pos + idx >= fileSize) ==> pos == old(pos) && idx == old(idx)
      decreases fileSize - (pos + idx)
    {
      hide Overlay, Aligned, Coherent, Seen, ReadAt, Apply;
      ReadMeans(View(), n);
      if pos + idx >= fileSize { ReadPastEnd(Contents(), pos + idx, n); return []; }
      ghost var c, off := Contents(), pos + idx;
      bytes := FromBlock(n);
      if |bytes| == n || pos + idx + |bytes| == fileSize {
        if |bytes| < n { ReadToEnd(c, off, |bytes|, n); }
        Skip(|bytes|);
        return bytes;
      }
      NextBlock();
      ReadMeans(View(), n - |bytes|);
      ghost var next := pos;
      if next >= |c| { ReadPastEnd(c, next, n - |bytes|); }
      var rest := Read(n - |bytes|);
      ReadOn(c, off, |bytes|, n, next);
      bytes := bytes + rest;
    }

    /** What the current block has of the bytes asked for. */
    method FromBlock(n: nat) returns (bytes: seq<Byte>)
      requires Loose()
      ensures |bytes| <= n && idx + |bytes| <= size && bytes == ReadAt(Contents(), pos + idx, |bytes|)
      ensures |bytes| == 0 || pos + idx + |bytes| <= |Contents()|
      ensures |bytes| < n ==> idx + |bytes| == size || (pos + idx + |bytes| >= |Contents()| && pos + size >= |Contents()|)
    {
      hide Overlay, Aligned, Coherent, Seen, ReadAt;
      var untilEnd := size - idx;
      var avail: nat := 0;
      if idx < valid { avail := valid - idx; }
      var readable := Min(n, Min(untilEnd, avail));
      bytes := cache[idx..idx + readable];
      FromCache(readable);
      BlockLeft(Min(untilEnd, avail));
    }

    /** The position moves past bytes of the block, and on to the next block if that was its end. */
    method Skip(k: nat)
      requires Loose() && idx + k <= size
      modifies this, disk, cache
      ensures Loose() && Contents() == old(Contents()) && fileSize == old(fileSize) && pos + idx == old(pos + idx) + k
    {
      hide Overlay, Aligned, Coherent, Seen;
      idx := idx + k;
      if idx == size { NextBlock(); }
    }

    /** The bytes in the cache are those of the file. */
    ghost method FromCache(n: nat)
      requires Loose() && (n == 0 || idx + n <= valid)
      ensures idx + n <= size && cache[idx..idx + n] == ReadAt(Contents(), pos + idx, n)
      ensures n == 0 || pos + idx + n <= |Contents()|
    {
      ghost var block, c := cache[..valid], Contents();
      forall i: nat | idx <= i < idx + n ensures pos + i < |c| && cache[i] == c[pos + i] {
        assert pos + i < |c|;
        SeenAt(disk.contents, pos, block, dirty, size, pos + i);
        assert cache[i] == block[i];
      }
      hide Overlay, Seen;
      if n > 0 {
        assert pos + (idx + n - 1) < |c|;
        assert cache[idx..idx + n] == c[pos + idx..pos + idx + n];
      }
    }

    /** Where the next block starts, seen from the bytes that the cache has. */
    ghost method BlockLeft(k: nat)
      requires Loose() && k == Min(size - idx, if idx < valid then valid - idx else 0)
      ensures pos + size == pos + idx + k || (pos + idx + k >= |Contents()| && pos + size >= |Contents()|)
    {
    }

    /** Write back, then go on to the start of the next block. */
    method NextBlock()
      requires Shape() && BlockOk() && fileSize >= |Contents()|
      modifies this, disk, cache
      ensures Shape() && BlockOk() && idx == 0 && !dirty && pos == old(pos) + size && fileSize == old(fileSize)
      ensures Contents() == old(Contents())
    {
      hide Overlay, InBlock, Aligned;
      Flush();
      NextStart(pos, size);
      pos := pos + size;
      idx := 0;
      var _ := Fetch();
    }

    method Readc() returns (r: int)
      requires Valid()
      modifies this, disk, cache
      ensures Valid() && (View(), Number(r)) == Apply(old(View()), Op.Readc)
    {
      var bytes := Read(1);
      if |bytes| <= 0 { return -1; }
      return bytes[0];
    }

    // ---- Writing ----

    /** A write may go on in the next block when the file's new size is already recorded, and it may start
        in a block past a recorded size that is too large. */
    ghost predicate Writing(n: nat)
      reads this, disk, cache
    {
      && Shape() && BlockOk() && idx < size
      && (|| fileSize == |Contents()|
          || (n > 0 && pos + idx <= |Contents()| && fileSize == Max(|Contents()|, pos + idx + n))
          || |Contents()| <= fileSize <= pos)
    }

    ghost method WritingFacts(n: nat)
      requires Writing(n)
      ensures valid == InBlock(|Contents()|, pos, size)
      ensures Coherent(disk.contents, pos, cache[..valid], dirty, size)
    {
    }

    /** What lies in the block before the write position reads as zero where the file had no bytes,
        and the disk reaches towards the block if the file ended before it. */
    ghost predicate Filled(disk0: seq<Byte>, block0: seq<Byte>)
      reads this, disk, cache
    {
      && Shape() && valid == |block0| <= size
      && (forall i: nat :: i < Max(idx, valid) ==> cache[i] == if i < valid then block0[i] else 0)
      && |disk0| <= |disk.contents| && (|disk.contents| == |disk0| || |disk.contents| <= pos)
      && (forall i: nat :: i < |disk.contents| ==> disk.contents[i] == if i < |disk0| then disk0[i] else 0)
    }

    /** When the position is past the end, zeros in the block and on disk up to the block. */
    method FillHole(ghost n: nat)
      requires Writing(n)
      modifies this`dirty, this`fileSize, cache, disk
      ensures Filled(old(disk.contents), old(cache[..valid])) && fileSize == Max(old(fileSize), pos + idx)
      ensures old(fileSize) >= pos + idx ==> dirty == old(dirty) && disk.contents == old(disk.contents)
      ensures old(fileSize) >= pos + idx ==> cache[..] == old(cache[..])
      ensures old(fileSize) < pos ==> |disk.contents| > old(|Contents()|)
      ensures old(fileSize) >= pos ==> disk.contents == old(disk.contents)
      ensures cache[..valid] == old(cache[..valid]) && (old(dirty) ==> dirty)
    {
      ghost var c := Contents();
      WritingFacts(n);
      if fileSize < pos + idx {
        NothingBefore(disk.contents, pos, cache[..valid], dirty, size);
        hide Seen, Coherent;
        FillBlock();
        FillDisk();
        fileSize := pos + idx;
      } else {
        assert forall i: nat :: i < valid ==> cache[i] == cache[..valid][i];
      }
    }

    /** Zeros in the block from the end of the file up to the position. */
    method FillBlock()
      requires Shape()
      modifies this`dirty, cache
      ensures var eof := if fileSize > pos then fileSize - pos else 0;
              && dirty == (old(dirty) || idx > eof)
              && forall i: nat :: i < size ==> cache[i] == if eof <= i < idx then 0 else old(cache[i])
    {
      var eof: nat := 0;
      if fileSize > pos { eof := fileSize - pos; }
      if idx > eof {
        Fill(eof, Zeros(idx - eof));
        dirty := true;
      }
    }

    /** Zeros on disk from the end of the file towards the block. */
    method FillDisk()
      requires fileSize <= pos ==> |disk.contents| <= fileSize
      modifies disk
      ensures fileSize >= pos ==> disk.contents == old(disk.contents)
      ensures fileSize < pos ==> fileSize < |disk.contents| <= pos
      ensures |disk.contents| >= old(|disk.contents|)
      ensures forall i: nat :: i < |disk.contents| ==>
                disk.contents[i] == if i < old(|disk.contents|) then old(disk.contents)[i] else 0
    {
      if fileSize <= pos {
        disk.Lseek(fileSize);
        if fileSize < pos {
          Extend(pos - fileSize);
        } else {
          var _ := disk.Write([]);
        }
      }
    }

    /** Zeros past the end of the disk file, perhaps fewer than asked for. */
    method Extend(n: nat)
      requires n > 0 && disk.offset >= |disk.contents|
      modifies disk
      ensures old(disk.offset) < |disk.contents| <= old(disk.offset) + n
      ensures forall i: nat :: i < |disk.contents| ==>
                disk.contents[i] == if i < old(|disk.contents|) then old(disk.contents)[i] else 0
    {
      ghost var was, at := disk.contents, disk.offset;
      var k := disk.Write(Zeros(n));
      forall i: nat | i < |disk.contents| ensures disk.contents[i] == if i < |was| then was[i] else 0 {
        OverlayAt(was, at, Zeros(n)[..k], i);
      }
    }

    /** Puts `piece` into the block at the write position. */
    method Store(piece: seq<Byte>, ghost disk0: seq<Byte>, ghost block0: seq<Byte>, ghost dirty0: bool)
      requires Filled(disk0, block0) && Coherent(disk0, pos, block0, dirty0, size)
      requires piece != [] && idx + |piece| <= size
      modifies this`dirty, this`valid, cache
      ensures Shape() && BlockOk() && Contents() == Overlay(Seen(disk0, pos, block0, dirty0), pos + idx, piece)
    {
      hide Seen, Coherent, Overlay, Aligned, InBlock;
      Fill(idx, piece);
      dirty := true;
      valid := Max(valid, idx + |piece|);
      Stored(disk0, pos, block0, dirty0, size, disk.contents, cache[..valid], idx, piece);
    }

    /** Write back and go on to the next block, reading it only if the file reaches it. */
    method StartNextBlock()
      requires Shape() && BlockOk() && fileSize >= |Contents()|
      modifies this, disk, cache
      ensures Shape() && BlockOk() && idx == 0 && !dirty && pos == old(pos) + size && fileSize == old(fileSize)
      ensures Contents() == old(Contents())
    {
      hide Overlay, Aligned;
      Flush();
      NextStart(pos, size);
      pos := pos + size;
      idx := 0;
      valid := 0;
      if fileSize > pos {
        var _ := Fetch();
      }
    }

    /** A write of no bytes past the end is the one case in which the cache departs from POSIX: it
        records a larger size, and extends the file on disk if it ended before the block. */
    method Write(data: seq<Byte>) returns (r: nat)
      requires Writing(|data|)
      modifies this, disk, cache
      ensures r == |data|
      ensures data != [] || old(pos + idx <= |Contents()|) ==>
                && Valid() && View() == File(Overlay(old(Contents()), old(pos + idx), data), old(pos + idx) + |data|)
      ensures data == [] && old(fileSize == |Contents()| < pos + idx) ==>
                && Loose() && fileSize == old(pos + idx) && pos == old(pos) && idx == old(idx)
                && (if old(pos <= |Contents()|) then Contents() == old(Contents())
                    else |Contents()| > old(|Contents()|))
      decreases |data|
    {
      hide Overlay, Aligned, Coherent, Seen;
      ghost var c, off := Contents(), pos + idx;
      var n := WriteBlock(data);
      assert data[..n] + data[n..] == data;
      if n == |data| {
        assert data[..n] == data;
        OverlayNothing(c, off);
        return n;
      }
      OverlayTwice(c, off, data[..n], data[n..]);
      var rest := Write(data[n..]);
      return n + rest;
    }

    /** The part of the data that fits into the current block. */
    method WriteBlock(data: seq<Byte>) returns (n: nat)
      requires Writing(|data|)
      modifies this, disk, cache
      ensures n == Min(|data|, size - old(idx)) && Shape()
      ensures data != [] ==>
                && Contents() == Overlay(old(Contents()), old(pos + idx), data[..n])
                && Writing(|data| - n) && pos + idx == old(pos + idx) + n <= |Contents()|
                && fileSize == Max(|Contents()|, old(pos + idx) + |data|)
      ensures data == [] && old(pos + idx <= |Contents()|) ==> Valid() && View() == old(View())
      ensures data == [] && old(fileSize == |Contents()| < pos + idx) ==>
                && Loose() && fileSize == old(pos + idx) && pos == old(pos) && idx == old(idx)
                && (if old(pos <= |Contents()|) then Contents() == old(Contents())
                    else |Contents()| > old(|Contents()|))
    {
      hide Overlay, Aligned, Coherent, Seen, InBlock;
      n := Min(|data|, size - idx);
      if data != [] { PutBlock(data, n); } else { PutNothing(); }
      if idx + n == size {
        StartNextBlock();
      } else {
        idx := idx + n;
      }
    }

    method PutBlock(data: seq<Byte>, n: nat)
      requires Writing(|data|) && n == Min(|data|, size - idx) > 0
      modifies this`dirty, this`valid, this`fileSize, cache, disk
      ensures Shape() && BlockOk() && Contents() == Overlay(old(Contents()), pos + idx, data[..n])
      ensures pos + idx + n <= |Contents()| && fileSize == Max(|Contents()|, pos + idx + |data|)
    {
      hide Overlay, Aligned, Coherent, Seen, InBlock;
      ghost var c, off := Contents(), pos + idx;
      ghost var disk0, block0, dirty0 := disk.contents, cache[..valid], dirty;
      WritingFacts(|data|);
      FillHole(|data|);
      Store(data[..n], disk0, block0, dirty0);
      StoredLength(c, off, data[..n]);
      if fileSize < pos + idx + |data| { fileSize := pos + idx + |data|; }
    }

    /** Without data there is only the hole to fill; nothing of it counts as valid. */
    method PutNothing()
      requires Writing(0)
      modifies this`dirty, this`fileSize, cache, disk
      ensures Shape() && BlockOk()
      ensures old(pos + idx <= |Contents()|) ==> Contents() == old(Contents()) && fileSize == old(fileSize)
      ensures old(fileSize == |Contents()| < pos + idx) ==>
                && fileSize == pos + idx >= |Contents()|
                && (if old(pos <= |Contents()|) then Contents() == old(Contents())
                    else |Contents()| > old(|Contents()|))
    {
      hide Overlay, Aligned, Coherent, Seen, InBlock;
      ghost var disk0, block0, dirty0 := disk.contents, cache[..valid], dirty;
      WritingFacts(0);
      FillHole(0);
      NothingBefore(disk0, pos, block0, dirty0, size);
      if old(fileSize) >= pos {
        Reflagged(disk0, pos, block0, dirty0, size);
      } else {
        EmptyBlock(disk.contents, pos, dirty, size);
      }
    }

    /** The byte is the argument reduced to a char, and so is the value returned. */
    method Writec(ch: int) returns (r: int)
      requires Valid()
      modifies this, disk, cache
      ensures Valid() && View() == Apply(old(View()), Op.Writec(ch)).0
      ensures r == ch % 256 && (r == ch <==> 0 <= ch < 256)
    {
      hide Overlay, Aligned, Coherent, Seen, InBlock;
      var c: Byte := ch % 256;
      var n := Write([c]);
      if n == 1 { return c; } else { return -1; }
    }

    /** Closing leaves the file on disk as its user saw it. */
    method Close()
      requires Loose()
      modifies this, disk
      ensures disk.contents == old(Contents())
    {
      Flush();
    }

    method Perform(op: Op) returns (a: Answer)
      requires Valid() && NoEmptyHole(View(), op)
      modifies this, disk, cache
      ensures Valid() && View() == Apply(old(View()), op).0 && a == Given(op, Apply(old(View()), op).1)
    {
      hide Overlay, Seen, Coherent, Aligned;
      match op {
        case Seek(to) => var r := Seek(to); a := Number(r);
        case Read(n) => var r := Read(n); a := Bytes(r);
        case Readc => var r := Readc(); a := Number(r);
        case Write(data) => var r := Write(data); a := Number(r);
        case Writec(ch) => var r := Writec(ch); a := Number(r);
      }
    }

    method PerformAll(ops: seq<Op>) returns (answers: seq<Answer>)
      requires Valid() && NoEmptyHoles(View(), ops)
      modifies this, disk, cache
      ensures Valid() && View() == Final(old(View()), ops) && AllGiven(ops, Answers(old(View()), ops), answers)
    {
      hide Apply, NoEmptyHole, Coherent, Seen, Overlay, Aligned, Given;
      answers := [];
      ghost var start := View();
      var k: nat := 0;
      while k < |ops|
        invariant k <= |ops| && Valid() && View() == Final(start, ops[..k])
        invariant AllGiven(ops[..k], Answers(start, ops[..k]), answers)
      {
        assert ops[..k + 1][..k] == ops[..k];
        var a := Perform(ops[k]);
        GivenNext(ops[..k], Answers(start, ops[..k]), answers, ops[k], Apply(Final(start, ops[..k]), ops[k]).1, a);
        assert ops[..k + 1] == ops[..k] + [ops[k]];
        answers := answers + [a];
        k := k + 1;
      }
      assert ops[..k] == ops;
    }

    /** Writing nothing past the end, and then a few calls more, shows on disk. */
    method WriteNothing() returns (more: seq<Op>)
      requires Valid() && pos + idx > |Contents()|
      modifies this, disk, cache
      ensures Loose() && Contents() != Final(old(View()), [Op.Write([])] + more).contents
    {
      hide Seen, Overlay, Coherent, Aligned, ReadAt;
      ghost var start := View();
      ghost var c, off := start.contents, start.offset;
      AfterNothing(start);
      if pos > fileSize {
        var _ := Write([]);
        more := [];
        assert [Op.Write([])] + more == [Op.Write([])];
      } else {
        var back: nat := pos + idx - 1;
        var _ := Write([]);
        more := [Op.Seek(back), Op.Read(1), Op.Write([97])];
        var _ := Seek(back);
        ReadPastEnd(c, back, 1);
        var _ := Read(1);
        var _ := Write([97]);
      }
    }
  }

  /** Not a zero-length write past the end. */
  predicate NoEmptyHole(f: File, op: Op) {
    op.Write? ==> op.data != [] || f.offset <= |f.contents|
  }

  ghost predicate NoEmptyHoles(f: File, ops: seq<Op>) {
    forall k: nat :: k < |ops| ==> NoEmptyHole(Final(f, ops[..k]), ops[k])
  }

  /** The answer given where POSIX answers `a`: `writec` returns the byte that it wrote. */
  function Given(op: Op, a: Answer): Answer {
    if op.Writec? then Number(op.ch % 256) else a
  }

  predicate AllGiven(ops: seq<Op>, posix: seq<Answer>, answers: seq<Answer>) {
    |ops| == |posix| == |answers| && forall k: nat :: k < |ops| ==> answers[k] == Given(ops[k], posix[k])
  }

  lemma GivenNext(ops: seq<Op>, posix: seq<Answer>, answers: seq<Answer>, op: Op, p: Answer, a: Answer)
    requires AllGiven(ops, posix, answers) && a == Given(op, p)
    ensures AllGiven(ops + [op], posix + [p], answers + [a])
  {
  }

  predicate BytesOnly(ops: seq<Op>) {
    forall k: nat :: k < |ops| && ops[k].Writec? ==> 0 <= ops[k].ch < 256
  }

  lemma {:induction false} AnswerAt(f: File, ops: seq<Op>, k: nat)
    requires k < |ops|
    ensures |Answers(f, ops)| == |ops|
    ensures ops[k].Writec? ==> Answers(f, ops)[k] == Number(ops[k].ch)
    decreases |ops|
  {
    hide Final;
    var n := |ops| - 1;
    if n > 0 { AnswerAt(f, ops[..n], if k < n then k else 0); }
    if k < n { assert ops[..n][k] == ops[k]; }
  }

  /** All answers are those of POSIX if and only if every `writec` got a byte. */
  lemma GivenExact(f: File, ops: seq<Op>, answers: seq<Answer>)
    requires AllGiven(ops, Answers(f, ops), answers)
    ensures answers == Answers(f, ops) <==> BytesOnly(ops)
  {
    hide Answers, Final, Apply;
    forall k: nat | k < |ops|
      ensures answers[k] == Answers(f, ops)[k] <==> (ops[k].Writec? ==> 0 <= ops[k].ch < 256)
    {
      AnswerAt(f, ops, k);
    }
  }

  /** A whole session on a file, from open to close, for every size of the cache. */
  method Session(contents: seq<Byte>, size: nat, truncate: bool, ops: seq<Op>)
    returns (answers: seq<Answer>, onDisk: seq<Byte>)
    requires size >= 4 && NoEmptyHoles(File(if truncate then [] else contents, 0), ops)
    ensures onDisk == Final(File(if truncate then [] else contents, 0), ops).contents
    ensures AllGiven(ops, Answers(File(if truncate then [] else contents, 0), ops), answers)
    ensures answers == Answers(File(if truncate then [] else contents, 0), ops) <==> BytesOnly(ops)
  {
    hide AllGiven;
    ghost var start := File(if truncate then [] else contents, 0);
    var disk := new Descriptor(contents);
    var f := new CachedFile(disk, size, truncate);
    answers := f.PerformAll(ops);
    GivenExact(start, ops, answers);
    f.Close();
    onDisk := disk.contents;
  }

  /** Wherever a session writes nothing past the end, it can go on so that the file left on disk is not
      the one POSIX leaves.  Up to that write it may be any session. */
  method Departure(contents: seq<Byte>, size: nat, truncate: bool, ops: seq<Op>)
    returns (more: seq<Op>, onDisk: seq<Byte>)
    requires size >= 4 && NoEmptyHoles(File(if truncate then [] else contents, 0), ops)
    requires var f := Final(File(if truncate then [] else contents, 0), ops); f.offset > |f.contents|
    ensures onDisk != Final(File(if truncate then [] else contents, 0), ops + [Op.Write([])] + more).contents
  {
    hide NoEmptyHoles, Answers, Given, AllGiven, Apply, Final, BytesOnly;
    ghost var start := File(if truncate then [] else contents, 0);
    var disk := new Descriptor(contents);
    var f := new CachedFile(disk, size, truncate);
    var _ := f.PerformAll(ops);
    more := f.WriteNothing();
    f.Close();
    onDisk := disk.contents;
    FinalTogether(start, ops, [Op.Write([])] + more);
    assert ops + ([Op.Write([])] + more) == ops + [Op.Write([])] + more;
  }

  /** What POSIX leaves after a write of nothing, alone or followed by a write one byte further back. */
  lemma AfterNothing(f: File)
    requires f.offset > |f.contents|
    ensures Final(f, [Op.Write([])]).contents == f.contents
    ensures |Final(f, [Op.Write([])] + [Op.Seek(f.offset - 1), Op.Read(1), Op.Write([97])]).contents| == f.offset
  {
    var ops := [Op.Write([]), Op.Seek(f.offset - 1), Op.Read(1), Op.Write([97])];
    assert [Op.Write([])] + [Op.Seek(f.offset - 1), Op.Read(1), Op.Write([97])] == ops;
    assert ops[..3] == [Op.Write([]), Op.Seek(f.offset - 1), Op.Read(1)];
    assert ops[..3][..2] == [Op.Write([]), Op.Seek(f.offset - 1)];
    assert ops[..3][..2][..1] == [Op.Write([])];
    assert [Op.Write([])][..0] == [];
    assert Final(f, [Op.Write([])]) == f;
    assert Final(f, ops[..3][..2]) == File(f.contents, f.offset - 1);
    assert Final(f, ops[..3]) == File(f.contents, f.offset - 1);
  }

  lemma {:induction false} FinalTogether(f: File, ops: seq<Op>, more: seq<Op>)
    ensures Final(f, ops + more) == Final(Final(f, ops), more)
    decreases |more|
  {
    hide Apply;
    if more == [] {
      assert ops + more == ops;
    } else {
      var n := |more| - 1;
      assert (ops + more)[..|ops + more| - 1] == ops + more[..n];
      FinalTogether(f, ops, more[..n]);
    }
  }

  /** If the file ends before the block, the block is empty and the disk has the whole file. */
  lemma NothingBefore(disk: seq<Byte>, pos: nat, block: seq<Byte>, dirty: bool, size: nat)
    requires Coherent(disk, pos, block, dirty, size)
    ensures |Seen(disk, pos, block, dirty)| <= pos ==> block == [] && Seen(disk, pos, block, dirty) == disk
  {
  }

  /** Marking a clean block as dirty changes nothing that is seen. */
  lemma Reflagged(disk: seq<Byte>, pos: nat, block: seq<Byte>, dirty: bool, size: nat)
    requires Coherent(disk, pos, block, dirty, size)
    ensures Coherent(disk, pos, block, true, size) && Seen(disk, pos, block, true) == Seen(disk, pos, block, dirty)
  {
    if !dirty && block != [] { OverlaySame(disk, pos, block); }
  }

  lemma EmptyBlock(disk: seq<Byte>, pos: nat, dirty: bool, size: nat)
    requires |disk| <= pos
    ensures Seen(disk, pos, [], dirty) == disk && Coherent(disk, pos, [], dirty, size)
  {
  }

  lemma StoredLength(c: seq<Byte>, off: nat, piece: seq<Byte>)
    ensures piece != [] ==> |Overlay(c, off, piece)| == Max(|c|, off + |piece|)
  {
  }

  // ---- Block boundaries ----

  predicate Aligned(pos: int, size: nat) {
    size > 0 && pos >= 0 && pos % size == 0
  }

  lemma Multiple(k: nat, size: nat)
    requires size > 0
    ensures Aligned(k * size, size)
  {
    var d: int, m: int := k * size / size, k * size % size;
    assert k * size == d * size + m;
    assert (k - d) * size == m;
    assert k - d >= 1 ==> (k - d) * size >= size;
    assert k - d <= -1 ==> (k - d) * size + size <= 0;
  }

  lemma BlockStart(to: nat, size: nat)
    requires size > 0
    ensures Aligned(to - to % size, size) && to % size < size
  {
    Multiple(to / size, size);
  }

  lemma NextStart(pos: nat, size: nat)
    requires Aligned(pos, size)
    ensures Aligned(pos + size, size)
  {
    Multiple(pos / size + 1, size);
    assert (pos / size + 1) * size == pos + size;
  }
}
