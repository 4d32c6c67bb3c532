/** The read-ahead block buffer that serves file slices to a synchronizing replica. */
module RsyncReader {
  import opened Bytes

  const kBlockSize: nat := 16777216

  /** The files, which do not change while they are read. */
  type Files = map<string, seq<Byte>>

  function Min(a: nat, b: nat): nat {
    if a < b then a else b
  }

  function BlockOf(offset: nat): nat {
    offset / kBlockSize * kBlockSize
  }

  lemma {:induction false} JoinedSlices(f: seq<Byte>, a: nat, b: nat, c: nat)
    requires a <= b <= c <= |f|
    ensures f[a..b] + f[b..c] == f[a..c]
  {
  }

  class RsyncReader {
    const blockData: array<Byte>
    var startOffset: nat
    var endOffset: nat
    var totalSize: nat
    var isOpen: bool
    var filepath: string

    /** The buffer holds the file's bytes from startOffset to endOffset: a whole block, or the last. */
    ghost predicate Valid(fs: Files)
      reads this, blockData
    {
      && blockData.Length == kBlockSize
      && (isOpen <==> filepath != "")
      && (!isOpen ==> startOffset == endOffset)
      && (isOpen ==>
            && filepath in fs && totalSize == |fs[filepath]|
            && startOffset == BlockOf(startOffset) && startOffset <= totalSize
            && endOffset == Min(startOffset + kBlockSize, totalSize)
            && blockData[..endOffset - startOffset] == fs[filepath][startOffset..endOffset])
    }

    constructor (ghost fs: Files)
      ensures Valid(fs) && !isOpen && fresh(blockData)
    {
      blockData := new Byte[kBlockSize];
      startOffset, endOffset, totalSize := 0xFFFF_FFFF_FFFF_FFFF, 0xFFFF_FFFF_FFFF_FFFF, 0xFFFF_FFFF_FFFF_FFFF;
      isOpen, filepath := false, "";
    }

    method Reset()
      requires blockData.Length == kBlockSize
      modifies this, blockData
      ensures !isOpen && filepath == "" && startOffset == endOffset && totalSize == 0xFFFF_FFFF_FFFF_FFFF
      ensures forall i | 0 <= i < kBlockSize :: blockData[i] == 0
    {
      totalSize, startOffset, endOffset := 0xFFFF_FFFF_FFFF_FFFF, 0xFFFF_FFFF, 0xFFFF_FFFF;
      forall i | 0 <= i < kBlockSize {
        blockData[i] := 0;
      }
      filepath, isOpen := "", false;
    }

    /** Reads at most n bytes of f at `offset` to position `at` of the buffer; any shorter read and, with faults, an error may happen. */
    method Pread(f: seq<Byte>, n: nat, offset: nat, at: nat, faults: bool) returns (bytesIn: int)
      requires blockData.Length == kBlockSize && at + n <= kBlockSize
      modifies blockData
      ensures -1 <= bytesIn <= n && (bytesIn > 0 ==> offset + bytesIn <= |f|)
      ensures bytesIn == 0 ==> n == 0 || offset >= |f|
      ensures bytesIn == -1 ==> faults
      ensures blockData[..at] == old(blockData[..at])
      ensures bytesIn > 0 ==> blockData[at..at + bytesIn] == f[offset..offset + bytesIn]
    {
      var most := if offset >= |f| then 0 else Min(n, |f| - offset);
      if most == 0 {
        var fails: bool := *;
        return if fails && faults then -1 else 0;
      }
      bytesIn :| (if faults then -1 else 1) <= bytesIn <= most && bytesIn != 0;
      forall i | 0 <= i < bytesIn {
        blockData[at + i] := f[offset + i];
      }
    }

    /** Fills the buffer from the start of the block; short reads are continued. */
    method Fill(f: seq<Byte>, readOffset: nat, readCount: nat, faults: bool) returns (failed: bool, filled: nat)
      requires blockData.Length == kBlockSize && readCount <= kBlockSize && readOffset + readCount <= |f|
      modifies blockData
      ensures failed ==> faults
      ensures !failed ==> filled == readCount && blockData[..filled] == f[readOffset..readOffset + filled]
    {
      filled := 0;
      var left: nat, bytesIn := readCount, 0;
      while true
        invariant filled + left == readCount && blockData[..filled] == f[readOffset..readOffset + filled]
        decreases left
      {
        bytesIn := Pread(f, left, readOffset + filled, filled, faults);
        if bytesIn <= 0 {
          break;
        }
        assert blockData[..filled + bytesIn] == blockData[..filled] + blockData[filled..filled + bytesIn];
        JoinedSlices(f, readOffset, readOffset + filled, readOffset + filled + bytesIn);
        left := left - bytesIn;
        filled := filled + bytesIn;
        if left <= 0 {
          break;
        }
      }
      failed := bytesIn < 0;
    }

    method ReadAhead(fs: Files, path: string, offset: nat, faults: bool) returns (ok: bool)
      requires Valid(fs) && (path in fs ==> offset <= |fs[path]|)
      modifies this, blockData
      ensures Valid(fs)
      ensures ok ==> isOpen && filepath == path && startOffset == BlockOf(offset)
      ensures !ok ==> path == "" || path !in fs || faults
    {
      hide BlockOf;
      BlockBounds(offset);
      if path == filepath && offset >= startOffset && offset < endOffset {
        SameBlock(startOffset, offset);
        return true;
      }
      if path != filepath {
        Reset();
        if path == "" || path !in fs {
          return false;
        }
        filepath, isOpen := path, true;
        totalSize := |fs[path]|;
      }
      if !isOpen {
        Reset();
        return false;
      }
      startOffset := BlockOf(offset);
      var readCount := if kBlockSize > totalSize - startOffset then totalSize - startOffset else kBlockSize;
      var failed, filled := Fill(fs[path], startOffset, readCount, faults);
      if failed {
        Reset();
        return false;
      }
      endOffset := startOffset + filled;
      return true;
    }

    /** The bytes asked for, as far as they are in the block at the offset; is_eof marks the file's end. */
    method Read(fs: Files, path: string, offset: nat, count: nat, faults: bool)
      returns (ok: bool, data: seq<Byte>, isEof: bool)
      requires Valid(fs) && (path in fs ==> offset <= |fs[path]|)
      modifies this, blockData
      ensures Valid(fs)
      ensures path !in fs ==> !ok
      ensures !ok ==> (path == "" || path !in fs || faults) && data == [] && !isEof
      ensures ok ==> && |data| == Min(count, Min(BlockOf(offset) + kBlockSize, |fs[path]|) - offset)
                     && data == fs[path][offset..offset + |data|]
                     && (isEof <==> offset + |data| == |fs[path]|)
    {
      ok := ReadAhead(fs, path, offset, faults);
      if !ok {
        return false, [], false;
      }
      var offsetInBlock := offset % kBlockSize;
      var copyCount := if count > endOffset - offset then endOffset - offset else count;
      data := blockData[offsetInBlock..offsetInBlock + copyCount];
      assert offsetInBlock == offset - startOffset;
      SliceOfBlock(fs[path], blockData[..endOffset - startOffset], startOffset, endOffset, offset, copyCount);
      PartOfPrefix(blockData[..], endOffset - startOffset, offsetInBlock, offsetInBlock + copyCount);
      assert blockData[..][..endOffset - startOffset] == blockData[..endOffset - startOffset];
      assert data == blockData[..][offsetInBlock..offsetInBlock + copyCount];
      isEof := offset + copyCount == totalSize;
    }
  }

  lemma {:induction false} SameBlock(start: nat, offset: nat)
    requires start == BlockOf(start) && start <= offset < start + kBlockSize
    ensures BlockOf(offset) == start
  {
  }

  lemma {:induction false} BlockBounds(offset: nat)
    ensures BlockOf(offset) <= offset < BlockOf(offset) + kBlockSize
    ensures BlockOf(BlockOf(offset)) == BlockOf(offset)
  {
  }

  lemma {:induction false} SliceOfBlock(f: seq<Byte>, block: seq<Byte>, start: nat, end: nat, offset: nat, n: nat)
    requires start <= end <= |f| && block == f[start..end] && start <= offset && offset + n <= end
    ensures block[offset - start..offset - start + n] == f[offset..offset + n]
  {
    assert forall i | offset <= i < offset + n :: block[i - start] == f[i];
  }

  lemma {:induction false} PartOfPrefix(s: seq<Byte>, n: nat, a: nat, b: nat)
    requires a <= b <= n <= |s|
    ensures s[..n][a..b] == s[a..b]
  {
    assert forall i | a <= i < b :: s[..n][i] == s[i];
  }

  /** Asking for one chunk after the other until is_eof gives the whole file, whatever reads come short. */
  method CopyFile(r: RsyncReader, fs: Files, path: string, chunk: nat, faults: bool) returns (ok: bool, content: seq<Byte>)
    requires r.Valid(fs) && chunk > 0
    modifies r, r.blockData
    ensures r.Valid(fs)
    ensures ok ==> path in fs && content == fs[path]
    ensures path in fs && path != "" && !faults ==> ok
  {
    content := [];
    while true
      invariant r.Valid(fs) && (path in fs ==> |content| <= |fs[path]| && content == fs[path][..|content|])
      invariant path !in fs ==> content == []
      decreases if path in fs then |fs[path]| - |content| else 0
    {
      var data, isEof;
      ok, data, isEof := r.Read(fs, path, |content|, chunk, faults);
      if !ok {
        return false, content;
      }
      assert fs[path][..|content| + |data|] == fs[path][..|content|] + data;
      if isEof {
        return true, content + data;
      }
      content := content + data;
    }
  }
}
