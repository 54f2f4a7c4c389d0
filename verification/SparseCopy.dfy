/** `CopyRegDisk` and `cf_full_write`: copying a file with holes where it is zero. */
module SparseCopy {
  import opened Bytes

  /** Bytes of a machine word (`int`). */
  const WORD := 4

  function Zeros(n: nat): (s: seq<byte>)
    ensures |s| == n && forall k :: 0 <= k < n ==> s[k] == 0
  {
    seq(n, _ => 0)
  }

  predicate AllZero(s: seq<byte>) {
    forall k :: 0 <= k < |s| ==> s[k] == 0
  }

  /** A file as it reads when it is extended with zeros up to length `n`. */
  function Extended(s: seq<byte>, n: nat): seq<byte> {
    if |s| >= n then s else s + Zeros(n - |s|)
  }

  /** What a write of `b` at `pos` makes of a file: bytes beyond its end that were skipped read as zero. */
  function Written(s: seq<byte>, pos: nat, b: seq<byte>): seq<byte> {
    var e := Extended(s, pos);
    e[..pos] + b + if pos + |b| <= |e| then e[pos + |b|..] else []
  }

  /** `ftruncate`. */
  function Truncated(s: seq<byte>, n: nat): seq<byte> {
    Extended(s, n)[..n]
  }

  /** Places in a file from `start` up to `end`. */
  datatype Extent = Extent(start: nat, end: nat)

  /** The system calls of one copy: a source that is read from front to back and a destination with a position.
      A call may be interrupted, `patience` times in all, fail, and read or write less than it was asked for.
      `failed` records that some call has failed for good, `blocks` what each `read` has brought, `skips` what has been
      skipped in the destination. */
  class Kernel {
    const source: seq<byte>
    var readPos: nat
    var data: seq<byte>
    var pos: nat
    var patience: nat
    var failed: bool
    var blocks: seq<Extent>
    var skips: seq<Extent>

    constructor (source: seq<byte>, patience: nat)
      ensures this.source == source && readPos == 0 && data == [] && pos == 0 && !failed && blocks == [] && skips == []
    {
      this.source, this.patience := source, patience;
      readPos, data, pos, failed, blocks, skips := 0, [], 0, false, [], [];
    }

    /** `read`: the number of bytes put into `buf`, 0 at the end of the file, -1 for an error. */
    method Read(buf: array<byte>, size: nat) returns (n: int, interrupted: bool)
      requires 0 < size <= buf.Length && readPos <= |source|
      modifies `readPos, `patience, `failed, `blocks, buf
      ensures failed == (old(failed) || (n == -1 && !interrupted))
      ensures -1 <= n <= size && readPos <= |source| && patience <= old(patience)
      ensures n == -1 ==> readPos == old(readPos) && buf[..] == old(buf[..]) && (interrupted ==> patience < old(patience))
      ensures n >= 0 ==> !interrupted && readPos == old(readPos) + n && (n == 0 <==> old(readPos) == |source|)
      ensures n >= 0 ==> buf[..n] == source[old(readPos)..readPos]
      ensures blocks == if n > 0 then old(blocks) + [Extent(old(readPos), readPos)] else old(blocks)
    {
      var kind := *;
      if kind && patience > 0 {
        patience := patience - 1;
        return -1, true;
      }
      var fails := *;
      if fails {
        failed := true;
        return -1, false;
      }
      var k: int := *;
      var left := |source| - readPos;
      var most := if left < size then left else size;
      n := if k < 1 || k > most then most else k;
      interrupted := false;
      forall i | 0 <= i < n {
        buf[i] := source[readPos + i];
      }
      assert buf[..n] == source[readPos..readPos + n];
      if n > 0 {
        blocks := blocks + [Extent(readPos, readPos + n)];
      }
      readPos := readPos + n;
    }

    /** `write`: the number of bytes written, or a negative number. */
    method Write(b: seq<byte>) returns (n: int, interrupted: bool)
      requires |b| > 0
      modifies `data, `pos, `patience, `failed
      ensures failed == (old(failed) || (n < 0 && !interrupted))
      ensures n <= |b| && patience <= old(patience)
      ensures n < 0 ==> data == old(data) && pos == old(pos) && (interrupted ==> patience < old(patience))
      ensures n >= 0 ==> data == Written(old(data), old(pos), b[..n]) && pos == old(pos) + n && !interrupted
      ensures n == 0 ==> patience < old(patience)
    {
      var kind := *;
      if kind && patience > 0 {
        patience := patience - 1;
        return -1, true;
      }
      var fails := *;
      if fails {
        failed := true;
        return -1, false;
      }
      var k: int := *;
      n := if k < 0 || k > |b| then |b| else k;
      if n == 0 {
        if patience == 0 {
          n := |b|;
        } else {
          patience := patience - 1;
        }
      }
      interrupted := false;
      data := Written(data, pos, b[..n]);
      pos := pos + n;
    }

    /** `lseek` forward from the current position. */
    method Skip(n: nat) returns (ok: bool)
      modifies `pos, `failed, `skips
      ensures skips == if ok then old(skips) + [Extent(old(pos), pos)] else old(skips)
      ensures pos == (if ok then old(pos) + n else old(pos)) && failed == (old(failed) || !ok)
    {
      ok := *;
      failed := failed || !ok;
      if ok {
        skips := skips + [Extent(pos, pos + n)];
        pos := pos + n;
      }
    }

    method Truncate(n: nat) returns (ok: bool)
      modifies `data, `failed
      ensures data == (if ok then Truncated(old(data), n) else old(data)) && failed == (old(failed) || !ok)
    {
      ok := *;
      failed := failed || !ok;
      if ok {
        data := Truncated(data, n);
      }
    }
  }

  lemma WrittenTwice(s: seq<byte>, pos: nat, a: seq<byte>, b: seq<byte>)
    ensures Written(Written(s, pos, a), pos + |a|, b) == Written(s, pos, a + b)
  {
    var e := Extended(s, pos);
    var w := Written(s, pos, a);
    var n := pos + |a|;
    hide Extended;
    WrittenLong(s, pos, a);
    LongEnough(w, n);
    assert w[..n] == e[..pos] + a;
    assert e[..pos] + a + b == e[..pos] + (a + b);
    if n + |b| <= |e| {
      assert w[n + |b|..] == e[n + |b|..];
    }
  }

  lemma LongEnough(s: seq<byte>, n: nat)
    requires |s| >= n
    ensures Extended(s, n) == s
  {}

  lemma WrittenLong(s: seq<byte>, pos: nat, a: seq<byte>)
    ensures |Extended(s, pos)| >= pos && |Written(s, pos, a)| >= pos + |a|
    ensures |Written(s, pos, a)| == if pos + |a| <= |Extended(s, pos)| then |Extended(s, pos)| else pos + |a|
  {}

  /** `cf_full_write`: keep writing until everything is written or a write fails. */
  method FullWrite(k: Kernel, b: seq<byte>) returns (total: int)
    modifies k`data, k`pos, k`patience, k`failed
    ensures total < 0 || total == |b|
    ensures k.failed == (old(k.failed) || total < 0)
    ensures total >= 0 && |b| > 0 ==> k.data == Written(old(k.data), old(k.pos), b) && k.pos == old(k.pos) + |b|
    ensures |b| == 0 ==> k.data == old(k.data) && k.pos == old(k.pos)
    ensures k.patience <= old(k.patience)
  {
    hide Written;
    total := 0;
    ghost var started := false;
    while total < |b|
      invariant 0 <= total <= |b| && k.patience <= old(k.patience) && k.failed == old(k.failed)
      invariant Progress(old(k.data), old(k.pos), b, total, started, k.data, k.pos)
      decreases |b| - total, k.patience
    {
      var written, interrupted := k.Write(b[total..]);
      if written < 0 {
        if interrupted {
          continue;
        }
        return written;
      }
      MoreWritten(old(k.data), old(k.pos), b, total, written, started);
      started := true;
      total := total + written;
    }
    assert b[..total] == b;
  }

  /** After the first call of `write` the beginning of `b` has been written. */
  predicate Progress(data: seq<byte>, pos: nat, b: seq<byte>, total: nat, started: bool, data': seq<byte>, pos': nat) {
    && total <= |b| && pos' == pos + total && (|b| == 0 || total > 0 ==> started == (|b| > 0))
    && if started then data' == Written(data, pos, b[..total]) else data' == data && total == 0
  }

  lemma MoreWritten(data: seq<byte>, pos: nat, b: seq<byte>, total: nat, n: nat, started: bool)
    requires total + n <= |b| && (!started ==> total == 0)
    ensures var data' := if started then Written(data, pos, b[..total]) else data;
            Written(data', pos + total, b[total..][..n]) == Written(data, pos, b[..total + n])
  {
    hide Written;
    Slices(b, total, n);
    if started {
      WrittenTwice(data, pos, b[..total], b[total..][..n]);
    }
  }

  lemma Slices(b: seq<byte>, total: nat, n: nat)
    requires total + n <= |b|
    ensures b[..total] + b[total..][..n] == b[..total + n] && |b[..total]| == total && (total == 0 ==> b[total..][..n] == b[..n])
  {}

  /** The scan for a block of zeros: words first, then bytes, both stopped by a sentinel behind the block. */
  method IsHole(buf: array<byte>, n: nat) returns (hole: bool)
    requires 0 < n && n + WORD <= buf.Length
    modifies buf
    ensures hole <==> AllZero(old(buf[..n]))
    ensures buf[..n] == old(buf[..n])
  {
    buf[n] := 1;
    assert buf[..n] == old(buf[..n]);
    var intp := 0;
    while buf[intp] == 0 && buf[intp + 1] == 0 && buf[intp + 2] == 0 && buf[intp + 3] == 0
      invariant 0 <= intp <= n
      invariant forall k :: 0 <= k < intp ==> buf[k] == 0
      decreases n - intp
    {
      assert n >= intp + WORD;
      intp := intp + WORD;
    }
    var cp := intp;
    while buf[cp] == 0
      invariant intp <= cp <= n && forall k :: 0 <= k < cp ==> buf[k] == 0
      decreases n - cp
    {
      cp := cp + 1;
    }
    hole := cp + 1 > n;
    if !hole {
      assert buf[..n][cp] != 0;
    } else {
      assert AllZero(buf[..n]);
    }
  }

  /** What has been copied so far: the destination, extended with zeros up to its position, is the part of the source
      that has been read; without a hole at the end it needs no extension. */
  ghost predicate Copied(k: Kernel, hole: bool)
    reads k
  {
    && k.readPos <= |k.source| && k.pos == k.readPos && |k.data| <= k.pos
    && Extended(k.data, k.pos) == k.source[..k.readPos]
    && (!hole ==> |k.data| == k.pos)
  }

  lemma CopyBlock(data: seq<byte>, pos: nat, source: seq<byte>, b: seq<byte>)
    requires |data| <= pos && pos + |b| <= |source| && Extended(data, pos) == source[..pos] && b == source[pos..pos + |b|]
    ensures Written(data, pos, b) == source[..pos + |b|]
  {
    assert source[..pos + |b|] == source[..pos] + b;
    assert Extended(data, pos)[..pos] == source[..pos];
  }

  lemma CopyHole(data: seq<byte>, pos: nat, source: seq<byte>, n: nat)
    requires |data| <= pos && pos + n <= |source| && Extended(data, pos) == source[..pos] && AllZero(source[pos..pos + n])
    ensures Extended(data, pos + n) == source[..pos + n]
  {
    assert source[..pos + n] == source[..pos] + source[pos..pos + n];
    assert Extended(data, pos + n) == Extended(data, pos) + Zeros(n);
  }

  lemma CopyEnd(data: seq<byte>, source: seq<byte>)
    requires |data| <= |source| && Extended(data, |source|) == source
    ensures Truncated(Written(data, |source|, [0]), |source|) == source
  {
    assert Written(data, |source|, [0]) == source + [0];
  }

  lemma NoBlocks(source: seq<byte>, makeholes: bool)
    ensures Tiling([], 0, 0) && Holes([], [], source, makeholes)
  {}

  function Part(s: seq<byte>, e: Extent): seq<byte> {
    if e.start <= e.end <= |s| then s[e.start..e.end] else []
  }

  /** Extents one behind the other, from `start` to `end`, none of them empty. */
  predicate Tiling(blocks: seq<Extent>, start: nat, end: nat) {
    if |blocks| == 0 then start == end
    else
      var last := blocks[|blocks| - 1];
      last.end == end && last.start < end && start <= last.start && Tiling(blocks[..|blocks| - 1], start, last.start)
  }

  /** `skips` are those of the blocks that are to become holes, in their order. */
  predicate Holes(skips: seq<Extent>, blocks: seq<Extent>, source: seq<byte>, makeholes: bool) {
    if |blocks| == 0 then skips == []
    else
      var init, last := blocks[..|blocks| - 1], blocks[|blocks| - 1];
      if makeholes && AllZero(Part(source, last)) then |skips| > 0 && skips[|skips| - 1] == last && Holes(skips[..|skips| - 1], init, source, makeholes)
      else Holes(skips, init, source, makeholes)
  }

  lemma OneMoreBlock(blocks: seq<Extent>, start: nat, end: nat, b: Extent)
    requires Tiling(blocks, start, end) && b.start == end < b.end && start <= end
    ensures Tiling(blocks + [b], start, b.end)
  {
    assert (blocks + [b])[..|blocks|] == blocks;
  }

  lemma OneMoreHole(skips: seq<Extent>, blocks: seq<Extent>, source: seq<byte>, makeholes: bool, b: Extent)
    requires Holes(skips, blocks, source, makeholes)
    ensures makeholes && AllZero(Part(source, b)) ==> Holes(skips + [b], blocks + [b], source, makeholes)
    ensures !(makeholes && AllZero(Part(source, b))) ==> Holes(skips, blocks + [b], source, makeholes)
  {
    hide AllZero, Part;
    assert (blocks + [b])[..|blocks|] == blocks && (skips + [b])[..|skips|] == skips;
  }

  /** A block that has been read is a hole exactly when holes are asked for and all its bytes are zero; nothing else is. */
  lemma {:induction false} HolesAre(skips: seq<Extent>, blocks: seq<Extent>, source: seq<byte>, makeholes: bool)
    requires Holes(skips, blocks, source, makeholes)
    ensures forall e :: e in skips <==> e in blocks && makeholes && AllZero(Part(source, e))
  {
    hide AllZero, Part;
    if |blocks| > 0 {
      var init, last := blocks[..|blocks| - 1], blocks[|blocks| - 1];
      assert blocks == init + [last];
      if makeholes && AllZero(Part(source, last)) {
        assert skips == skips[..|skips| - 1] + [last];
        HolesAre(skips[..|skips| - 1], init, source, makeholes);
      } else {
        HolesAre(skips, init, source, makeholes);
      }
    }
  }

  /** `CopyRegDisk` from the opened files on: it succeeds exactly when no call fails, and then the destination is the
      source, byte for byte; the blocks read are the whole source, and those that are all zero, no others, have been skipped
      if holes are to be made. */
  method CopyRegDisk(k: Kernel, bufSize: nat, makeholes: bool) returns (ok: bool)
    requires 0 < bufSize && k.readPos == 0 && k.data == [] && k.pos == 0 && !k.failed && k.blocks == [] && k.skips == []
    modifies k
    ensures ok ==> k.data == k.source
    ensures ok ==> Tiling(k.blocks, 0, |k.source|) && Holes(k.skips, k.blocks, k.source, makeholes)
    ensures ok <==> !k.failed
  {
    hide Tiling, Holes;
    var buf := new byte[bufSize + WORD];
    var total, hole := 0, false;
    assert k.source[..0] == [];
    NoBlocks(k.source, makeholes);
    while true
      invariant Copied(k, hole) && total == k.readPos && !k.failed
      invariant Tiling(k.blocks, 0, k.readPos) && Holes(k.skips, k.blocks, k.source, makeholes)
      decreases |k.source| - k.readPos, k.patience
      modifies k, buf
    {
      ghost var from, blocks, skips := k.readPos, k.blocks, k.skips;
      var n, interrupted := k.Read(buf, bufSize);
      if n == -1 {
        if interrupted {
          continue;
        }
        return false;
      }
      if n == 0 {
        break;
      }
      total := total + n;
      ghost var block := buf[..n];
      assert block == k.source[from..from + n] == Part(k.source, Extent(from, from + n));
      OneMoreBlock(blocks, 0, from, Extent(from, from + n));
      OneMoreHole(skips, blocks, k.source, makeholes, Extent(from, from + n));
      var skip := false;
      if makeholes {
        skip := IsHole(buf, n);
        if skip {
          var done := k.Skip(n);
          if !done {
            return false;
          }
          CopyHole(k.data, from, k.source, n);
          hole := true;
        }
      }
      if !skip {
        CopyBlock(k.data, from, k.source, block);
        var written := FullWrite(k, buf[..n]);
        if written < 0 {
          return false;
        }
        hole := false;
      }
    }
    assert k.source[..k.readPos] == k.source;
    if hole {
      CopyEnd(k.data, k.source);
      var written := FullWrite(k, [0]);
      if written < 0 {
        return false;
      }
      var done := k.Truncate(total);
      if !done {
        return false;
      }
    }
    return true;
  }
}
