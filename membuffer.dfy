// Segmented byte buffer: fixed-capacity blocks, a pool of free blocks, and a
// buffer that is a list of blocks plus a cached byte count.

module MemBuffers {
  import opened Bytes

  /** Capacity of one block in bytes. */
  const DEFAULT_BLOCK_SIZE: nat := 768

  function Min(a: int, b: int): int { if a < b then a else b }

  /** One block: the used bytes of its 768-byte array and its encode flag. */
  datatype Block = Block(data: seq<byte>, encodeFlag: bool)

  /** A block as a fresh allocation or a recycled pool entry leaves it. */
  const EmptyBlock: Block := Block([], false)

  predicate Fits(b: Block) { |b.data| <= DEFAULT_BLOCK_SIZE }

  predicate AllFit(bs: seq<Block>) { forall i :: 0 <= i < |bs| ==> Fits(bs[i]) }

  /** The bytes of a block list, front to back. */
  function Flatten(bs: seq<Block>): seq<byte>
  {
    if bs == [] then [] else bs[0].data + Flatten(bs[1..])
  }

  lemma {:induction false} FlattenAppend(a: seq<Block>, b: seq<Block>)
    ensures Flatten(a + b) == Flatten(a) + Flatten(b)
  {
    if a == [] {
      assert a + b == b;
    } else {
      assert (a + b)[1..] == a[1..] + b;
      FlattenAppend(a[1..], b);
    }
  }

  lemma FlattenSingle(b: Block)
    ensures Flatten([b]) == b.data
  {
    assert [b][1..] == [];
  }

  lemma FlattenCons(b: Block, rest: seq<Block>)
    ensures Flatten([b] + rest) == b.data + Flatten(rest)
  {
    assert ([b] + rest)[1..] == rest;
  }

  /** Flattening a prefix that is one block longer adds that block's bytes. */
  lemma FlattenPrefixStep(bs: seq<Block>, k: nat)
    requires k < |bs|
    ensures Flatten(bs[..k + 1]) == Flatten(bs[..k]) + bs[k].data
  {
    assert bs[..k + 1] == bs[..k] + [bs[k]];
    FlattenAppend(bs[..k], [bs[k]]);
    FlattenSingle(bs[k]);
  }

  /** The bytes of a list split at block k are the bytes of both parts. */
  lemma FlattenSplit(bs: seq<Block>, k: nat)
    requires k <= |bs|
    ensures Flatten(bs) == Flatten(bs[..k]) + Flatten(bs[k..])
  {
    assert bs == bs[..k] + bs[k..];
    FlattenAppend(bs[..k], bs[k..]);
  }

  /** Number of bytes in the first k blocks. */
  function PrefixLen(bs: seq<Block>, k: nat): nat
    requires k <= |bs|
  {
    |Flatten(bs[..k])|
  }

  /** The bytes of block k sit in the flattened list right after its predecessors. */
  lemma FlattenSlice(bs: seq<Block>, k: nat, from: nat, n: nat)
    requires k < |bs| && from + n <= |bs[k].data|
    ensures PrefixLen(bs, k) + |bs[k].data| <= |Flatten(bs)|
    ensures Flatten(bs)[PrefixLen(bs, k) + from..PrefixLen(bs, k) + from + n] == bs[k].data[from..from + n]
  {
    FlattenSplit(bs, k);
    assert bs[k..] == [bs[k]] + bs[k + 1..];
    FlattenCons(bs[k], bs[k + 1..]);
  }

  /** Replacing the last block by one with extra bytes appended extends the flattening by them. */
  lemma FlattenReplaceLast(bs: seq<Block>, nb: Block, extra: seq<byte>)
    requires |bs| > 0 && nb.data == bs[|bs| - 1].data + extra
    ensures Flatten(bs[..|bs| - 1] + [nb]) == Flatten(bs) + extra
  {
    var n := |bs| - 1;
    var pre := bs[..n];
    assert bs[..n + 1] == bs;
    FlattenPrefixStep(bs, n);
    FlattenAppend(pre, [nb]);
    FlattenSingle(nb);
    ConcatAssoc(Flatten(pre), bs[n].data, extra);
  }

  lemma SplitAppend(a: seq<byte>, b: seq<byte>, c: seq<byte>, t: seq<byte>)
    requires a == b + c
    ensures a + t == b + (c + t)
  {
  }

  lemma ConcatAssoc(a: seq<byte>, b: seq<byte>, c: seq<byte>)
    ensures a + (b + c) == (a + b) + c
  {
  }

  /** A ReadBytes step that drains the front block drops it. */
  lemma ReadDropStep(all: seq<byte>, out: seq<byte>, bs: seq<Block>, got: (Block, seq<byte>), ol: seq<Block>)
    requires |bs| > 0 && got.1 + got.0.data == bs[0].data && got.0.data == []
    requires all == out + Flatten(bs) && AllFit(bs) && TrimmedFrontOf(bs, ol)
    ensures all == (out + got.1) + Flatten(bs[1..]) && AllFit(bs[1..]) && TrimmedFrontOf(bs[1..], ol)
  {
    assert Flatten(bs) == bs[0].data + Flatten(bs[1..]);
    assert got.1 == bs[0].data;
    ConcatAssoc(out, got.1, Flatten(bs[1..]));
    TrimmedDrop(bs, ol);
  }

  /** A ReadBytes step that leaves bytes in the front block keeps it, trimmed. */
  lemma ReadShiftStep(all: seq<byte>, out: seq<byte>, bs: seq<Block>, got: (Block, seq<byte>), ol: seq<Block>)
    requires |bs| > 0 && got.1 + got.0.data == bs[0].data && got.0.encodeFlag == bs[0].encodeFlag
    requires all == out + Flatten(bs) && AllFit(bs) && TrimmedFrontOf(bs, ol)
    ensures all == (out + got.1) + Flatten([got.0] + bs[1..])
    ensures AllFit([got.0] + bs[1..]) && TrimmedFrontOf([got.0] + bs[1..], ol)
  {
    ShiftFlatten(all, out, bs, got);
    ShiftFit(bs, got.0);
    assert got.0.data == bs[0].data[|got.1|..];
    TrimmedShift(bs, ol, got.0, |got.1|);
  }

  lemma ShiftFlatten(all: seq<byte>, out: seq<byte>, bs: seq<Block>, got: (Block, seq<byte>))
    requires |bs| > 0 && got.1 + got.0.data == bs[0].data && all == out + Flatten(bs)
    ensures all == (out + got.1) + Flatten([got.0] + bs[1..])
  {
    var rest := Flatten(bs[1..]);
    assert Flatten(bs) == bs[0].data + rest;
    FlattenCons(got.0, bs[1..]);
    SplitAppend(bs[0].data, got.1, got.0.data, rest);
    ConcatAssoc(out, got.1, got.0.data + rest);
  }

  lemma ShiftFit(bs: seq<Block>, nb: Block)
    requires |bs| > 0 && AllFit(bs) && |nb.data| <= |bs[0].data|
    ensures AllFit([nb] + bs[1..])
  {
    assert Fits(bs[0]);
    forall i | 0 <= i < |[nb] + bs[1..]|
      ensures Fits(([nb] + bs[1..])[i])
    {
      if i > 0 {
        assert ([nb] + bs[1..])[i] == bs[i];
      }
    }
  }

  /** A sequence split as a + b yields a as its prefix and b as the rest. */
  lemma ConcatParts(all: seq<byte>, a: seq<byte>, b: seq<byte>)
    requires all == a + b
    ensures all[..|a|] == a && all[|a|..] == b
  {
  }

  /**
   * The loop of MemBuffer.ReadBytes on a block list: takes len bytes from the
   * front, dropping drained blocks and trimming the one it stops in.
   */
  method ReadFrontBlocks(bs0: seq<Block>, len: nat) returns (out: seq<byte>, bs: seq<Block>)
    requires AllFit(bs0) && len <= |Flatten(bs0)|
    ensures out == Flatten(bs0)[..len] && Flatten(bs) == Flatten(bs0)[len..]
    ensures AllFit(bs) && TrimmedFrontOf(bs, bs0)
  {
    out := [];
    ghost var all := Flatten(bs0);
    bs := bs0;
    while |bs| > 0
      invariant |out| <= len <= |all|
      invariant all == out + Flatten(bs)
      invariant AllFit(bs) && TrimmedFrontOf(bs, bs0)
      decreases |bs|
    {
      var got := BlockReadBytes(bs[0], len - |out|);
      if |got.0.data| == 0 {
        ReadDropStep(all, out, bs, got, bs0);
        out := out + got.1;
        bs := bs[1..];
      } else {
        ReadShiftStep(all, out, bs, got, bs0);
        out := out + got.1;
        bs := [got.0] + bs[1..];
        break;
      }
      if |out| == len {
        break;
      }
    }
    assert |out| == len;
    ConcatParts(all, out, Flatten(bs));
  }

  /** The first bytes of block k extend the bytes of the blocks before it. */
  lemma FlattenPrefixBytes(bs: seq<Block>, k: nat, n: nat)
    requires k < |bs| && n <= |bs[k].data|
    ensures PrefixLen(bs, k) + n <= |Flatten(bs)|
    ensures Flatten(bs)[..PrefixLen(bs, k) + n] == Flatten(bs)[..PrefixLen(bs, k)] + bs[k].data[..n]
  {
    var all := Flatten(bs);
    var p := PrefixLen(bs, k);
    FlattenSlice(bs, k, 0, n);
    assert all[p..p + n] == bs[k].data[..n];
    SliceSplit(all, 0, p, p + n);
    assert all[0..p + n] == all[..p + n] && all[0..p] == all[..p];
  }

  /**
   * The loop of MemBuffer.ReadBuffer: copies the first len bytes of bs into
   * dest, one block at a time; returns how many leading blocks were read
   * completely.
   */
  method CopyBlocksInto(bs: seq<Block>, dest: MemBuffer, len: nat) returns (d: nat)
    requires dest.Valid() && len <= |Flatten(bs)|
    modifies dest
    ensures d <= |bs| && PrefixLen(bs, d) <= len
    ensures d < |bs| ==> len < PrefixLen(bs, d) + |bs[d].data| || PrefixLen(bs, d) == len
    ensures dest.Valid() && dest.Contents() == old(dest.Contents()) + Flatten(bs)[..len]
  {
    ghost var all := Flatten(bs);
    var readSize := 0;
    d := 0;
    while d < |bs|
      invariant 0 <= d <= |bs|
      invariant readSize == PrefixLen(bs, d) && readSize <= len <= |all|
      invariant dest.Valid()
      invariant dest.Contents() == old(dest.Contents()) + all[..readSize]
    {
      var b := bs[d];
      var rs := if len - readSize > |b.data| then |b.data| else len - readSize;
      FlattenPrefixBytes(bs, d, rs);
      ConcatAssoc(old(dest.Contents()), all[..readSize], b.data[..rs]);
      dest.WriteBytes(b.data[..rs]);
      readSize := readSize + rs;
      if rs < |b.data| {
        return;
      }
      FlattenPrefixStep(bs, d);
      d := d + 1;
      if readSize == len {
        return;
      }
    }
    assert bs[..d] == bs;
  }

  /** s[a..c] is s[a..b] followed by s[b..c]. */
  lemma SliceSplit(s: seq<byte>, a: nat, b: nat, c: nat)
    requires a <= b <= c <= |s|
    ensures s[a..c] == s[a..b] + s[b..c]
  {
  }

  /** One step of the copy loop: the bytes copied from block k continue the run. */
  lemma CopyStep(bs: seq<Block>, all: seq<byte>, pos: nat, len: nat, out: seq<byte>, k: nat, from: nat, cs: seq<byte>)
    requires all == Flatten(bs) && k < |bs| && from <= |bs[k].data|
    requires PrefixLen(bs, k) + from == pos + |out| && |out| <= len && pos + len <= |all|
    requires out == all[pos..pos + |out|] && cs == BlockCopyBytes(bs[k], from, len - |out|)
    ensures |out + cs| <= len && out + cs == all[pos..pos + |out + cs|]
    ensures |out + cs| < len ==> |cs| == |bs[k].data| - from && PrefixLen(bs, k + 1) == pos + |out + cs|
    ensures |out + cs| < len ==> k + 1 < |bs|
  {
    var p := PrefixLen(bs, k);
    var data := bs[k].data;
    FlattenSlice(bs, k, 0, |data|);
    assert data[0..|data|] == data;
    CopyCore(all, p, data, pos, out, from, cs);
    if |out + cs| < len {
      FlattenPrefixStep(bs, k);
      PrefixLenAll(bs);
    }
  }

  lemma PrefixLenAll(bs: seq<Block>)
    ensures PrefixLen(bs, |bs|) == |Flatten(bs)|
  {
    assert bs[..|bs|] == bs;
  }

  /** CopyStep on plain sequences: data sits at p in all, and cs continues out inside it. */
  lemma CopyCore(all: seq<byte>, p: nat, data: seq<byte>, pos: nat, out: seq<byte>, from: nat, cs: seq<byte>)
    requires p + |data| <= |all| && all[p..p + |data|] == data
    requires from + |cs| <= |data| && cs == data[from..from + |cs|]
    requires p + from == pos + |out| && out == all[pos..pos + |out|]
    ensures out + cs == all[pos..pos + |out| + |cs|]
  {
    var q := pos + |out|;
    assert all[q..q + |cs|] == all[p..p + |data|][from..from + |cs|];
    SliceSplit(all, pos, q, q + |cs|);
  }

  lemma TrimmedDrop(nw: seq<Block>, ol: seq<Block>)
    requires TrimmedFrontOf(nw, ol) && |nw| > 0
    ensures TrimmedFrontOf(nw[1..], ol)
  {
    if |nw| > 1 {
      assert nw[1..][1..] == nw[2..];
      assert ol[|ol| - |nw| + 2..] == ol[|ol| - |nw| + 1..][1..];
    }
  }

  lemma TrimmedShift(nw: seq<Block>, ol: seq<Block>, nb: Block, k: nat)
    requires TrimmedFrontOf(nw, ol) && |nw| > 0
    requires k <= |nw[0].data| && nb == Block(nw[0].data[k..], nw[0].encodeFlag)
    ensures TrimmedFrontOf([nb] + nw[1..], ol)
  {
    assert ([nb] + nw[1..])[1..] == nw[1..];
  }

  // ---------------------------------------------------------------------------
  // Block operations. Each returns the block's new value beside its result.

  /** Free room left in a block; zero exactly when the block is full. */
  function RemainSize(b: Block): (r: int)
    requires Fits(b)
    ensures 0 <= r <= DEFAULT_BLOCK_SIZE
    ensures r == 0 <==> |b.data| == DEFAULT_BLOCK_SIZE
  {
    DEFAULT_BLOCK_SIZE - |b.data|
  }

  /** Appends as much of val as fits; returns the block and the count written. */
  function BlockWriteBytes(b: Block, val: seq<byte>): (r: (Block, nat))
    requires Fits(b)
    ensures r.1 == Min(DEFAULT_BLOCK_SIZE - |b.data|, |val|)
    ensures r.0.data == b.data + val[..r.1] && r.0.encodeFlag == b.encodeFlag
    ensures Fits(r.0)
  {
    if |b.data| == DEFAULT_BLOCK_SIZE || |val| == 0 then (b, 0)
    else
      var n := Min(DEFAULT_BLOCK_SIZE - |b.data|, |val|);
      (Block(b.data + val[..n], b.encodeFlag), n)
  }

  /** Removes up to len bytes from the front; returns the block and those bytes. */
  function BlockReadBytes(b: Block, len: nat): (r: (Block, seq<byte>))
    ensures |r.1| == Min(|b.data|, len)
    ensures r.1 + r.0.data == b.data
    ensures r.0.encodeFlag == b.encodeFlag
  {
    if |b.data| == 0 || len == 0 then (b, [])
    else
      var n := Min(|b.data|, len);
      (Block(b.data[n..], b.encodeFlag), b.data[..n])
  }

  /** As BlockReadBytes, but appends the bytes read to the string val. */
  function BlockReadString(b: Block, val: seq<byte>, len: nat): (r: (Block, seq<byte>, nat))
    ensures r.2 == Min(|b.data|, len)
    ensures r.0 == BlockReadBytes(b, len).0
    ensures r.1 == val + BlockReadBytes(b, len).1
  {
    if |b.data| == 0 || len == 0 then (b, val, 0)
    else
      var n := Min(|b.data|, len);
      (Block(b.data[n..], b.encodeFlag), val + b.data[..n], n)
  }

  /** Copies up to len bytes starting at offset pos, leaving the block as it is. */
  function BlockCopyBytes(b: Block, pos: nat, len: nat): (r: seq<byte>)
    ensures |r| <= len
    ensures pos > |b.data| ==> r == []
    ensures pos <= |b.data| ==> |r| == Min(|b.data| - pos, len) && r == b.data[pos..pos + |r|]
  {
    if pos > |b.data| || len == 0 then []
    else b.data[pos..pos + Min(|b.data| - pos, len)]
  }

  /** As BlockCopyBytes, but appends the bytes copied to the string val. */
  function BlockCopyString(b: Block, pos: nat, val: seq<byte>, len: nat): (r: (seq<byte>, nat))
    ensures r.0 == val + BlockCopyBytes(b, pos, len)
    ensures r.1 == |BlockCopyBytes(b, pos, len)|
  {
    if pos > |b.data| || len == 0 then (val, 0)
    else
      var n := Min(|b.data| - pos, len);
      (val + b.data[pos..pos + n], n)
  }

  // ---------------------------------------------------------------------------

  /** The pool of free blocks: a FIFO list plus a count of blocks created. */
  class BlockManager {
    var free: seq<Block>
    var created: nat

    /** Every block on the free list has been reset. */
    ghost predicate Valid()
      reads this
    {
      forall i :: 0 <= i < |free| ==> free[i] == EmptyBlock
    }

    constructor ()
      ensures Valid() && free == [] && created == 0
    {
      free := [];
      created := 0;
    }

    /** Pops the front of the free list, or allocates when the list is empty. */
    method TakeBlock() returns (b: Block)
      requires Valid()
      modifies this
      ensures Valid()
      ensures old(free) != [] ==> b == old(free)[0] && free == old(free)[1..] && created == old(created)
      ensures old(free) == [] ==> free == [] && created == old(created) + 1
      ensures b == EmptyBlock
    {
      if |free| != 0 {
        b := free[0];
        free := free[1..];
      } else {
        b := EmptyBlock;
        created := created + 1;
      }
    }

    /** Resets a block (length 0, flag false) and appends it to the free list. */
    method InternalRecyleBlock(b: Block)
      requires Valid()
      modifies this
      ensures Valid()
      ensures free == old(free) + [Block([], false)] && created == old(created)
    {
      var reset := Block([], false);
      free := free + [reset];
    }
  }

  // ---------------------------------------------------------------------------

  /**
   * The blocks a read left behind: a suffix of the old list whose first block
   * may have lost some of its leading bytes.
   */
  ghost predicate TrimmedFrontOf(nw: seq<Block>, ol: seq<Block>)
  {
    |nw| <= |ol| &&
    (|nw| > 0 ==>
      nw[1..] == ol[|ol| - |nw| + 1..] &&
      nw[0].encodeFlag == ol[|ol| - |nw|].encodeFlag &&
      |nw[0].data| <= |ol[|ol| - |nw|].data| &&
      nw[0].data == ol[|ol| - |nw|].data[|ol[|ol| - |nw|].data| - |nw[0].data|..])
  }

  /**
   * The block list a write leaves behind: the old blocks, of which only the
   * last may have grown (keeping its flag), then at least one unflagged new
   * block; every block from the old last one to the new second-to-last is full.
   */
  ghost predicate WriteShape(nw: seq<Block>, ol: seq<Block>)
  {
    |nw| > 0 && |nw| >= |ol| &&
    (|ol| > 0 ==> nw[..|ol| - 1] == ol[..|ol| - 1] && nw[|ol| - 1].encodeFlag == ol[|ol| - 1].encodeFlag) &&
    (forall i :: |ol| <= i < |nw| ==> !nw[i].encodeFlag) &&
    (forall i :: (if |ol| > 0 then |ol| - 1 else 0) <= i < |nw| - 1 ==> |nw[i].data| == DEFAULT_BLOCK_SIZE)
  }

  /**
   * The block list WriteNewBytes leaves behind: the old blocks unchanged,
   * then at least one unflagged new block, all but the last of them full.
   */
  ghost predicate FreshShape(nw: seq<Block>, ol: seq<Block>)
  {
    |nw| > |ol| && nw[..|ol|] == ol &&
    (forall i :: |ol| <= i < |nw| ==> !nw[i].encodeFlag) &&
    (forall i :: |ol| <= i < |nw| - 1 ==> |nw[i].data| == DEFAULT_BLOCK_SIZE)
  }

  /** The loop of WriteNewBytes, on the block list. */
  method AppendFreshBlocks(bs: seq<Block>, val: seq<byte>) returns (nw: seq<Block>)
    requires AllFit(bs)
    ensures AllFit(nw) && FreshShape(nw, bs) && Flatten(nw) == Flatten(bs) + val
  {
    nw := bs;
    var pos := 0;
    while true
      invariant 0 <= pos <= |val|
      invariant AllFit(nw)
      invariant |nw| >= |bs| && nw[..|bs|] == bs
      invariant Flatten(nw) == Flatten(bs) + val[..pos]
      invariant forall i :: |bs| <= i < |nw| ==> !nw[i].encodeFlag
      invariant forall i :: |bs| <= i < |nw| ==> |nw[i].data| == DEFAULT_BLOCK_SIZE
      decreases |val| - pos
    {
      var written := BlockWriteBytes(EmptyBlock, val[pos..]);
      ghost var before := nw;
      nw := nw + [written.0];
      FlattenAppend(before, [written.0]);
      FlattenSingle(written.0);
      CutFurtherBytes(val, pos, written.1);
      ConcatAssoc(Flatten(bs), val[..pos], val[pos..][..written.1]);
      pos := pos + written.1;
      if pos == |val| {
        assert val[..pos] == val;
        return;
      }
    }
  }

  lemma CutFurtherBytes(s: seq<byte>, i: nat, k: nat)
    requires i + k <= |s|
    ensures s[..i + k] == s[..i] + s[i..][..k]
  {
  }

  /** A fresh-block tail after a last block that is full whenever more follows is a write shape. */
  lemma FreshIsWriteShape(nw: seq<Block>, mid: seq<Block>, ol: seq<Block>)
    requires |ol| > 0 && |mid| == |ol| && mid[..|ol| - 1] == ol[..|ol| - 1]
    requires mid[|ol| - 1].encodeFlag == ol[|ol| - 1].encodeFlag
    requires FreshShape(nw, mid) && |nw[|ol| - 1].data| == DEFAULT_BLOCK_SIZE
    ensures WriteShape(nw, ol)
  {
    assert nw[..|ol| - 1] == nw[..|mid|][..|ol| - 1];
    assert nw[|ol| - 1] == nw[..|mid|][|ol| - 1];
  }

  /** The write of WriteBytes, on the block list. */
  method WriteBlocks(bs: seq<Block>, val: seq<byte>) returns (nw: seq<Block>)
    requires AllFit(bs)
    ensures AllFit(nw) && Flatten(nw) == Flatten(bs) + val && WriteShape(nw, bs)
  {
    if |bs| == 0 {
      nw := AppendFreshBlocks(bs, val);
      return;
    }
    var n := |bs| - 1;
    var ws := 0;
    var mid := bs;
    if RemainSize(bs[n]) != 0 {
      var written := BlockWriteBytes(bs[n], val);
      ws := written.1;
      FlattenReplaceLast(bs, written.0, val[..ws]);
      mid := bs[..n] + [written.0];
      assert mid[..n] == bs[..n];
    }
    assert Flatten(mid) == Flatten(bs) + val[..ws];
    assert AllFit(mid);
    if |val| > ws {
      assert |mid[n].data| == DEFAULT_BLOCK_SIZE;
      nw := AppendFreshBlocks(mid, val[ws..]);
      ConcatAssoc(Flatten(bs), val[..ws], val[ws..]);
      assert val == val[..ws] + val[ws..];
      assert nw[n] == nw[..|mid|][n];
      FreshIsWriteShape(nw, mid, bs);
    } else {
      assert val[..ws] == val;
      nw := mid;
    }
  }

  class MemBuffer {
    var blocks: seq<Block>
    var size: int

    /** The cached size is the number of bytes held, and every block fits. */
    ghost predicate Valid()
      reads this
    {
      size == |Flatten(blocks)| && AllFit(blocks)
    }

    /** The abstract value: all bytes, front to back. */
    ghost function Contents(): seq<byte>
      reads this
    {
      Flatten(blocks)
    }

    constructor ()
      ensures Valid() && blocks == [] && size == 0 && Contents() == []
    {
      blocks := [];
      size := 0;
    }

    /** Number of blocks held; a valid buffer with none holds no bytes. */
    function BlocksSize(): (n: nat)
      reads this
      ensures n == 0 ==> Flatten(blocks) == []
    {
      |blocks|
    }

    /** Subtracts n from the cached size and touches nothing else. */
    method ReduceSize(n: int)
      modifies this
      ensures size == old(size) - n && blocks == old(blocks)
    {
      size := size - n;
    }

    /**
     * Appends val in fresh blocks, each filled to capacity before the next is
     * taken; one (possibly empty) block is always added. The size is the
     * caller's to update.
     */
    method WriteNewBytes(val: seq<byte>)
      requires AllFit(blocks)
      modifies this
      ensures AllFit(blocks) && size == old(size)
      ensures FreshShape(blocks, old(blocks)) && Flatten(blocks) == Flatten(old(blocks)) + val
    {
      blocks := AppendFreshBlocks(blocks, val);
    }

    /**
     * Appends val: first into the free room of the last block, then into new
     * blocks; the size grows by |val|.
     */
    method WriteBytes(val: seq<byte>)
      requires Valid()
      modifies this
      ensures Valid() && size == old(size) + |val|
      ensures Contents() == old(Contents()) + val
      ensures WriteShape(blocks, old(blocks))
    {
      blocks := WriteBlocks(blocks, val);
      size := size + |val|;
    }

    /**
     * Moves the first len bytes out. Fails, changing nothing, when fewer are
     * held; otherwise drained blocks are dropped and the size shrinks by len.
     */
    method ReadBytes(len: nat) returns (ok: bool, out: seq<byte>)
      requires Valid()
      modifies this
      ensures ok <==> len <= old(size)
      ensures !ok ==> blocks == old(blocks) && size == old(size) && out == []
      ensures ok ==> Valid() && size == old(size) - len
      ensures ok ==> out == old(Contents())[..len] && Contents() == old(Contents())[len..]
      ensures ok ==> TrimmedFrontOf(blocks, old(blocks))
    {
      if size < len {
        return false, [];
      }
      ok := true;
      var bs;
      out, bs := ReadFrontBlocks(blocks, len);
      blocks := bs;
      size := size - len;
    }

    /**
     * Copies the first len bytes into dest. Blocks read completely are dropped,
     * a partly read block is kept unchanged, and the size is not updated.
     */
    method ReadBuffer(dest: MemBuffer, len: nat) returns (ok: bool)
      requires Valid() && dest.Valid() && dest != this
      modifies this, dest
      ensures ok <==> len <= old(size)
      ensures !ok ==> blocks == old(blocks) && dest.blocks == old(dest.blocks) && dest.size == old(dest.size)
      ensures size == old(size)
      ensures dest.Valid()
      ensures ok ==> dest.Contents() == old(dest.Contents()) + old(Contents())[..len]
      ensures |blocks| <= |old(blocks)| && blocks == old(blocks)[|old(blocks)| - |blocks|..]
      ensures PrefixLen(old(blocks), |old(blocks)| - |blocks|) <= len
      ensures Valid() <==> PrefixLen(old(blocks), |old(blocks)| - |blocks|) == 0
    {
      if size < len {
        return false;
      }
      ok := true;
      var d := CopyBlocksInto(blocks, dest, len);
      ghost var orig := blocks;
      FlattenSplit(orig, d);
      blocks := blocks[d..];
      assert |orig| - |blocks| == d;
      assert AllFit(blocks);
    }

    /**
     * Finds the block holding offset pos: the first block whose end is at or
     * after pos, and the offset inside it. Past the end it returns |blocks|.
     */
    method GetPostion(pos: nat) returns (idx: nat, blockPos: nat)
      requires Valid()
      ensures pos > size ==> idx == |blocks|
      ensures pos <= size && |blocks| == 0 ==> idx == 0
      ensures pos <= size && |blocks| > 0 ==>
                idx < |blocks| && blockPos <= |blocks[idx].data| && PrefixLen(blocks, idx) + blockPos == pos
      ensures pos <= size ==> forall j :: 0 < j <= idx ==> PrefixLen(blocks, j) < pos
    {
      blockPos := 0;
      if pos > size {
        return |blocks|, 0;
      }
      var remain := pos;
      idx := 0;
      while idx < |blocks|
        invariant 0 <= idx <= |blocks|
        invariant PrefixLen(blocks, idx) + remain == pos
        invariant forall j :: 0 < j <= idx ==> PrefixLen(blocks, j) < pos
      {
        FlattenPrefixStep(blocks, idx);
        if |blocks[idx].data| - remain >= 0 {
          blockPos := remain;
          return;
        }
        remain := remain - |blocks[idx].data|;
        idx := idx + 1;
      }
      assert blocks[..idx] == blocks;
      blockPos := remain;
    }

    /**
     * Copies len bytes starting at pos without consuming them. The guard
     * `size - pos < len` is unsigned 64-bit arithmetic: when pos is past the
     * end it wraps, the call succeeds and nothing is copied.
     */
    method CopyBytes(pos: nat, len: nat) returns (ok: bool, out: seq<byte>)
      requires Valid()
      requires pos < 0x1_0000_0000_0000_0000 && len < 0x1_0000_0000_0000_0000 && size < 0x1_0000_0000_0000_0000
      ensures pos <= size ==> (ok <==> len <= size - pos)
      ensures ok && pos <= size ==> out == Contents()[pos..pos + len]
      ensures pos > size ==> out == [] && (ok <==> (size - pos) % 0x1_0000_0000_0000_0000 >= len)
      ensures !ok ==> out == []
    {
      if (size - pos) % 0x1_0000_0000_0000_0000 < len {
        return false, [];
      }
      ok := true;
      var iter: nat, blockPos: nat := GetPostion(pos);
      out := [];
      if pos > size || iter == |blocks| {
        return;
      }
      out := CopyFrom(pos, len, iter, blockPos);
    }

    /** The copy loop of CopyBytes, started at block iter, offset blockPos. */
    method CopyFrom(pos: nat, len: nat, iter0: nat, blockPos0: nat) returns (out: seq<byte>)
      requires Valid() && pos + len <= size
      requires iter0 < |blocks| && blockPos0 <= |blocks[iter0].data| && PrefixLen(blocks, iter0) + blockPos0 == pos
      ensures out == Contents()[pos..pos + len]
    {
      ghost var all := Flatten(blocks);
      var iter: nat, blockPos: nat := iter0, blockPos0;
      out := [];
      if len == 0 {
        return;
      }
      while iter < |blocks|
        invariant 0 <= iter <= |blocks|
        invariant |out| <= len <= |all| - pos
        invariant iter < |blocks| ==> blockPos <= |blocks[iter].data|
        invariant iter < |blocks| ==> PrefixLen(blocks, iter) + blockPos == pos + |out|
        invariant iter == |blocks| ==> pos + |out| == |all|
        invariant out == all[pos..pos + |out|]
        decreases |blocks| - iter
      {
        var cs := BlockCopyBytes(blocks[iter], blockPos, len - |out|);
        CopyStep(blocks, all, pos, len, out, iter, blockPos, cs);
        out := out + cs;
        if |out| == len {
          return;
        }
        blockPos := 0;
        iter := iter + 1;
      }
    }

    /** Appends src's blocks; src itself is left as it is. */
    method AppendBuffer(src: MemBuffer)
      requires Valid() && src.Valid()
      modifies this
      ensures Valid()
      ensures blocks == old(blocks) + old(src.blocks) && size == old(size) + old(src.size)
      ensures Contents() == old(Contents()) + old(src.Contents())
    {
      var added := src.size;
      FlattenAppend(blocks, src.blocks);
      blocks := blocks + src.blocks;
      size := size + added;
    }

    /** Appends one block and adds its length to the size. */
    method AppendBlock(b: Block)
      requires Valid() && Fits(b)
      modifies this
      ensures Valid()
      ensures blocks == old(blocks) + [b] && size == old(size) + |b.data|
      ensures Contents() == old(Contents()) + b.data
    {
      FlattenAppend(blocks, [b]);
      FlattenSingle(b);
      blocks := blocks + [b];
      size := size + |b.data|;
    }

    method Clear()
      modifies this
      ensures Valid() && blocks == [] && size == 0
    {
      blocks := [];
      size := 0;
    }

    /** Sets every block's encode flag; false, changing nothing, with no blocks. */
    method EnableEncode(enable: bool) returns (ok: bool)
      requires Valid()
      modifies this
      ensures ok <==> old(blocks) != []
      ensures Valid() && Contents() == old(Contents()) && size == old(size)
      ensures |blocks| == |old(blocks)|
      ensures forall i :: 0 <= i < |blocks| ==> blocks[i].data == old(blocks)[i].data
      ensures ok ==> forall i :: 0 <= i < |blocks| ==> blocks[i].encodeFlag == enable
      ensures !ok ==> blocks == old(blocks)
    {
      if |blocks| == 0 {
        return false;
      }
      var i := 0;
      while i < |blocks|
        invariant 0 <= i <= |blocks| && |blocks| == |old(blocks)| && size == old(size)
        invariant forall j :: 0 <= j < |blocks| ==> blocks[j].data == old(blocks)[j].data
        invariant forall j :: 0 <= j < i ==> blocks[j].encodeFlag == enable
        invariant forall j :: i <= j < |blocks| ==> blocks[j] == old(blocks)[j]
      {
        blocks := blocks[i := Block(blocks[i].data, enable)];
        i := i + 1;
      }
      SameDataSameFlatten(blocks, old(blocks));
      ok := true;
    }

    /** The concatenation of every block's bytes. */
    method ToString() returns (s: seq<byte>)
      ensures s == Contents()
    {
      s := [];
      var i := 0;
      while i < |blocks|
        invariant 0 <= i <= |blocks|
        invariant s == Flatten(blocks[..i])
      {
        FlattenPrefixStep(blocks, i);
        s := s + blocks[i].data;
        i := i + 1;
      }
      assert blocks[..i] == blocks;
    }
  }

  lemma {:induction false} SameDataSameFlatten(a: seq<Block>, b: seq<Block>)
    requires |a| == |b| && forall i :: 0 <= i < |a| ==> a[i].data == b[i].data
    ensures Flatten(a) == Flatten(b) && (AllFit(a) <==> AllFit(b))
  {
    if a != [] {
      SameDataSameFlatten(a[1..], b[1..]);
    }
  }

  /** Writing bytes into a fresh buffer and reading them all back gives them back and leaves it empty. */
  method WriteThenRead(val: seq<byte>) returns (out: seq<byte>, remaining: int)
    ensures out == val && remaining == 0
  {
    var buf := new MemBuffer();
    buf.WriteBytes(val);
    var ok;
    ok, out := buf.ReadBytes(|val|);
    remaining := buf.size;
  }

  /** Chunks written one after another come back by reads of the same lengths, in order. */
  method WriteAllReadAll(chunks: seq<seq<byte>>) returns (outs: seq<seq<byte>>, remaining: int)
    ensures outs == chunks && remaining == 0
  {
    var buf := new MemBuffer();
    var i := 0;
    while i < |chunks|
      invariant 0 <= i <= |chunks|
      invariant buf.Valid() && buf.Contents() == Concat(chunks[..i])
    {
      ConcatStep(chunks, i);
      buf.WriteBytes(chunks[i]);
      i := i + 1;
    }
    assert chunks[..i] == chunks;
    outs := [];
    i := 0;
    while i < |chunks|
      invariant 0 <= i <= |chunks|
      invariant buf.Valid() && buf.Contents() == Concat(chunks[i..])
      invariant outs == chunks[..i]
    {
      ConcatFront(chunks, i);
      var ok, out := buf.ReadBytes(|chunks[i]|);
      outs := outs + [out];
      assert chunks[..i + 1] == chunks[..i] + [chunks[i]];
      i := i + 1;
    }
    remaining := buf.size;
  }

  function Concat(chunks: seq<seq<byte>>): seq<byte>
  {
    if chunks == [] then [] else chunks[0] + Concat(chunks[1..])
  }

  lemma {:induction false} ConcatAppend(a: seq<seq<byte>>, b: seq<seq<byte>>)
    ensures Concat(a + b) == Concat(a) + Concat(b)
  {
    if a == [] {
      assert a + b == b;
    } else {
      assert (a + b)[1..] == a[1..] + b;
      ConcatAppend(a[1..], b);
    }
  }

  lemma ConcatStep(chunks: seq<seq<byte>>, i: nat)
    requires i < |chunks|
    ensures Concat(chunks[..i + 1]) == Concat(chunks[..i]) + chunks[i]
  {
    assert chunks[..i + 1] == chunks[..i] + [chunks[i]];
    ConcatAppend(chunks[..i], [chunks[i]]);
    assert [chunks[i]][1..] == [];
  }

  lemma ConcatFront(chunks: seq<seq<byte>>, i: nat)
    requires i < |chunks|
    ensures Concat(chunks[i..]) == chunks[i] + Concat(chunks[i + 1..])
  {
    assert chunks[i..][1..] == chunks[i + 1..];
  }
}
