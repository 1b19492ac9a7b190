/** Copying samples between channel areas of one flat memory: a block copy when both
    areas are dense, a strided loop otherwise. */
module AreaCopy {
  import opened Arith
  import opened RingFifo

  /** A channel area. Two areas are the same area when they are the same object. */
  class ChannelArea {
    const addr: nat   // 0 is NULL
    const first: nat  // bit offset of the first sample
    const step: nat   // bits from one sample to the next

    constructor (addr: nat, first: nat, step: nat)
      ensures this.addr == addr && this.first == first && this.step == step
    {
      this.addr, this.first, this.step := addr, first, step;
    }

    /** The bit offset is computed in 32 bits. */
    function Address(offset: nat): nat { addr + ToUInt(first + step * offset) / 8 }

    function Stride(): nat { step / 8 }
  }

  // ---------------------------------------------------------------- addresses

  /** The 32-bit offset is the true one exactly when it does not wrap. */
  lemma {:induction false} AddressExact(area: ChannelArea, offset: nat)
    ensures area.Address(offset) == area.addr + (area.first + area.step * offset) / 8
       <==> area.first + area.step * offset < UINT_RANGE
  {
    var x := area.first + area.step * offset;
    assert x >= 0;
    if x >= UINT_RANGE {
      assert x / 8 >= UINT_RANGE / 8;
    }
  }

  /** Stepping by whole bytes from one sample reaches the samples after it. */
  lemma {:induction false} AddressSteps(area: ChannelArea, offset: nat, k: nat)
    requires area.step % 8 == 0 && area.first + area.step * (offset + k) < UINT_RANGE
    ensures area.Address(offset) + k * area.Stride() == area.Address(offset + k)
  {
    assert area.step * (offset + k) == area.step * offset + area.step * k;
    assert area.step * k == (k * area.Stride()) * 8 by {
      assert area.step == area.Stride() * 8;
    }
    AddressExact(area, offset);
    AddressExact(area, offset + k);
  }

  /** Byte count of a dense block, in 32-bit arithmetic. */
  function BlockBytes(samples: nat, width: nat): nat { ToUInt(samples * width) / 8 }

  lemma {:induction false} BlockBytesExact(samples: nat, width: nat)
    requires width % 8 == 0
    ensures BlockBytes(samples, width) == samples * (width / 8) <==> samples * width < UINT_RANGE
  {
    var w := width / 8;
    assert samples * width == (samples * w) * 8 by {
      assert width == w * 8;
    }
  }

  // ---------------------------------------------------------------- samples in memory

  /** Byte b of sample k, k strides on from the first. */
  function ByteAt(base: nat, stride: nat, k: nat, b: nat): (x: nat)
    ensures x >= base + b
    decreases k
  {
    if k == 0 then base + b else ByteAt(base + stride, stride, k - 1, b)
  }

  lemma {:induction false} ByteAtClosed(base: nat, stride: nat, k: nat, b: nat)
    ensures ByteAt(base, stride, k, b) == base + k * stride + b
    decreases k
  {
    if k > 0 {
      ByteAtClosed(base + stride, stride, k - 1, b);
      assert k * stride == (k - 1) * stride + stride;
    }
  }

  lemma ByteAtFirst(base: nat, stride: nat, b: nat)
    ensures ByteAt(base, stride, 0, b) == base + b
  {
  }

  lemma ByteAtNext(base: nat, stride: nat, k: nat, b: nat)
    requires k > 0
    ensures ByteAt(base, stride, k, b) == ByteAt(base + stride, stride, k - 1, b)
  {
  }

  /** Byte x belongs to one of n samples of w bytes. */
  ghost predicate InSamples(x: int, base: nat, stride: nat, w: nat, n: nat) {
    exists k: nat, b: nat :: k < n && b < w && ByteAt(base, stride, k, b) == x
  }

  /** n samples of w bytes lie inside a memory of `size` bytes. */
  ghost predicate Fits(size: nat, base: nat, stride: nat, w: nat, n: nat) {
    n == 0 || base + (n - 1) * stride + w <= size
  }

  lemma {:induction false} FitsNext(size: nat, base: nat, stride: nat, w: nat, n: nat)
    requires Fits(size, base, stride, w, n) && n > 0
    ensures base + w <= size && Fits(size, base + stride, stride, w, n - 1)
  {
    if n > 1 {
      assert (n - 1) * stride == (n - 2) * stride + stride;
    }
    MulMono(0, n - 1, stride);
  }

  /** One memcpy inside a memory. */
  ghost function Block(mem: seq<Byte>, to: nat, from: nat, bytes: nat): (r: seq<Byte>)
    requires to + bytes <= |mem| && from + bytes <= |mem|
    ensures |r| == |mem|
  {
    Splice(mem, to, mem[from..from + bytes])
  }

  lemma {:induction false} BlockAt(mem: seq<Byte>, to: nat, from: nat, bytes: nat, x: nat)
    requires to + bytes <= |mem| && from + bytes <= |mem| && x < |mem|
    ensures Block(mem, to, from, bytes)[x] == if to <= x < to + bytes then mem[from + (x - to)] else mem[x]
  {
    if to <= x < to + bytes {
      assert mem[from..from + bytes][x - to] == mem[from + (x - to)];
    }
  }

  /** The loop: one sample after the other, each read when its turn comes. */
  ghost function StridedCopy(mem: seq<Byte>, to: nat, toStride: nat, from: nat, fromStride: nat, w: nat,
                             n: nat): (r: seq<Byte>)
    requires Fits(|mem|, to, toStride, w, n) && Fits(|mem|, from, fromStride, w, n)
    ensures |r| == |mem|
    decreases n
  {
    if n == 0 then mem
    else
      FitsNext(|mem|, to, toStride, w, n);
      FitsNext(|mem|, from, fromStride, w, n);
      StridedCopy(Block(mem, to, from, w), to + toStride, toStride, from + fromStride, fromStride, w, n - 1)
  }

  ghost function StridedFill(mem: seq<Byte>, to: nat, stride: nat, pattern: seq<Byte>, n: nat): (r: seq<Byte>)
    requires Fits(|mem|, to, stride, |pattern|, n)
    ensures |r| == |mem|
    decreases n
  {
    if n == 0 then mem
    else
      FitsNext(|mem|, to, stride, |pattern|, n);
      StridedFill(Splice(mem, to, pattern), to + stride, stride, pattern, n - 1)
  }

  lemma {:induction false} CopyStep(mem: seq<Byte>, to: nat, toStride: nat, from: nat, fromStride: nat, w: nat, n: nat)
    requires Fits(|mem|, to, toStride, w, n) && Fits(|mem|, from, fromStride, w, n) && n > 0
    ensures to + w <= |mem| && from + w <= |mem|
    ensures Fits(|mem|, to + toStride, toStride, w, n - 1) && Fits(|mem|, from + fromStride, fromStride, w, n - 1)
    ensures StridedCopy(mem, to, toStride, from, fromStride, w, n)
         == StridedCopy(Block(mem, to, from, w), to + toStride, toStride, from + fromStride, fromStride, w, n - 1)
  {
    FitsNext(|mem|, to, toStride, w, n);
    FitsNext(|mem|, from, fromStride, w, n);
  }

  lemma {:induction false} FitsByte(size: nat, base: nat, stride: nat, w: nat, n: nat, k: nat, b: nat)
    requires Fits(size, base, stride, w, n) && k < n && b < w
    ensures ByteAt(base, stride, k, b) < size
  {
    ByteAtClosed(base, stride, k, b);
    MulMono(k, n - 1, stride);
  }

  /** The samples are the first one and the rest. */
  lemma {:induction false} InTail(x: int, base: nat, stride: nat, w: nat, n: nat)
    requires n > 0
    ensures InSamples(x, base, stride, w, n) <==> base <= x < base + w || InSamples(x, base + stride, stride, w, n - 1)
  {
    var next := base + stride;
    if InSamples(x, base, stride, w, n) {
      var k: nat, b: nat :| k < n && b < w && ByteAt(base, stride, k, b) == x;
      if k > 0 {
        assert ByteAt(next, stride, k - 1, b) == x;
      }
    }
    if InSamples(x, next, stride, w, n - 1) {
      var k: nat, b: nat :| k < n - 1 && b < w && ByteAt(next, stride, k, b) == x;
      assert ByteAt(base, stride, k + 1, b) == x;
    }
    if base <= x < base + w {
      assert ByteAt(base, stride, 0, x - base) == x;
    }
  }

  /** No byte belongs to both groups of samples. */
  ghost predicate Apart(d: nat, dStride: nat, s: nat, sStride: nat, w: nat, n: nat) {
    forall x :: InSamples(x, d, dStride, w, n) ==> !InSamples(x, s, sStride, w, n)
  }

  lemma {:induction false} ApartTail(d: nat, dStride: nat, s: nat, sStride: nat, w: nat, n: nat)
    requires n > 0 && Apart(d, dStride, s, sStride, w, n)
    ensures Apart(d + dStride, dStride, s + sStride, sStride, w, n - 1)
  {
    var d', s', m := d + dStride, s + sStride, n - 1;
    forall x | InSamples(x, d', dStride, w, m)
      ensures !InSamples(x, s', sStride, w, m)
    {
      InTail(x, d, dStride, w, n);
      InTail(x, s, sStride, w, n);
    }
  }

  /** The first sample lies before all later ones. */
  lemma {:induction false} FirstUntouched(to: nat, stride: nat, w: nat, n: nat, b: nat)
    requires n > 0 && b < w <= stride
    ensures !InSamples(to + b, to + stride, stride, w, n - 1)
  {
  }

  /** Outside the destination samples nothing changes. */
  lemma {:induction false} CopyFrame(mem: seq<Byte>, to: nat, toStride: nat, from: nat, fromStride: nat, w: nat,
                                     n: nat, x: nat)
    requires Fits(|mem|, to, toStride, w, n) && Fits(|mem|, from, fromStride, w, n)
    requires x < |mem| && !InSamples(x, to, toStride, w, n)
    ensures StridedCopy(mem, to, toStride, from, fromStride, w, n)[x] == mem[x]
    decreases n
  {
    if n > 0 {
      CopyStep(mem, to, toStride, from, fromStride, w, n);
      InTail(x, to, toStride, w, n);
      BlockAt(mem, to, from, w, x);
      hide Fits, Block, StridedCopy, InSamples;
      CopyFrame(Block(mem, to, from, w), to + toStride, toStride, from + fromStride, fromStride, w, n - 1, x);
    }
  }

  lemma {:induction false} FillFrame(mem: seq<Byte>, to: nat, stride: nat, pattern: seq<Byte>, n: nat, x: nat)
    requires Fits(|mem|, to, stride, |pattern|, n) && x < |mem| && !InSamples(x, to, stride, |pattern|, n)
    ensures StridedFill(mem, to, stride, pattern, n)[x] == mem[x]
    decreases n
  {
    if n > 0 {
      FitsNext(|mem|, to, stride, |pattern|, n);
      InTail(x, to, stride, |pattern|, n);
      FillFrame(Splice(mem, to, pattern), to + stride, stride, pattern, n - 1, x);
    }
  }

  /** Between separate places, every byte of every sample arrives. */
  lemma {:induction false} CopyMoves(mem: seq<Byte>, to: nat, toStride: nat, from: nat, fromStride: nat, w: nat,
                                     n: nat, k: nat, b: nat)
    requires Fits(|mem|, to, toStride, w, n) && Fits(|mem|, from, fromStride, w, n)
    requires w <= toStride && Apart(to, toStride, from, fromStride, w, n) && k < n && b < w
    ensures ByteAt(to, toStride, k, b) < |mem| && ByteAt(from, fromStride, k, b) < |mem|
    ensures StridedCopy(mem, to, toStride, from, fromStride, w, n)[ByteAt(to, toStride, k, b)]
         == mem[ByteAt(from, fromStride, k, b)]
    decreases n
  {
    hide *;
    FitsByte(|mem|, to, toStride, w, n, k, b);
    FitsByte(|mem|, from, fromStride, w, n, k, b);
    if k == 0 {
      ByteAtFirst(to, toStride, b);
      ByteAtFirst(from, fromStride, b);
      FirstMoves(mem, to, toStride, from, fromStride, w, n, b);
    } else {
      CopyStep(mem, to, toStride, from, fromStride, w, n);
      ApartTail(to, toStride, from, fromStride, w, n);
      SourceKept(mem, to, toStride, from, fromStride, w, n, k, b);
      ByteAtNext(to, toStride, k, b);
      ByteAtNext(from, fromStride, k, b);
      CopyMoves(Block(mem, to, from, w), to + toStride, toStride, from + fromStride, fromStride, w, n - 1, k - 1, b);
    }
  }

  lemma {:induction false} FirstMoves(mem: seq<Byte>, to: nat, toStride: nat, from: nat, fromStride: nat, w: nat,
                                      n: nat, b: nat)
    requires Fits(|mem|, to, toStride, w, n) && Fits(|mem|, from, fromStride, w, n)
    requires 0 < n && b < w <= toStride
    ensures StridedCopy(mem, to, toStride, from, fromStride, w, n)[to + b] == mem[from + b]
  {
    hide *;
    CopyStep(mem, to, toStride, from, fromStride, w, n);
    FirstUntouched(to, toStride, w, n, b);
    BlockAt(mem, to, from, w, to + b);
    CopyFrame(Block(mem, to, from, w), to + toStride, toStride, from + fromStride, fromStride, w, n - 1, to + b);
  }

  /** The first sample's copy does not disturb the bytes still to be read. */
  lemma {:induction false} SourceKept(mem: seq<Byte>, to: nat, toStride: nat, from: nat, fromStride: nat, w: nat,
                                      n: nat, k: nat, b: nat)
    requires 0 < n && to + w <= |mem| && from + w <= |mem| && ByteAt(from, fromStride, k, b) < |mem|
    requires Apart(to, toStride, from, fromStride, w, n) && k < n && b < w
    ensures Block(mem, to, from, w)[ByteAt(from, fromStride, k, b)] == mem[ByteAt(from, fromStride, k, b)]
  {
    var x := ByteAt(from, fromStride, k, b);
    assert InSamples(x, from, fromStride, w, n);
    InTail(x, to, toStride, w, n);
  }

  lemma {:induction false} FillMoves(mem: seq<Byte>, to: nat, stride: nat, pattern: seq<Byte>, n: nat, k: nat, b: nat)
    requires Fits(|mem|, to, stride, |pattern|, n) && |pattern| <= stride && k < n && b < |pattern|
    ensures ByteAt(to, stride, k, b) < |mem|
    ensures StridedFill(mem, to, stride, pattern, n)[ByteAt(to, stride, k, b)] == pattern[b]
    decreases n
  {
    FitsByte(|mem|, to, stride, |pattern|, n, k, b);
    FitsNext(|mem|, to, stride, |pattern|, n);
    var mem1 := Splice(mem, to, pattern);
    if k == 0 {
      FirstUntouched(to, stride, |pattern|, n, b);
      FillFrame(mem1, to + stride, stride, pattern, n - 1, to + b);
    } else {
      FillMoves(mem1, to + stride, stride, pattern, n - 1, k - 1, b);
    }
  }

  lemma {:induction false} SpliceTwice(mem: seq<Byte>, at: nat, a: seq<Byte>, b: seq<Byte>)
    requires at + |a| + |b| <= |mem|
    ensures Splice(Splice(mem, at, a), at + |a|, b) == Splice(mem, at, a + b)
  {
  }

  /** Bytes of n samples of w bytes, counted sample by sample. */
  function Bytes(n: nat, w: nat): nat { if n == 0 then 0 else w + Bytes(n - 1, w) }

  lemma {:induction false} BytesClosed(n: nat, w: nat)
    ensures Bytes(n, w) == n * w
  {
    if n > 0 {
      BytesClosed(n - 1, w);
      assert n * w == w + (n - 1) * w;
    }
  }

  /** The block copy and the loop leave the same memory. */
  lemma {:induction false} BlockCopyIsLoop(mem: seq<Byte>, to: nat, from: nat, w: nat, n: nat)
    requires Fits(|mem|, to, w, w, n) && Fits(|mem|, from, w, w, n)
    requires to + Bytes(n, w) <= |mem| && from + Bytes(n, w) <= |mem|
    requires to + Bytes(n, w) <= from || from + Bytes(n, w) <= to
    ensures Block(mem, to, from, Bytes(n, w)) == StridedCopy(mem, to, w, from, w, w, n)
    decreases n
  {
    hide Fits, Block;
    if n == 0 {
      EmptyBlock(mem, to, from);
    } else {
      CopyStep(mem, to, w, from, w, w, n);
      hide StridedCopy, Splice;
      BlockTail(mem, to, from, w, Bytes(n - 1, w));
      BlockCopyIsLoop(Block(mem, to, from, w), to + w, from + w, w, n - 1);
    }
  }

  lemma {:induction false} EmptyBlock(mem: seq<Byte>, to: nat, from: nat)
    requires to <= |mem| && from <= |mem|
    ensures Block(mem, to, from, 0) == mem
  {
  }

  /** A block copy is the copy of its first sample and a block copy of the rest. */
  lemma {:induction false} BlockTail(mem: seq<Byte>, to: nat, from: nat, w: nat, rest: nat)
    requires to + w + rest <= |mem| && from + w + rest <= |mem|
    requires to + w + rest <= from || from + w + rest <= to
    ensures Block(mem, to, from, w + rest) == Block(Block(mem, to, from, w), to + w, from + w, rest)
  {
    hide *;
    var l, r := Block(mem, to, from, w + rest), Block(Block(mem, to, from, w), to + w, from + w, rest);
    forall x | 0 <= x < |mem|
      ensures l[x] == r[x]
    {
      BlockTailAt(mem, to, from, w, rest, x);
    }
    assert l == r;
  }

  lemma {:induction false} BlockTailAt(mem: seq<Byte>, to: nat, from: nat, w: nat, rest: nat, x: nat)
    requires to + w + rest <= |mem| && from + w + rest <= |mem| && x < |mem|
    requires to + w + rest <= from || from + w + rest <= to
    ensures Block(mem, to, from, w + rest)[x] == Block(Block(mem, to, from, w), to + w, from + w, rest)[x]
  {
    hide *;
    BlockAt(mem, to, from, w + rest, x);
    BlockAt(mem, to, from, w, x);
    BlockAt(Block(mem, to, from, w), to + w, from + w, rest, x);
    if to + w <= x < to + w + rest {
      BlockAt(mem, to, from, w, from + w + (x - (to + w)));
    }
  }

  // ---------------------------------------------------------------- one area

  /** Whether one channel's copy stays inside the memory. */
  ghost predicate CopyFits(size: nat, dst: ChannelArea, dstOffset: nat, src: ChannelArea, srcOffset: nat,
                           samples: nat, width: nat)
  {
    && 8 <= width && width % 8 == 0
    && (dst.addr != 0 ==> Fits(size, dst.Address(dstOffset), dst.Stride(), width / 8, samples))
    && (dst.addr != 0 && src.addr != 0 ==> Fits(size, src.Address(srcOffset), src.Stride(), width / 8, samples))
  }

  /** The sample count of a memcpy or memset, in bits, is a 32-bit number. The loops count no bits. */
  ghost predicate Counted(dst: ChannelArea, src: ChannelArea, samples: nat, width: nat, memset: bool) {
    dst.addr != 0 && dst.step == width && (if src.addr == 0 then memset else src.step == width) ==>
      samples * width < UINT_RANGE
  }

  /** What copying one channel does: nothing without a destination or onto itself, silence
      without a source, and otherwise sample by sample. */
  ghost function AreaCopied(mem: seq<Byte>, dst: ChannelArea, dstOffset: nat, src: ChannelArea, srcOffset: nat,
                            samples: nat, width: nat, silence: seq<Byte>): (r: seq<Byte>)
    requires CopyFits(|mem|, dst, dstOffset, src, srcOffset, samples, width) && |silence| == width / 8
    ensures |r| == |mem|
  {
    if dst.addr == 0 || (dst == src && dstOffset == srcOffset) then mem
    else if src.addr == 0 then StridedFill(mem, dst.Address(dstOffset), dst.Stride(), silence, samples)
    else
      StridedCopy(mem, dst.Address(dstOffset), dst.Stride(), src.Address(srcOffset), src.Stride(), width / 8, samples)
  }

  lemma {:induction false} FitsEnd(size: nat, base: nat, w: nat, n: nat)
    requires Fits(size, base, w, w, n)
    ensures n == 0 || base + n * w <= size
  {
    if n > 0 {
      assert n * w == (n - 1) * w + w;
    }
  }

  /** A dense block inside the memory: its byte count is exact and the block copy is the loop. */
  lemma {:induction false} DenseBlock(mem: seq<Byte>, to: nat, from: nat, width: nat, n: nat)
    requires 8 <= width && width % 8 == 0 && n * width < UINT_RANGE && n > 0
    requires Fits(|mem|, to, width / 8, width / 8, n) && Fits(|mem|, from, width / 8, width / 8, n)
    requires to + n * (width / 8) <= from || from + n * (width / 8) <= to
    ensures var bytes := BlockBytes(n, width);
            to + bytes <= |mem| && from + bytes <= |mem| &&
            Block(mem, to, from, bytes) == StridedCopy(mem, to, width / 8, from, width / 8, width / 8, n)
  {
    var w := width / 8;
    BlockBytesExact(n, width);
    FitsEnd(|mem|, from, w, n);
    FitsEnd(|mem|, to, w, n);
    BytesClosed(n, w);
    hide Fits, Block, StridedCopy, BlockBytes, Bytes;
    BlockCopyIsLoop(mem, to, from, w, n);
  }

  /** The dense path: one memcpy. */
  method CopyDense(mem: array<Byte>, to: nat, from: nat, width: nat, samples: nat)
    requires 8 <= width && width % 8 == 0 && samples * width < UINT_RANGE
    requires Fits(mem.Length, to, width / 8, width / 8, samples)
    requires Fits(mem.Length, from, width / 8, width / 8, samples)
    requires to + samples * (width / 8) <= from || from + samples * (width / 8) <= to
    modifies mem
    ensures mem[..] == StridedCopy(old(mem[..]), to, width / 8, from, width / 8, width / 8, samples)
  {
    if samples > 0 {
      DenseBlock(mem[..], to, from, width, samples);
      hide Fits, StridedCopy, BlockBytes;
      MoveBlock(mem, to, from, BlockBytes(samples, width));
    }
  }

  method MoveBlock(mem: array<Byte>, to: nat, from: nat, bytes: nat)
    requires to + bytes <= mem.Length && from + bytes <= mem.Length
    modifies mem
    ensures mem[..] == Block(old(mem[..]), to, from, bytes)
  {
    var block := mem[from..from + bytes];
    assert block == mem[..][from..from + bytes];
    Store(mem, to, block);
  }

  ghost predicate Uniform(pattern: seq<Byte>) { forall j :: 0 <= j < |pattern| ==> pattern[j] == pattern[0] }

  /** A byte repeated over n samples is the pattern written n times. */
  lemma {:induction false} RepeatedByteIsLoop(mem: seq<Byte>, at: nat, pattern: seq<Byte>, n: nat, data: seq<Byte>)
    requires |pattern| > 0 && Uniform(pattern) && Fits(|mem|, at, |pattern|, |pattern|, n)
    requires |data| == Bytes(n, |pattern|) && at + |data| <= |mem|
    requires forall j :: 0 <= j < |data| ==> data[j] == pattern[0]
    ensures Splice(mem, at, data) == StridedFill(mem, at, |pattern|, pattern, n)
    decreases n
  {
    if n == 0 {
      assert Splice(mem, at, data) == mem;
    } else {
      var w := |pattern|;
      FitsNext(|mem|, at, w, w, n);
      assert data[..w] == pattern;
      SpliceTwice(mem, at, data[..w], data[w..]);
      assert data == data[..w] + data[w..];
      hide Fits, Splice;
      RepeatedByteIsLoop(Splice(mem, at, pattern), at + w, pattern, n - 1, data[w..]);
    }
  }

  /** Dense silence: one memset where every byte of the pattern is the same, otherwise the
      pattern again and again. */
  method SetSilence(mem: array<Byte>, at: nat, samples: nat, pattern: seq<Byte>, memset: bool)
    requires |pattern| > 0 && (memset ==> Uniform(pattern) && samples * (8 * |pattern|) < UINT_RANGE)
    requires Fits(mem.Length, at, |pattern|, |pattern|, samples)
    modifies mem
    ensures mem[..] == StridedFill(old(mem[..]), at, |pattern|, pattern, samples)
  {
    if samples == 0 {
      return;
    }
    if memset {
      var bytes := BlockBytes(samples, 8 * |pattern|);
      BlockBytesExact(samples, 8 * |pattern|);
      BytesClosed(samples, |pattern|);
      FitsEnd(mem.Length, at, |pattern|, samples);
      hide Fits, Uniform, StridedFill, BlockBytes, Bytes;
      ghost var before := mem[..];
      var data := seq(bytes, j => pattern[0]);
      Store(mem, at, data);
      RepeatedByteIsLoop(before, at, pattern, samples, data);
      return;
    }
    FillLoop(mem, at, |pattern|, samples, pattern);
  }

  /** Writes `samples` copies of the pattern, one stride apart. */
  method FillLoop(mem: array<Byte>, to: nat, stride: nat, samples: nat, pattern: seq<Byte>)
    requires Fits(mem.Length, to, stride, |pattern|, samples)
    modifies mem
    ensures mem[..] == StridedFill(old(mem[..]), to, stride, pattern, samples)
  {
    hide *;
    var at: nat, left: nat := to, samples;
    while left > 0
      invariant Fits(mem.Length, at, stride, |pattern|, left)
      invariant StridedFill(mem[..], at, stride, pattern, left)
             == StridedFill(old(mem[..]), to, stride, pattern, samples)
    {
      FillStep(mem[..], at, stride, pattern, left);
      Store(mem, at, pattern);
      at, left := at + stride, left - 1;
    }
    FillNone(mem[..], at, stride, pattern);
  }

  lemma {:induction false} FillStep(mem: seq<Byte>, to: nat, stride: nat, pattern: seq<Byte>, n: nat)
    requires Fits(|mem|, to, stride, |pattern|, n) && n > 0
    ensures to + |pattern| <= |mem| && Fits(|mem|, to + stride, stride, |pattern|, n - 1)
    ensures StridedFill(mem, to, stride, pattern, n)
         == StridedFill(Splice(mem, to, pattern), to + stride, stride, pattern, n - 1)
  {
    FitsNext(|mem|, to, stride, |pattern|, n);
  }

  lemma {:induction false} FillNone(mem: seq<Byte>, to: nat, stride: nat, pattern: seq<Byte>)
    ensures Fits(|mem|, to, stride, |pattern|, 0) && StridedFill(mem, to, stride, pattern, 0) == mem
  {
  }

  method AreaSilence(mem: array<Byte>, dst: ChannelArea, dstOffset: nat, samples: nat, width: nat,
                     silence: seq<Byte>, memset: bool)
    requires 8 <= width && width % 8 == 0 && |silence| == width / 8 && (memset ==> Uniform(silence))
    requires dst.addr != 0 && dst.step == width && memset ==> samples * width < UINT_RANGE
    requires dst.addr != 0 ==> Fits(mem.Length, dst.Address(dstOffset), dst.Stride(), width / 8, samples)
    modifies mem
    ensures mem[..] == if dst.addr == 0 then old(mem[..])
                       else StridedFill(old(mem[..]), dst.Address(dstOffset), dst.Stride(), silence, samples)
  {
    if dst.addr == 0 {
      return;
    }
    if dst.step == width {
      SetSilence(mem, dst.Address(dstOffset), samples, silence, memset);
    } else {
      FillLoop(mem, dst.Address(dstOffset), dst.Stride(), samples, silence);
    }
  }

  method AreaCopy(mem: array<Byte>, dst: ChannelArea, dstOffset: nat, src: ChannelArea, srcOffset: nat,
                  samples: nat, width: nat, silence: seq<Byte>, memset: bool)
    requires memset ==> Uniform(silence)
    requires CopyFits(mem.Length, dst, dstOffset, src, srcOffset, samples, width) && |silence| == width / 8
    requires dst != src || dstOffset != srcOffset ==> Counted(dst, src, samples, width, memset)
    // memcpy's own demand, for the block path only
    requires dst != src || dstOffset != srcOffset ==>
               dst.addr != 0 && src.addr != 0 && dst.step == width && src.step == width ==>
               dst.Address(dstOffset) + samples * (width / 8) <= src.Address(srcOffset) ||
               src.Address(srcOffset) + samples * (width / 8) <= dst.Address(dstOffset)
    modifies mem
    ensures mem[..] == AreaCopied(old(mem[..]), dst, dstOffset, src, srcOffset, samples, width, silence)
  {
    if dst.addr == 0 {
      return;
    }
    if dst == src && dstOffset == srcOffset {
      return;
    }
    if src.addr == 0 {
      AreaSilence(mem, dst, dstOffset, samples, width, silence, memset);
      return;
    }
    var from: nat, to: nat := src.Address(srcOffset), dst.Address(dstOffset);
    if src.step == width && dst.step == width {
      CopyDense(mem, to, from, width, samples);
      return;
    }
    CopyLoop(mem, to, dst.Stride(), from, src.Stride(), samples, width / 8);
  }

  /** The sample-by-sample loop. */
  method CopyLoop(mem: array<Byte>, to: nat, dstStep: nat, from: nat, srcStep: nat, samples: nat, w: nat)
    requires Fits(mem.Length, to, dstStep, w, samples) && Fits(mem.Length, from, srcStep, w, samples)
    modifies mem
    ensures mem[..] == StridedCopy(old(mem[..]), to, dstStep, from, srcStep, w, samples)
  {
    hide *;
    ghost var goal := StridedCopy(mem[..], to, dstStep, from, srcStep, w, samples);
    var d: nat, s: nat, left := to, from, samples;
    while left > 0
      invariant Fits(mem.Length, d, dstStep, w, left) && Fits(mem.Length, s, srcStep, w, left)
      invariant StridedCopy(mem[..], d, dstStep, s, srcStep, w, left) == goal
    {
      CopyOne(mem, d, dstStep, s, srcStep, w, left);
      s, d, left := s + srcStep, d + dstStep, left - 1;
    }
    CopyNone(mem[..], d, dstStep, s, srcStep, w);
  }

  lemma {:induction false} CopyNone(mem: seq<Byte>, to: nat, toStride: nat, from: nat, fromStride: nat, w: nat)
    ensures Fits(|mem|, to, toStride, w, 0) && Fits(|mem|, from, fromStride, w, 0)
    ensures StridedCopy(mem, to, toStride, from, fromStride, w, 0) == mem
  {
  }

  /** One turn of the loop: the copy of one sample, which leaves the rest to do. */
  method CopyOne(mem: array<Byte>, to: nat, dstStep: nat, from: nat, srcStep: nat, w: nat, ghost left: nat)
    requires left > 0 && Fits(mem.Length, to, dstStep, w, left) && Fits(mem.Length, from, srcStep, w, left)
    modifies mem
    ensures Fits(mem.Length, to + dstStep, dstStep, w, left - 1)
    ensures Fits(mem.Length, from + srcStep, srcStep, w, left - 1)
    ensures StridedCopy(mem[..], to + dstStep, dstStep, from + srcStep, srcStep, w, left - 1)
         == StridedCopy(old(mem[..]), to, dstStep, from, srcStep, w, left)
  {
    hide *;
    CopyStep(mem[..], to, dstStep, from, srcStep, w, left);
    MoveBlock(mem, to, from, w);
  }

  method Store(mem: array<Byte>, at: nat, data: seq<Byte>)
    requires at + |data| <= mem.Length
    modifies mem
    ensures mem[..] == Splice(old(mem[..]), at, data)
  {
    forall k | 0 <= k < |data| {
      mem[at + k] := data[k];
    }
    assert mem[..] == Splice(old(mem[..]), at, data);
  }

  // ---------------------------------------------------------------- all channels

  /** Byte x belongs to a sample of the area. */
  ghost predicate AreaByte(x: int, area: ChannelArea, offset: nat, frames: nat, width: nat) {
    area.addr != 0 && InSamples(x, area.Address(offset), area.Stride(), width / 8, frames)
  }

  /** The copies of all channels stay inside the memory, destination samples do not overlap
      inside a channel, and no byte of a destination is also a byte of another channel's
      destination or of any source. */
  ghost predicate Separate(size: nat, dst: seq<ChannelArea>, dstOffset: nat, src: seq<ChannelArea>, srcOffset: nat,
                           frames: nat, width: nat) {
    && |dst| == |src|
    && (forall c :: 0 <= c < |dst| ==>
          CopyFits(size, dst[c], dstOffset, src[c], srcOffset, frames, width) && width <= dst[c].step)
    && (forall c, d, x :: 0 <= c < |dst| && 0 <= d < |src| && AreaByte(x, dst[c], dstOffset, frames, width) ==>
          !AreaByte(x, src[d], srcOffset, frames, width))
    && (forall c, d, x ::
          0 <= c < |dst| && 0 <= d < |dst| && c != d && AreaByte(x, dst[c], dstOffset, frames, width) ==>
          !AreaByte(x, dst[d], dstOffset, frames, width))
  }

  ghost function ChannelsCopied(mem: seq<Byte>, dst: seq<ChannelArea>, dstOffset: nat, src: seq<ChannelArea>,
                                srcOffset: nat, frames: nat, width: nat, silence: seq<Byte>,
                                channels: nat): (r: seq<Byte>)
    requires Separate(|mem|, dst, dstOffset, src, srcOffset, frames, width)
    requires channels <= |dst| && |silence| == width / 8
    ensures |r| == |mem|
    decreases channels
  {
    if channels == 0 then mem
    else
      var before := ChannelsCopied(mem, dst, dstOffset, src, srcOffset, frames, width, silence, channels - 1);
      AreaCopied(before, dst[channels - 1], dstOffset, src[channels - 1], srcOffset, frames, width, silence)
  }

  /** Each channel in turn. The frame count becomes a 32-bit sample count, so all frames are copied
      exactly when there are fewer than 2^32. */
  method AreasCopy(mem: array<Byte>, dst: seq<ChannelArea>, dstOffset: nat, src: seq<ChannelArea>, srcOffset: nat,
                   channels: nat, frames: nat, width: nat, silence: seq<Byte>, memset: bool)
    returns (err: int)
    requires memset ==> Uniform(silence)
    requires channels == |dst| && |silence| == width / 8
    requires Separate(mem.Length, dst, dstOffset, src, srcOffset, ToUInt(frames), width)
    requires forall c :: 0 <= c < channels ==> Counted(dst[c], src[c], ToUInt(frames), width, memset)
    modifies mem
    ensures err == if channels == 0 || frames == 0 then -EINVAL else 0
    ensures err == 0 ==>
      mem[..] == ChannelsCopied(old(mem[..]), dst, dstOffset, src, srcOffset, ToUInt(frames), width, silence, channels)
    ensures err < 0 ==> mem[..] == old(mem[..])
    ensures ToUInt(frames) == frames <==> frames < UINT_RANGE
  {
    if channels == 0 {
      return -EINVAL;
    }
    if frames == 0 {
      return -EINVAL;
    }
    var samples: nat := ToUInt(frames);
    var c := 0;
    while c < channels
      invariant c <= channels
      invariant mem[..] == ChannelsCopied(old(mem[..]), dst, dstOffset, src, srcOffset, samples, width, silence, c)
    {
      SeparateBlocks(mem.Length, dst, dstOffset, src, srcOffset, samples, width, c);
      AreaCopy(mem, dst[c], dstOffset, src[c], srcOffset, samples, width, silence, memset);
      c := c + 1;
    }
    return 0;
  }

  /** Dense blocks whose samples do not overlap do not overlap. */
  lemma {:induction false} SeparateBlocks(size: nat, dst: seq<ChannelArea>, dstOffset: nat, src: seq<ChannelArea>,
                                          srcOffset: nat, frames: nat, width: nat, c: nat)
    requires Separate(size, dst, dstOffset, src, srcOffset, frames, width) && c < |dst|
    ensures dst[c].addr != 0 && src[c].addr != 0 && dst[c].step == width && src[c].step == width ==>
              dst[c].Address(dstOffset) + frames * (width / 8) <= src[c].Address(srcOffset) ||
              src[c].Address(srcOffset) + frames * (width / 8) <= dst[c].Address(dstOffset)
  {
    if dst[c].addr != 0 && src[c].addr != 0 && dst[c].step == width && src[c].step == width {
      var d, s, w := dst[c].Address(dstOffset), src[c].Address(srcOffset), width / 8;
      var x := Max(d, s);
      if x < d + frames * w && x < s + frames * w {
        DenseCovers(x, d, w, frames);
        DenseCovers(x, s, w, frames);
        assert AreaByte(x, dst[c], dstOffset, frames, width) && AreaByte(x, src[c], srcOffset, frames, width);
        assert false;
      }
    }
  }

  lemma {:induction false} DenseCovers(x: nat, base: nat, w: nat, n: nat)
    requires 0 < w && base <= x < base + n * w
    ensures InSamples(x, base, w, w, n)
  {
    var k := (x - base) / w;
    DivBounds(x - base, w);
    if k >= n {
      MulMono(n, k, w);
    }
    assert (k + 1) * w == k * w + w;
    ByteAtClosed(base, w, k, x - base - k * w);
  }

  /** What byte b of frame f of one channel should become. */
  ghost function SourceByte(mem: seq<Byte>, area: ChannelArea, offset: nat, silence: seq<Byte>, f: nat, b: nat): Byte
    requires b < |silence|
    requires area.addr != 0 ==> ByteAt(area.Address(offset), area.Stride(), f, b) < |mem|
  {
    if area.addr == 0 then silence[b] else mem[ByteAt(area.Address(offset), area.Stride(), f, b)]
  }

  /** One channel, whatever its areas: its bytes arrive. */
  lemma {:induction false} AreaMoves(mem: seq<Byte>, dst: ChannelArea, dstOffset: nat, src: ChannelArea, srcOffset: nat,
                  samples: nat, width: nat, silence: seq<Byte>, f: nat, b: nat)
    requires CopyFits(|mem|, dst, dstOffset, src, srcOffset, samples, width) && |silence| == width / 8
    requires width <= dst.step && dst.addr != 0 && f < samples && b < width / 8
    requires forall x :: AreaByte(x, dst, dstOffset, samples, width) ==> !AreaByte(x, src, srcOffset, samples, width)
    ensures ByteAt(dst.Address(dstOffset), dst.Stride(), f, b) < |mem|
    ensures src.addr != 0 ==> ByteAt(src.Address(srcOffset), src.Stride(), f, b) < |mem|
    ensures AreaCopied(mem, dst, dstOffset, src, srcOffset, samples, width, silence)
              [ByteAt(dst.Address(dstOffset), dst.Stride(), f, b)]
         == SourceByte(mem, src, srcOffset, silence, f, b)
  {
    var to, from, w := dst.Address(dstOffset), src.Address(srcOffset), width / 8;
    if src.addr == 0 {
      FillMoves(mem, to, dst.Stride(), silence, samples, f, b);
    } else {
      FitsByte(|mem|, from, src.Stride(), w, samples, f, b);
      if dst == src && dstOffset == srcOffset {
        var x := ByteAt(to, dst.Stride(), f, b);
        assert AreaByte(x, dst, dstOffset, samples, width);
        assert false;
      }
      ApartAreas(dst, dstOffset, src, srcOffset, samples, width);
      CopyMoves(mem, to, dst.Stride(), from, src.Stride(), w, samples, f, b);
    }
  }

  lemma {:induction false} ApartAreas(dst: ChannelArea, dstOffset: nat, src: ChannelArea, srcOffset: nat,
                                      samples: nat, width: nat)
    requires dst.addr != 0 && src.addr != 0
    requires forall x :: AreaByte(x, dst, dstOffset, samples, width) ==> !AreaByte(x, src, srcOffset, samples, width)
    ensures Apart(dst.Address(dstOffset), dst.Stride(), src.Address(srcOffset), src.Stride(), width / 8, samples)
  {
    forall x | InSamples(x, dst.Address(dstOffset), dst.Stride(), width / 8, samples)
      ensures !InSamples(x, src.Address(srcOffset), src.Stride(), width / 8, samples)
    {
      assert AreaByte(x, dst, dstOffset, samples, width);
    }
  }

  lemma {:induction false} AreaFrame(mem: seq<Byte>, dst: ChannelArea, dstOffset: nat, src: ChannelArea, srcOffset: nat,
                  samples: nat, width: nat, silence: seq<Byte>, x: nat)
    requires CopyFits(|mem|, dst, dstOffset, src, srcOffset, samples, width) && |silence| == width / 8
    requires x < |mem| && !AreaByte(x, dst, dstOffset, samples, width)
    ensures AreaCopied(mem, dst, dstOffset, src, srcOffset, samples, width, silence)[x] == mem[x]
  {
    if dst.addr != 0 {
      if src.addr == 0 {
        FillFrame(mem, dst.Address(dstOffset), dst.Stride(), silence, samples, x);
      } else {
        var to, from := dst.Address(dstOffset), src.Address(srcOffset);
        CopyFrame(mem, to, dst.Stride(), from, src.Stride(), width / 8, samples, x);
      }
    }
  }

  /** Bytes of no destination stay as they were. */
  lemma {:induction false} ChannelsCopyFrame(mem: seq<Byte>, dst: seq<ChannelArea>, dstOffset: nat,
                                             src: seq<ChannelArea>, srcOffset: nat, frames: nat, width: nat,
                                             silence: seq<Byte>, channels: nat, x: nat)
    requires Separate(|mem|, dst, dstOffset, src, srcOffset, frames, width)
    requires channels <= |dst| && |silence| == width / 8
    requires x < |mem| && forall c :: 0 <= c < channels ==> !AreaByte(x, dst[c], dstOffset, frames, width)
    ensures ChannelsCopied(mem, dst, dstOffset, src, srcOffset, frames, width, silence, channels)[x] == mem[x]
    decreases channels
  {
    if channels > 0 {
      var before := ChannelsCopied(mem, dst, dstOffset, src, srcOffset, frames, width, silence, channels - 1);
      ChannelsCopyFrame(mem, dst, dstOffset, src, srcOffset, frames, width, silence, channels - 1, x);
      AreaFrame(before, dst[channels - 1], dstOffset, src[channels - 1], srcOffset, frames, width, silence, x);
    }
  }

  /** Every byte of every frame of every channel becomes the source's byte, or silence. */
  lemma {:induction false} ChannelsCopyMoves(mem: seq<Byte>, dst: seq<ChannelArea>, dstOffset: nat,
                                             src: seq<ChannelArea>, srcOffset: nat, frames: nat, width: nat,
                                             silence: seq<Byte>, channels: nat, c: nat, f: nat, b: nat)
    requires Separate(|mem|, dst, dstOffset, src, srcOffset, frames, width)
    requires c < channels <= |dst| && |silence| == width / 8 && f < frames && b < width / 8 && dst[c].addr != 0
    ensures ByteAt(dst[c].Address(dstOffset), dst[c].Stride(), f, b) < |mem|
    ensures src[c].addr != 0 ==> ByteAt(src[c].Address(srcOffset), src[c].Stride(), f, b) < |mem|
    ensures ChannelsCopied(mem, dst, dstOffset, src, srcOffset, frames, width, silence, channels)
              [ByteAt(dst[c].Address(dstOffset), dst[c].Stride(), f, b)]
         == SourceByte(mem, src[c], srcOffset, silence, f, b)
    decreases channels
  {
    var e := channels - 1;
    var before := ChannelsCopied(mem, dst, dstOffset, src, srcOffset, frames, width, silence, e);
    var x := ByteAt(dst[c].Address(dstOffset), dst[c].Stride(), f, b);
    assert AreaByte(x, dst[c], dstOffset, frames, width);
    if c < e {
      ChannelsCopyMoves(mem, dst, dstOffset, src, srcOffset, frames, width, silence, e, c, f, b);
      AreaFrame(before, dst[e], dstOffset, src[e], srcOffset, frames, width, silence, x);
    } else {
      AreaMoves(before, dst[e], dstOffset, src[e], srcOffset, frames, width, silence, f, b);
      if src[e].addr != 0 {
        var y := ByteAt(src[e].Address(srcOffset), src[e].Stride(), f, b);
        assert AreaByte(y, src[e], srcOffset, frames, width);
        ChannelsCopyFrame(mem, dst, dstOffset, src, srcOffset, frames, width, silence, e, y);
      }
    }
  }

  /** A byte of an interleaved buffer tells its channel. */
  lemma {:induction false} InterleavedChannel(base: nat, w: nat, channels: nat, c: nat, k: nat, a: nat)
    requires c < channels && a < w
    ensures ((ByteAt(base + c * w, channels * w, k, a) - base) / w) % channels == c
  {
    ByteAtClosed(base + c * w, channels * w, k, a);
    InterleavedOffset(w, channels, c, k, a);
    var q := k * channels + c;
    DivUnique(q * w + a, w, q);
    ModUnique(q, c, k, channels);
  }

  lemma {:induction false} InterleavedOffset(w: nat, channels: nat, c: nat, k: nat, a: nat)
    requires a < w
    ensures c * w + k * (channels * w) + a == (k * channels + c) * w + a < (k * channels + c + 1) * w
  {
    assert k * (channels * w) == (k * channels) * w;
    assert (k * channels + c) * w == (k * channels) * w + c * w;
    assert (k * channels + c + 1) * w == (k * channels + c) * w + w;
  }

  /** Channels interleaved in one buffer never share a byte. */
  lemma {:induction false} InterleavedApart(base: nat, w: nat, channels: nat, c: nat, d: nat, n: nat, x: int)
    requires c < d < channels
    ensures !(InSamples(x, base + c * w, channels * w, w, n) && InSamples(x, base + d * w, channels * w, w, n))
  {
    var bc, bd, stride := base + c * w, base + d * w, channels * w;
    if InSamples(x, bc, stride, w, n) && InSamples(x, bd, stride, w, n) {
      var k: nat, a: nat :| k < n && a < w && ByteAt(bc, stride, k, a) == x;
      var l: nat, b: nat :| l < n && b < w && ByteAt(bd, stride, l, b) == x;
      InterleavedChannel(base, w, channels, c, k, a);
      InterleavedChannel(base, w, channels, d, l, b);
    }
  }
}
