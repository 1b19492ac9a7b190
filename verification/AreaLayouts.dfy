/** The two layouts of channel buffers, interleaved in one block and one block for each channel,
    and where in them a copy finds and leaves every frame. */
module AreaLayouts {
  import opened Arith
  import opened RingFifo
  import opened AreaCopy

  /** Where byte b of a frame is, in unbounded arithmetic. */
  function Place(area: ChannelArea, frame: nat, b: nat): nat {
    area.addr + (area.first + area.step * frame) / 8 + b
  }

  /** Samples start at whole bytes apart, and the bit offset of the last of them fits 32 bits. */
  ghost predicate Addressable(area: ChannelArea, offset: nat, frames: nat) {
    area.step % 8 == 0 && (frames > 0 ==> area.first + area.step * (offset + (frames - 1)) < UINT_RANGE)
  }

  /** The places that a copy steps through are those of the frames. */
  lemma {:induction false} FramePlace(area: ChannelArea, offset: nat, frames: nat, f: nat, b: nat)
    requires Addressable(area, offset, frames) && f < frames
    ensures ByteAt(area.Address(offset), area.Stride(), f, b) == Place(area, offset + f, b)
  {
    MulMono(offset + f, offset + (frames - 1), area.step);
    assert (offset + f) * area.step == area.step * (offset + f);
    assert (offset + (frames - 1)) * area.step == area.step * (offset + (frames - 1));
    AddressSteps(area, offset, f);
    AddressExact(area, offset + f);
    ByteAtClosed(area.Address(offset), area.Stride(), f, b);
  }

  /** Every byte of every frame of every channel goes from its place to its place, or is silent. */
  lemma {:induction false} EveryFrameArrives(mem: seq<Byte>, dst: seq<ChannelArea>, dstOffset: nat,
                                             src: seq<ChannelArea>, srcOffset: nat, frames: nat, width: nat,
                                             silence: seq<Byte>, c: nat, f: nat, b: nat)
    requires Separate(|mem|, dst, dstOffset, src, srcOffset, frames, width) && |silence| == width / 8
    requires c < |dst| && f < frames && b < width / 8 && dst[c].addr != 0
    requires Addressable(dst[c], dstOffset, frames)
    requires src[c].addr != 0 ==> Addressable(src[c], srcOffset, frames)
    ensures Place(dst[c], dstOffset + f, b) < |mem|
    ensures src[c].addr != 0 ==> Place(src[c], srcOffset + f, b) < |mem|
    ensures ChannelsCopied(mem, dst, dstOffset, src, srcOffset, frames, width, silence, |dst|)
              [Place(dst[c], dstOffset + f, b)]
         == if src[c].addr == 0 then silence[b] else mem[Place(src[c], srcOffset + f, b)]
  {
    assert |dst| == |src|;
    hide *;
    ChannelsCopyMoves(mem, dst, dstOffset, src, srcOffset, frames, width, silence, |dst|, c, f, b);
    FramePlace(dst[c], dstOffset, frames, f, b);
    if src[c].addr != 0 {
      FramePlace(src[c], srcOffset, frames, f, b);
    }
  }

  // ---------------------------------------------------------------- tidy layouts

  /** The frames of every channel lie between lo and hi, apart from each other's. */
  ghost predicate Tidy(areas: seq<ChannelArea>, offset: nat, frames: nat, width: nat, lo: nat, hi: nat) {
    && (forall c :: 0 <= c < |areas| ==>
          areas[c].addr != 0 && width <= areas[c].step && Addressable(areas[c], offset, frames) &&
          Fits(hi, areas[c].Address(offset), areas[c].Stride(), width / 8, frames))
    && (forall c, x :: 0 <= c < |areas| && AreaByte(x, areas[c], offset, frames, width) ==> lo <= x < hi)
    && (forall c, d, x :: 0 <= c < d < |areas| && AreaByte(x, areas[c], offset, frames, width) ==>
          !AreaByte(x, areas[d], offset, frames, width))
  }

  /** Two tidy layouts in different parts of the memory are separate. */
  lemma {:induction false} TidySeparate(size: nat, dst: seq<ChannelArea>, dstOffset: nat, src: seq<ChannelArea>,
                                        srcOffset: nat, frames: nat, width: nat, dstLo: nat, dstHi: nat, srcLo: nat,
                                        srcHi: nat)
    requires 8 <= width && width % 8 == 0 && |dst| == |src| && dstHi <= size && srcHi <= size
    requires Tidy(dst, dstOffset, frames, width, dstLo, dstHi) && Tidy(src, srcOffset, frames, width, srcLo, srcHi)
    requires dstHi <= srcLo || srcHi <= dstLo
    ensures Separate(size, dst, dstOffset, src, srcOffset, frames, width)
  {
    hide AreaByte, Addressable;
  }

  /** Channels interleaved in one block. */
  ghost predicate Interleaved(areas: seq<ChannelArea>, base: nat, width: nat) {
    base != 0 && forall c :: 0 <= c < |areas| ==>
      areas[c].addr == base && areas[c].first == c * width && areas[c].step == |areas| * width
  }

  /** A block for each channel, `total` frames long, apart from the others' and between lo and hi. */
  ghost predicate Planar(areas: seq<ChannelArea>, width: nat, total: nat, lo: nat, hi: nat) {
    && (forall c :: 0 <= c < |areas| ==>
          areas[c].addr != 0 && areas[c].first == 0 && areas[c].step == width &&
          lo <= areas[c].addr && areas[c].addr + total * (width / 8) <= hi)
    && (forall c, d :: 0 <= c < d < |areas| ==>
          areas[c].addr + total * (width / 8) <= areas[d].addr || areas[d].addr + total * (width / 8) <= areas[c].addr)
  }

  /** Multiplying out the bit offset of a frame, in bytes. */
  lemma {:induction false} InterleavedBits(n: nat, w: nat, c: nat, frame: nat, total: nat)
    requires c < n && frame < total && 0 < w
    ensures c * (8 * w) + (n * (8 * w)) * frame == 8 * ((frame * n + c) * w)
    ensures (frame * n + c) * w + w <= total * n * w
  {
    assert (frame * n + c) * w == (frame * n) * w + c * w;
    assert (n * (8 * w)) * frame == 8 * ((frame * n) * w) by {
      assert n * (8 * w) == 8 * (n * w);
      assert (n * w) * frame == (frame * n) * w;
    }
    assert c * (8 * w) == 8 * (c * w);
    MulMono(frame + 1, total, n);
    assert (frame + 1) * n == frame * n + n;
    MulMono(frame * n + c + 1, total * n, w);
    assert (frame * n + c + 1) * w == (frame * n + c) * w + w;
  }

  /** Byte b of a frame of one interleaved channel. */
  lemma {:induction false} InterleavedPlace(areas: seq<ChannelArea>, base: nat, width: nat, total: nat, c: nat,
                                            frame: nat, b: nat)
    requires 8 <= width && width % 8 == 0 && Interleaved(areas, base, width) && c < |areas| && frame < total
    requires 8 * (total * |areas| * (width / 8)) <= UINT_RANGE
    ensures areas[c].first + areas[c].step * frame < UINT_RANGE
    ensures Place(areas[c], frame, b) == base + (frame * |areas| + c) * (width / 8) + b
    ensures (frame * |areas| + c) * (width / 8) + width / 8 <= total * |areas| * (width / 8)
  {
    InterleavedBits(|areas|, width / 8, c, frame, total);
    assert width == 8 * (width / 8);
  }

  lemma {:induction false} InterleavedAddressable(areas: seq<ChannelArea>, base: nat, width: nat, total: nat,
                                                  offset: nat, frames: nat, c: nat)
    requires 8 <= width && width % 8 == 0 && Interleaved(areas, base, width) && c < |areas| && offset + frames <= total
    requires 8 * (total * |areas| * (width / 8)) <= UINT_RANGE
    ensures Addressable(areas[c], offset, frames)
    ensures areas[c].Stride() == |areas| * (width / 8)
  {
    var w := width / 8;
    assert |areas| * width == (|areas| * w) * 8 by {
      assert width == w * 8;
    }
    if frames > 0 {
      InterleavedPlace(areas, base, width, total, c, offset + (frames - 1), 0);
    }
  }

  /** A byte of a channel is a byte of one of its frames. */
  lemma {:induction false} ByteOfFrame(area: ChannelArea, offset: nat, frames: nat, width: nat, x: int)
    returns (f: nat, b: nat)
    requires Addressable(area, offset, frames) && AreaByte(x, area, offset, frames, width)
    ensures f < frames && b < width / 8 && x == Place(area, offset + f, b)
  {
    f, b :| f < frames && b < width / 8 && ByteAt(area.Address(offset), area.Stride(), f, b) == x;
    FramePlace(area, offset, frames, f, b);
  }

  /** The last frame ends where its place says. */
  lemma {:induction false} FitsBefore(area: ChannelArea, offset: nat, frames: nat, width: nat, hi: nat)
    requires Addressable(area, offset, frames)
    requires frames > 0 ==> Place(area, offset + (frames - 1), 0) + width / 8 <= hi
    ensures Fits(hi, area.Address(offset), area.Stride(), width / 8, frames)
  {
    if frames > 0 {
      FramePlace(area, offset, frames, frames - 1, 0);
      ByteAtClosed(area.Address(offset), area.Stride(), frames - 1, 0);
    }
  }

  lemma {:induction false} InterleavedTidy(areas: seq<ChannelArea>, base: nat, width: nat, total: nat, offset: nat,
                                           frames: nat)
    requires 8 <= width && width % 8 == 0 && Interleaved(areas, base, width) && offset + frames <= total
    requires 8 * (total * |areas| * (width / 8)) <= UINT_RANGE
    ensures Tidy(areas, offset, frames, width, base, base + total * |areas| * (width / 8))
  {
    var hi := base + total * |areas| * (width / 8);
    forall c | 0 <= c < |areas|
      ensures areas[c].addr != 0 && Addressable(areas[c], offset, frames) && width <= areas[c].step
      ensures Fits(hi, areas[c].Address(offset), areas[c].Stride(), width / 8, frames)
    {
      InterleavedFits(areas, base, width, total, offset, frames, c, hi);
    }
    forall c, x | 0 <= c < |areas| && AreaByte(x, areas[c], offset, frames, width)
      ensures base <= x < hi
    {
      InterleavedWithin(areas, base, width, total, offset, frames, c, hi, x);
    }
    forall c, d, x | 0 <= c < d < |areas| && AreaByte(x, areas[c], offset, frames, width)
      ensures !AreaByte(x, areas[d], offset, frames, width)
    {
      InterleavedChannels(areas, base, width, total, offset, frames, c, d, x);
    }
    hide AreaByte, Addressable, Fits, Interleaved;
  }

  lemma {:induction false} InterleavedFits(areas: seq<ChannelArea>, base: nat, width: nat, total: nat,
                                           offset: nat, frames: nat, c: nat, hi: nat)
    requires 8 <= width && width % 8 == 0 && Interleaved(areas, base, width) && offset + frames <= total
    requires hi == base + total * |areas| * (width / 8) && 8 * (total * |areas| * (width / 8)) <= UINT_RANGE
    requires c < |areas|
    ensures areas[c].addr != 0 && Addressable(areas[c], offset, frames) && width <= areas[c].step
    ensures Fits(hi, areas[c].Address(offset), areas[c].Stride(), width / 8, frames)
  {
    InterleavedAddressable(areas, base, width, total, offset, frames, c);
    MulMono(1, |areas|, width);
    if frames > 0 {
      InterleavedPlace(areas, base, width, total, c, offset + (frames - 1), 0);
    }
    hide Addressable, Fits, Place;
    FitsBefore(areas[c], offset, frames, width, hi);
  }

  lemma {:induction false} InterleavedWithin(areas: seq<ChannelArea>, base: nat, width: nat, total: nat,
                                             offset: nat, frames: nat, c: nat, hi: nat, x: int)
    requires 8 <= width && width % 8 == 0 && Interleaved(areas, base, width) && offset + frames <= total
    requires hi == base + total * |areas| * (width / 8) && 8 * (total * |areas| * (width / 8)) <= UINT_RANGE
    requires c < |areas|
    requires AreaByte(x, areas[c], offset, frames, width)
    ensures base <= x < hi
  {
    hide *;
    InterleavedAddressable(areas, base, width, total, offset, frames, c);
    var f, b := ByteOfFrame(areas[c], offset, frames, width, x);
    InterleavedPlace(areas, base, width, total, c, offset + f, b);
    MulMono(0, (offset + f) * |areas| + c, width / 8);
  }

  lemma {:induction false} InterleavedChannels(areas: seq<ChannelArea>, base: nat, width: nat, total: nat,
                                               offset: nat, frames: nat, c: nat, d: nat, x: int)
    requires 8 <= width && width % 8 == 0 && Interleaved(areas, base, width) && offset + frames <= total
    requires 8 * (total * |areas| * (width / 8)) <= UINT_RANGE && c < d < |areas|
    ensures !(AreaByte(x, areas[c], offset, frames, width) && AreaByte(x, areas[d], offset, frames, width))
  {
    var n, w := |areas|, width / 8;
    InterleavedStart(areas, base, width, total, offset, frames, c);
    InterleavedStart(areas, base, width, total, offset, frames, d);
    if frames > 0 {
      InterleavedApart(base + offset * n * w, w, n, c, d, frames, x);
    }
  }

  lemma {:induction false} InterleavedStart(areas: seq<ChannelArea>, base: nat, width: nat, total: nat,
                                            offset: nat, frames: nat, c: nat)
    requires 8 <= width && width % 8 == 0 && Interleaved(areas, base, width) && offset + frames <= total
    requires 8 * (total * |areas| * (width / 8)) <= UINT_RANGE && c < |areas|
    ensures areas[c].Stride() == |areas| * (width / 8)
    ensures offset * |areas| * (width / 8) >= 0
    ensures frames > 0 ==> areas[c].Address(offset) == base + offset * |areas| * (width / 8) + c * (width / 8)
  {
    var n, w := |areas|, width / 8;
    InterleavedAddressable(areas, base, width, total, offset, frames, c);
    MulMono(0, offset, n);
    MulMono(0, offset * n, w);
    if frames > 0 {
      FramePlace(areas[c], offset, frames, 0, 0);
      InterleavedPlace(areas, base, width, total, c, offset, 0);
      assert (offset * n + c) * w == offset * n * w + c * w;
    }
  }

  /** Byte b of a frame in a channel's own block. */
  lemma {:induction false} PlanarPlace(area: ChannelArea, width: nat, total: nat, frame: nat, b: nat)
    requires 8 <= width && width % 8 == 0 && area.first == 0 && area.step == width && frame < total
    requires 8 * (total * (width / 8)) <= UINT_RANGE
    ensures area.first + area.step * frame < UINT_RANGE
    ensures Place(area, frame, b) == area.addr + frame * (width / 8) + b
    ensures frame * (width / 8) + width / 8 <= total * (width / 8)
  {
    var w := width / 8;
    MulMono(frame + 1, total, w);
    assert (frame + 1) * w == frame * w + w;
    assert width * frame == 8 * (frame * w) by {
      assert width == 8 * w;
    }
  }

  lemma {:induction false} PlanarTidy(areas: seq<ChannelArea>, width: nat, total: nat, lo: nat, hi: nat, offset: nat,
                                      frames: nat)
    requires 8 <= width && width % 8 == 0 && Planar(areas, width, total, lo, hi) && offset + frames <= total
    requires 8 * (total * (width / 8)) <= UINT_RANGE
    ensures Tidy(areas, offset, frames, width, lo, hi)
  {
    forall c | 0 <= c < |areas|
      ensures Addressable(areas[c], offset, frames)
      ensures Fits(hi, areas[c].Address(offset), areas[c].Stride(), width / 8, frames)
    {
      PlanarAddressable(areas[c], width, total, offset, frames);
      if frames > 0 {
        PlanarPlace(areas[c], width, total, offset + (frames - 1), 0);
      }
      FitsBefore(areas[c], offset, frames, width, hi);
    }
    forall c, x | 0 <= c < |areas| && AreaByte(x, areas[c], offset, frames, width)
      ensures areas[c].addr <= x < areas[c].addr + total * (width / 8)
    {
      var f, b := ByteOfFrame(areas[c], offset, frames, width, x);
      PlanarPlace(areas[c], width, total, offset + f, b);
      MulMono(0, offset + f, width / 8);
    }
  }

  lemma {:induction false} PlanarAddressable(area: ChannelArea, width: nat, total: nat, offset: nat, frames: nat)
    requires 8 <= width && width % 8 == 0 && area.first == 0 && area.step == width && offset + frames <= total
    requires 8 * (total * (width / 8)) <= UINT_RANGE
    ensures Addressable(area, offset, frames)
  {
    if frames > 0 {
      PlanarPlace(area, width, total, offset + (frames - 1), 0);
    }
  }

  // ---------------------------------------------------------------- from one layout to the other

  /** Two buffers of `total` frames in different parts of the memory: an interleaved one and a
      block for each channel. */
  ghost predicate TwoBuffers(size: nat, blocks: seq<ChannelArea>, woven: seq<ChannelArea>, base: nat, lo: nat, hi: nat,
                             width: nat, total: nat)
  {
    && 8 <= width && width % 8 == 0 && |blocks| == |woven|
    && Interleaved(woven, base, width) && Planar(blocks, width, total, lo, hi)
    && 8 * (total * |woven| * (width / 8)) <= UINT_RANGE && 8 * (total * (width / 8)) <= UINT_RANGE
    && hi <= size && base + total * |woven| * (width / 8) <= size
    && (hi <= base || base + total * |woven| * (width / 8) <= lo)
  }

  lemma {:induction false} BothSeparate(size: nat, blocks: seq<ChannelArea>, woven: seq<ChannelArea>, base: nat,
                                        lo: nat, hi: nat, width: nat, total: nat, atBlocks: nat, atWoven: nat,
                                        frames: nat)
    requires TwoBuffers(size, blocks, woven, base, lo, hi, width, total)
    requires atBlocks + frames <= total && atWoven + frames <= total
    ensures Separate(size, blocks, atBlocks, woven, atWoven, frames, width)
    ensures Separate(size, woven, atWoven, blocks, atBlocks, frames, width)
  {
    var end := base + total * |woven| * (width / 8);
    assert 8 <= width && width % 8 == 0 && |blocks| == |woven|;
    assert hi <= size && end <= size && (hi <= base || end <= lo);
    assert Interleaved(woven, base, width) && Planar(blocks, width, total, lo, hi);
    hide *;
    InterleavedTidy(woven, base, width, total, atWoven, frames);
    PlanarTidy(blocks, width, total, lo, hi, atBlocks, frames);
    TidySeparate(size, blocks, atBlocks, woven, atWoven, frames, width, lo, hi, base, end);
    TidySeparate(size, woven, atWoven, blocks, atBlocks, frames, width, base, end, lo, hi);
  }

  /** Byte b of frame f of channel c, in its own block and in the interleaved one. */
  function InBlock(blocks: seq<ChannelArea>, width: nat, c: nat, frame: nat, b: nat): nat
    requires c < |blocks|
  {
    blocks[c].addr + frame * (width / 8) + b
  }

  function InWeave(channels: nat, base: nat, width: nat, c: nat, frame: nat, b: nat): nat {
    base + (frame * channels + c) * (width / 8) + b
  }

  /** Copying to blocks takes the channels apart, and copying from blocks interleaves them. */
  lemma {:induction false} Unweave(mem: seq<Byte>, blocks: seq<ChannelArea>, woven: seq<ChannelArea>, base: nat,
                                   lo: nat, hi: nat, width: nat, total: nat, atBlocks: nat, atWoven: nat, frames: nat,
                                   silence: seq<Byte>, c: nat, f: nat, b: nat)
    requires TwoBuffers(|mem|, blocks, woven, base, lo, hi, width, total) && |silence| == width / 8
    requires atBlocks + frames <= total && atWoven + frames <= total && c < |blocks| && f < frames && b < width / 8
    ensures InBlock(blocks, width, c, atBlocks + f, b) < |mem|
    ensures InWeave(|woven|, base, width, c, atWoven + f, b) < |mem|
    ensures Separate(|mem|, blocks, atBlocks, woven, atWoven, frames, width)
    ensures ChannelsCopied(mem, blocks, atBlocks, woven, atWoven, frames, width, silence, |blocks|)
              [InBlock(blocks, width, c, atBlocks + f, b)]
         == mem[InWeave(|woven|, base, width, c, atWoven + f, b)]
  {
    BothSeparate(|mem|, blocks, woven, base, lo, hi, width, total, atBlocks, atWoven, frames);
    PlacesAre(|mem|, blocks, woven, base, lo, hi, width, total, atBlocks, atWoven, frames, c, f, b);
    hide *;
    EveryFrameArrives(mem, blocks, atBlocks, woven, atWoven, frames, width, silence, c, f, b);
  }

  lemma {:induction false} Weave(mem: seq<Byte>, blocks: seq<ChannelArea>, woven: seq<ChannelArea>, base: nat,
                                 lo: nat, hi: nat, width: nat, total: nat, atBlocks: nat, atWoven: nat, frames: nat,
                                 silence: seq<Byte>, c: nat, f: nat, b: nat)
    requires TwoBuffers(|mem|, blocks, woven, base, lo, hi, width, total) && |silence| == width / 8
    requires atBlocks + frames <= total && atWoven + frames <= total && c < |blocks| && f < frames && b < width / 8
    ensures InBlock(blocks, width, c, atBlocks + f, b) < |mem|
    ensures InWeave(|woven|, base, width, c, atWoven + f, b) < |mem|
    ensures Separate(|mem|, woven, atWoven, blocks, atBlocks, frames, width)
    ensures |woven| == |blocks|
    ensures ChannelsCopied(mem, woven, atWoven, blocks, atBlocks, frames, width, silence, |woven|)
              [InWeave(|woven|, base, width, c, atWoven + f, b)]
         == mem[InBlock(blocks, width, c, atBlocks + f, b)]
  {
    BothSeparate(|mem|, blocks, woven, base, lo, hi, width, total, atBlocks, atWoven, frames);
    PlacesAre(|mem|, blocks, woven, base, lo, hi, width, total, atBlocks, atWoven, frames, c, f, b);
    hide *;
    EveryFrameArrives(mem, woven, atWoven, blocks, atBlocks, frames, width, silence, c, f, b);
  }

  lemma {:induction false} PlacesAre(size: nat, blocks: seq<ChannelArea>, woven: seq<ChannelArea>, base: nat, lo: nat,
                                     hi: nat, width: nat, total: nat, atBlocks: nat, atWoven: nat, frames: nat,
                                     c: nat, f: nat, b: nat)
    requires TwoBuffers(size, blocks, woven, base, lo, hi, width, total)
    requires atBlocks + frames <= total && atWoven + frames <= total && c < |blocks| && f < frames && b < width / 8
    ensures |blocks| == |woven| && blocks[c].addr != 0 && woven[c].addr != 0
    ensures Addressable(blocks[c], atBlocks, frames) && Addressable(woven[c], atWoven, frames)
    ensures Place(blocks[c], atBlocks + f, b) == InBlock(blocks, width, c, atBlocks + f, b)
    ensures Place(woven[c], atWoven + f, b) == InWeave(|woven|, base, width, c, atWoven + f, b)
  {
    PlanarAddressable(blocks[c], width, total, atBlocks, frames);
    InterleavedAddressable(woven, base, width, total, atWoven, frames, c);
    PlanarPlace(blocks[c], width, total, atBlocks + f, b);
    InterleavedPlace(woven, base, width, total, c, atWoven + f, b);
  }

  /** Taken apart and interleaved again, every frame is what and where it was. */
  lemma {:induction false} WeaveUnweave(mem: seq<Byte>, blocks: seq<ChannelArea>, woven: seq<ChannelArea>, base: nat,
                                        lo: nat, hi: nat, width: nat, total: nat, atBlocks: nat, atWoven: nat,
                                        frames: nat, silence: seq<Byte>, c: nat, f: nat, b: nat)
    requires TwoBuffers(|mem|, blocks, woven, base, lo, hi, width, total) && |silence| == width / 8
    requires atBlocks + frames <= total && atWoven + frames <= total && c < |blocks| && f < frames && b < width / 8
    ensures |woven| == |blocks|
    ensures Separate(|mem|, blocks, atBlocks, woven, atWoven, frames, width)
    ensures Separate(|mem|, woven, atWoven, blocks, atBlocks, frames, width)
    ensures InWeave(|woven|, base, width, c, atWoven + f, b) < |mem|
    ensures var apart := ChannelsCopied(mem, blocks, atBlocks, woven, atWoven, frames, width, silence, |blocks|);
            var again := ChannelsCopied(apart, woven, atWoven, blocks, atBlocks, frames, width, silence, |woven|);
            var x := InWeave(|woven|, base, width, c, atWoven + f, b);
            again[x] == mem[x]
  {
    hide *;
    Unweave(mem, blocks, woven, base, lo, hi, width, total, atBlocks, atWoven, frames, silence, c, f, b);
    var apart := ChannelsCopied(mem, blocks, atBlocks, woven, atWoven, frames, width, silence, |blocks|);
    Weave(apart, blocks, woven, base, lo, hi, width, total, atBlocks, atWoven, frames, silence, c, f, b);
  }
}
