/** The PCM ring shared by the application and the hardware: bytes in a mapped buffer
    and two wrapped pointers. Nothing here records what was written or read: the FIFO
    theorems are about the bytes that pass through the buffer. */
module RingFifo {
  import opened Arith
  import opened RingPointers

  type Frame = seq<Byte>

  datatype Stream = Playback | Capture

  datatype Ring = Ring(bufferSize: nat, boundary: nat, frameBits: nat, hwPtr: nat, applPtr: nat, mem: seq<Byte>) {
    function FrameBytes(): nat { frameBits / 8 }

    /** The room the application may use: free frames on playback, captured frames on capture. */
    function Avail(stream: Stream): int {
      if stream.Playback? then PlaybackAvail(bufferSize, boundary, hwPtr, applPtr)
      else CaptureAvail(boundary, hwPtr, applPtr)
    }

    /** An interleaved layout of whole-byte frames whose bit offsets fit 32 bits, and pointers inside the boundary. */
    ghost predicate Placed() {
      && Geometry(bufferSize, boundary)
      && bufferSize < boundary
      && 0 < frameBits
      && frameBits % 8 == 0
      && frameBits * bufferSize <= UINT_RANGE
      && |mem| == bufferSize * FrameBytes()
      && hwPtr < boundary
      && applPtr < boundary
    }

    /** And no xrun. */
    ghost predicate Valid(stream: Stream) { Placed() && Avail(stream) <= bufferSize }

    /** How many frames lie between the two pointers, waiting to be read. */
    function Count(stream: Stream): int {
      if stream.Playback? then bufferSize - Avail(stream) else Avail(stream)
    }

    /** The pointer of whoever reads. */
    function ReadPtr(stream: Stream): nat {
      if stream.Playback? then hwPtr else applPtr
    }

    function WritePtr(stream: Stream): nat {
      if stream.Playback? then applPtr else hwPtr
    }

    /** The frames waiting to be read, oldest first. */
    ghost function Pending(stream: Stream): seq<Frame>
      requires Valid(stream)
    {
      Slots(mem, FrameBytes(), bufferSize, ReadPtr(stream), Count(stream))
    }
  }

  /** The k-th frame of a block of frames of `bytes` bytes each. */
  function FrameAt(block: seq<Byte>, bytes: nat, k: nat): Frame {
    if k * bytes + bytes <= |block| then block[k * bytes..k * bytes + bytes] else []
  }

  function Frames(block: seq<Byte>, bytes: nat, n: nat): seq<Frame> {
    seq(n, k requires 0 <= k => FrameAt(block, bytes, k))
  }

  /** `count` frames of a ring of `size` slots, from pointer `p` on. */
  function Slots(mem: seq<Byte>, bytes: nat, size: nat, p: nat, count: nat): seq<Frame>
    requires 0 < size
  {
    seq(count, k requires 0 <= k => FrameAt(mem, bytes, (p + k) % size))
  }

  /** What memcpy leaves: `data` in place of the bytes from `at` on. */
  function Splice(mem: seq<Byte>, at: nat, data: seq<Byte>): (r: seq<Byte>)
    requires at + |data| <= |mem|
    ensures |r| == |mem|
    ensures forall k :: 0 <= k < |mem| ==> r[k] == if at <= k < at + |data| then data[k - at] else mem[k]
  {
    mem[..at] + data + mem[at + |data|..]
  }

  /** Byte address of a frame in an area that starts at bit 0: the bit offset is a 32-bit number. */
  function AreaAddr(frameBits: nat, offset: nat): nat { ToUInt(frameBits * offset) / 8 }

  function FramesToBytes(frameBits: nat, frames: nat): nat { frames * frameBits / 8 }

  function BeginOffset(bufferSize: nat, applPtr: nat): nat
    requires bufferSize > 0
  {
    applPtr % bufferSize
  }

  /** The frames granted: no more than asked for, than there is room, than fit before the end of the ring. */
  function BeginFrames(bufferSize: nat, applPtr: nat, avail: nat, asked: nat): nat
    requires bufferSize > 0
  {
    Min(Min(asked, Min(avail, bufferSize)), bufferSize - BeginOffset(bufferSize, applPtr))
  }

  // ---------------------------------------------------------------- layout

  lemma FrameBytesFacts(frameBits: nat, frames: nat)
    requires frameBits % 8 == 0
    ensures FramesToBytes(frameBits, frames) == frames * (frameBits / 8)
  {
    var b := frameBits / 8;
    assert frames * frameBits == (frames * b) * 8 by {
      assert frameBits == b * 8;
    }
  }

  lemma AreaAddrFacts(frameBits: nat, bufferSize: nat, offset: nat)
    requires 0 < frameBits && frameBits % 8 == 0 && frameBits * bufferSize <= UINT_RANGE && offset < bufferSize
    ensures AreaAddr(frameBits, offset) == offset * (frameBits / 8)
  {
    MulMono(offset + 1, bufferSize, frameBits);
    assert (offset + 1) * frameBits == frameBits * offset + frameBits;
    assert bufferSize * frameBits == frameBits * bufferSize;
    var b := frameBits / 8;
    assert frameBits * offset == (offset * b) * 8 by {
      assert frameBits == b * 8;
    }
  }

  /** Frames of a block that fit, laid out one after the other. */
  lemma BlockFits(bytes: nat, k: nat, n: nat)
    requires k < n
    ensures 0 <= k * bytes && k * bytes + bytes <= n * bytes
  {
    MulMono(k + 1, n, bytes);
    assert (k + 1) * bytes == k * bytes + bytes;
  }

  /** Copying n frames to slot `offset` replaces those n slots and no other. */
  lemma SpliceFrame(mem: seq<Byte>, bytes: nat, slots: nat, offset: nat, n: nat, data: seq<Byte>, s: nat)
    requires |mem| == slots * bytes && |data| == n * bytes && offset + n <= slots && s < slots
    requires offset * bytes + |data| <= |mem|
    ensures FrameAt(Splice(mem, offset * bytes, data), bytes, s)
         == if offset <= s < offset + n then FrameAt(data, bytes, s - offset) else FrameAt(mem, bytes, s)
  {
    var r := Splice(mem, offset * bytes, data);
    BlockFits(bytes, s, slots);
    if s < offset {
      BlockFits(bytes, s, offset);
      assert FrameAt(r, bytes, s) == FrameAt(mem, bytes, s);
    } else if s < offset + n {
      BlockFits(bytes, s - offset, n);
      assert s * bytes == offset * bytes + (s - offset) * bytes;
      assert FrameAt(r, bytes, s) == FrameAt(data, bytes, s - offset);
    } else {
      MulMono(offset + n, s, bytes);
      assert (offset + n) * bytes == offset * bytes + n * bytes;
      assert FrameAt(r, bytes, s) == FrameAt(mem, bytes, s);
    }
  }

  // ---------------------------------------------------------------- pointers

  lemma SlotAcross(read: nat, count: nat, write: nat, m: int, boundary: nat, bufferSize: nat)
    requires 0 < bufferSize && boundary % bufferSize == 0 && read + count == write + m * boundary
    ensures (read + count) % bufferSize == write % bufferSize
  {
    var laps := boundary / bufferSize;
    assert boundary == laps * bufferSize;
    assert m * boundary == (m * laps) * bufferSize;
    ModAddMultiple(write, m * laps, bufferSize);
  }

  /** The writer's pointer stands one buffer position past the last waiting frame. */
  lemma WriterSlot(r: Ring, stream: Stream)
    requires r.Valid(stream)
    ensures 0 <= r.Count(stream) <= r.bufferSize
    ensures (r.ReadPtr(stream) + r.Count(stream)) % r.bufferSize == r.WritePtr(stream) % r.bufferSize
  {
    if stream.Playback? {
      var j := PlaybackAvailValue(r.bufferSize, r.boundary, r.hwPtr, r.applPtr);
      assert -j * r.boundary == -(j * r.boundary);
      SlotAcross(r.hwPtr, r.Count(stream), r.applPtr, -j, r.boundary, r.bufferSize);
    } else {
      var j := CaptureAvailValue(r.boundary, r.hwPtr, r.applPtr);
      SlotAcross(r.applPtr, r.Count(stream), r.hwPtr, j, r.boundary, r.bufferSize);
    }
  }

  /** Reducing before adding, when the sum stays inside the ring. */
  lemma SlotPlus(p: nat, i: nat, bufferSize: nat)
    requires 0 < bufferSize && p % bufferSize + i < bufferSize
    ensures (p + i) % bufferSize == p % bufferSize + i
  {
    DivBounds(p, bufferSize);
    ModUnique(p + i, p % bufferSize + i, p / bufferSize, bufferSize);
  }

  /** A pointer moved by at most a buffer points to the same slots, wrapped or not. */
  lemma AdvancedSlot(boundary: nat, bufferSize: nat, p: nat, n: nat, k: nat)
    requires Geometry(bufferSize, boundary) && p < boundary && n <= bufferSize
    ensures CommitPtr(boundary, p, n) < boundary
    ensures (CommitPtr(boundary, p, n) + k) % bufferSize == (p + n + k) % bufferSize
  {
    CommitValue(boundary, p, n);
    if p + n >= boundary {
      var laps := boundary / bufferSize;
      assert boundary == laps * bufferSize;
      ModAddMultiple(CommitPtr(boundary, p, n) + k, laps, bufferSize);
    }
  }

  lemma PlaybackAvailIs(bufferSize: nat, boundary: nat, h: nat, a: nat, v: int, j: int)
    requires 0 < bufferSize <= boundary && boundary + bufferSize <= LONG_MAX && h < boundary && a < boundary
    requires v == h + bufferSize - a + j * boundary && 0 <= v < boundary
    ensures PlaybackAvail(bufferSize, boundary, h, a) == v
  {
    var i := PlaybackAvailValue(bufferSize, boundary, h, a);
    var d := h + bufferSize - a;
    assert d + i * boundary == v + (i - j) * boundary;
    SameWindow(d + i * boundary, v, i - j, boundary);
  }

  lemma CaptureAvailIs(boundary: nat, h: nat, a: nat, v: int, j: int)
    requires 0 < boundary <= LONG_MAX && h < boundary && a < boundary
    requires v == h - a + j * boundary && 0 <= v < boundary
    ensures CaptureAvail(boundary, h, a) == v
  {
    var i := CaptureAvailValue(boundary, h, a);
    assert h - a + i * boundary == v + (i - j) * boundary;
    SameWindow(h - a + i * boundary, v, i - j, boundary);
  }

  /** How a pointer moves: forward, less at most one boundary. */
  lemma CommitLap(boundary: nat, p: nat, n: nat) returns (w: int)
    requires p < boundary <= LONG_MAX && n <= boundary
    ensures CommitPtr(boundary, p, n) == p + n - w * boundary
    ensures 0 <= CommitPtr(boundary, p, n) < boundary
  {
    CommitValue(boundary, p, n);
    w := if p + n >= boundary then 1 else 0;
  }

  lemma PlaybackApplAdvance(bufferSize: nat, boundary: nat, h: nat, a: nat, n: nat)
    requires 0 < bufferSize <= boundary && boundary + bufferSize <= LONG_MAX && h < boundary && a < boundary
    requires n <= bufferSize && n <= PlaybackAvail(bufferSize, boundary, h, a)
    ensures CommitPtr(boundary, a, n) < boundary
    ensures PlaybackAvail(bufferSize, boundary, h, CommitPtr(boundary, a, n))
         == PlaybackAvail(bufferSize, boundary, h, a) - n
  {
    var room := PlaybackAvail(bufferSize, boundary, h, a);
    var j := PlaybackAvailValue(bufferSize, boundary, h, a);
    var w := CommitLap(boundary, a, n);
    assert (j - w) * boundary == j * boundary - w * boundary;
    PlaybackAvailIs(bufferSize, boundary, h, CommitPtr(boundary, a, n), room - n, j - w);
  }

  lemma PlaybackHwAdvance(bufferSize: nat, boundary: nat, h: nat, a: nat, n: nat)
    requires 0 < bufferSize <= boundary && boundary + bufferSize <= LONG_MAX && h < boundary && a < boundary
    requires n <= bufferSize && PlaybackAvail(bufferSize, boundary, h, a) + n < boundary
    ensures CommitPtr(boundary, h, n) < boundary
    ensures PlaybackAvail(bufferSize, boundary, CommitPtr(boundary, h, n), a)
         == PlaybackAvail(bufferSize, boundary, h, a) + n
  {
    var room := PlaybackAvail(bufferSize, boundary, h, a);
    var j := PlaybackAvailValue(bufferSize, boundary, h, a);
    var w := CommitLap(boundary, h, n);
    assert (j + w) * boundary == j * boundary + w * boundary;
    PlaybackAvailIs(bufferSize, boundary, CommitPtr(boundary, h, n), a, room + n, j + w);
  }

  lemma CaptureApplAdvance(boundary: nat, h: nat, a: nat, n: nat)
    requires 0 < boundary <= LONG_MAX && h < boundary && a < boundary
    requires n <= CaptureAvail(boundary, h, a)
    ensures CommitPtr(boundary, a, n) < boundary
    ensures CaptureAvail(boundary, h, CommitPtr(boundary, a, n)) == CaptureAvail(boundary, h, a) - n
  {
    var ready := CaptureAvail(boundary, h, a);
    var j := CaptureAvailValue(boundary, h, a);
    var w := CommitLap(boundary, a, n);
    assert (j - w) * boundary == j * boundary - w * boundary;
    CaptureAvailIs(boundary, h, CommitPtr(boundary, a, n), ready - n, j - w);
  }

  lemma CaptureHwAdvance(boundary: nat, h: nat, a: nat, n: nat)
    requires 0 < boundary <= LONG_MAX && h < boundary && a < boundary
    requires n <= boundary && CaptureAvail(boundary, h, a) + n < boundary
    ensures CommitPtr(boundary, h, n) < boundary
    ensures CaptureAvail(boundary, CommitPtr(boundary, h, n), a) == CaptureAvail(boundary, h, a) + n
  {
    var ready := CaptureAvail(boundary, h, a);
    var j := CaptureAvailValue(boundary, h, a);
    var w := CommitLap(boundary, h, n);
    assert (j + w) * boundary == j * boundary + w * boundary;
    CaptureAvailIs(boundary, CommitPtr(boundary, h, n), a, ready + n, j + w);
  }

  // ---------------------------------------------------------------- steps

  /** The writer puts n frames, contiguous in the ring, after the waiting ones. */
  lemma Enqueued(r: Ring, stream: Stream, n: nat, data: seq<Byte>, r': Ring)
    requires r.Valid(stream) && r'.Valid(stream)
    requires |data| == n * r.FrameBytes() && r.Count(stream) + n <= r.bufferSize
    requires r.WritePtr(stream) % r.bufferSize + n <= r.bufferSize
    requires (r.WritePtr(stream) % r.bufferSize) * r.FrameBytes() + |data| <= |r.mem|
    requires r'.mem == Splice(r.mem, (r.WritePtr(stream) % r.bufferSize) * r.FrameBytes(), data)
    requires r'.bufferSize == r.bufferSize && r'.frameBits == r.frameBits
    requires r'.ReadPtr(stream) == r.ReadPtr(stream) && r'.Count(stream) == r.Count(stream) + n
    ensures r'.Pending(stream) == r.Pending(stream) + Frames(data, r.FrameBytes(), n)
  {
    WriterSlot(r, stream);
    SlotsExtended(r.mem, r.FrameBytes(), r.bufferSize, r.ReadPtr(stream), r.Count(stream),
                  r.WritePtr(stream) % r.bufferSize, n, data);
  }

  lemma SlotsExtended(mem: seq<Byte>, bytes: nat, size: nat, p: nat, count: nat, offset: nat, n: nat, data: seq<Byte>)
    requires 0 < size && |mem| == size * bytes && |data| == n * bytes && count + n <= size
    requires (p + count) % size == offset && offset + n <= size && offset * bytes + |data| <= |mem|
    ensures Slots(Splice(mem, offset * bytes, data), bytes, size, p, count + n)
         == Slots(mem, bytes, size, p, count) + Frames(data, bytes, n)
  {
    var mem' := Splice(mem, offset * bytes, data);
    forall k | 0 <= k < count + n
      ensures Slots(mem', bytes, size, p, count + n)[k]
           == (Slots(mem, bytes, size, p, count) + Frames(data, bytes, n))[k]
    {
      var s := (p + k) % size;
      SpliceFrame(mem, bytes, size, offset, n, data, s);
      if k >= count {
        SlotPlus(p + count, k - count, size);
      } else if offset <= s < offset + n {
        SlotPlus(p + count, s - offset, size);
        ModInjective(p + k, p + count + (s - offset), size);
        assert false;
      }
    }
  }

  /** The reader takes the n oldest frames; the bytes stay. */
  lemma Dequeued(r: Ring, stream: Stream, n: nat, r': Ring)
    requires r.Valid(stream) && r'.Valid(stream)
    requires 0 <= n <= r.Count(stream) && n <= r.bufferSize
    requires r'.mem == r.mem && r'.bufferSize == r.bufferSize && r'.frameBits == r.frameBits
    requires r'.ReadPtr(stream) == CommitPtr(r.boundary, r.ReadPtr(stream), n)
    requires r'.Count(stream) == r.Count(stream) - n
    ensures r'.Pending(stream) == r.Pending(stream)[n..]
  {
    SlotsDropped(r.mem, r.FrameBytes(), r.bufferSize, r.boundary, r.ReadPtr(stream), r.Count(stream), n);
  }

  lemma SlotsDropped(mem: seq<Byte>, bytes: nat, size: nat, boundary: nat, p: nat, count: nat, n: nat)
    requires Geometry(size, boundary) && p < boundary && n <= count && n <= size
    requires 0 <= CommitPtr(boundary, p, n)
    ensures Slots(mem, bytes, size, CommitPtr(boundary, p, n), count - n) == Slots(mem, bytes, size, p, count)[n..]
  {
    var p' := CommitPtr(boundary, p, n);
    forall k | 0 <= k < count - n
      ensures Slots(mem, bytes, size, p', count - n)[k] == Slots(mem, bytes, size, p, count)[n..][k]
    {
      AdvancedSlot(boundary, size, p, n, k);
      assert p + n + k == p + (n + k);
    }
  }

  lemma AvailBounds(r: Ring, stream: Stream)
    requires r.Placed()
    ensures 0 <= r.Avail(stream) < r.boundary
  {
    if stream.Playback? {
      var j := PlaybackAvailValue(r.bufferSize, r.boundary, r.hwPtr, r.applPtr);
    } else {
      var j := CaptureAvailValue(r.boundary, r.hwPtr, r.applPtr);
    }
  }

  /** The frames of a block are its bytes, `bytes` at a time and in order. */
  lemma {:induction false} FramesOfBlock(block: seq<Byte>, bytes: nat, n: nat, k: nat, j: nat)
    requires |block| == n * bytes && k < n && j < bytes
    ensures 0 <= k * bytes && k * bytes + bytes <= |block|
    ensures |Frames(block, bytes, n)| == n && |Frames(block, bytes, n)[k]| == bytes
    ensures Frames(block, bytes, n)[k][j] == block[k * bytes + j]
  {
    BlockFits(bytes, k, n);
  }

  /** How many frames wait is how far the writer's pointer is ahead of the reader's, and the k-th of
      them lies in the slot k places on from the reader's. */
  lemma {:induction false} PendingFrames(r: Ring, stream: Stream, k: nat)
    requires r.Valid(stream)
    ensures |r.Pending(stream)| == (r.WritePtr(stream) - r.ReadPtr(stream)) % r.boundary == r.Count(stream)
    ensures k < |r.Pending(stream)| ==>
      var slot := (r.ReadPtr(stream) + k) % r.bufferSize;
      && 0 <= slot * r.FrameBytes() && slot * r.FrameBytes() + r.FrameBytes() <= |r.mem|
      && r.Pending(stream)[k] == r.mem[slot * r.FrameBytes()..slot * r.FrameBytes() + r.FrameBytes()]
  {
    CountIs(r, stream);
    WriterSlot(r, stream);
    var bytes, p, n := r.FrameBytes(), r.ReadPtr(stream), r.Count(stream);
    assert r.Pending(stream) == Slots(r.mem, bytes, r.bufferSize, p, n);
    assert |r.mem| == r.bufferSize * bytes && 0 < r.bufferSize;
    hide *;
    SlotsCount(r.mem, bytes, r.bufferSize, p, n);
    if k < n {
      SlotFrame(r.mem, bytes, r.bufferSize, p, n, k);
    }
  }

  lemma {:induction false} SlotsCount(mem: seq<Byte>, bytes: nat, size: nat, p: nat, count: nat)
    requires 0 < size
    ensures |Slots(mem, bytes, size, p, count)| == count
  {
  }

  lemma {:induction false} SlotFrame(mem: seq<Byte>, bytes: nat, size: nat, p: nat, count: nat, k: nat)
    requires 0 < size && |mem| == size * bytes && k < count
    ensures |Slots(mem, bytes, size, p, count)| == count
    ensures var slot := (p + k) % size;
            && 0 <= slot * bytes && slot * bytes + bytes <= |mem|
            && Slots(mem, bytes, size, p, count)[k] == mem[slot * bytes..slot * bytes + bytes]
  {
    var slot: nat := (p + k) % size;
    BlockFits(bytes, slot, size);
    assert Slots(mem, bytes, size, p, count)[k] == FrameAt(mem, bytes, slot);
    assert FrameAt(mem, bytes, slot) == mem[slot * bytes..slot * bytes + bytes];
  }

  lemma {:induction false} CountIs(r: Ring, stream: Stream)
    requires r.Valid(stream)
    ensures r.Count(stream) == (r.WritePtr(stream) - r.ReadPtr(stream)) % r.boundary
  {
    var d := r.WritePtr(stream) - r.ReadPtr(stream);
    if stream.Playback? {
      var j := PlaybackAvailValue(r.bufferSize, r.boundary, r.hwPtr, r.applPtr);
      assert d == r.Count(stream) + j * r.boundary;
      WriterSlot(r, stream);
      ModUnique(d, r.Count(stream), j, r.boundary);
    } else {
      var j := CaptureAvailValue(r.boundary, r.hwPtr, r.applPtr);
      assert d == r.Count(stream) + (-j) * r.boundary;
      ModUnique(d, r.Count(stream), -j, r.boundary);
    }
  }

  /** What a begin grants fits the mapped buffer, after an xrun too: what is asked for, as far as
      there is room and the ring does not end. Capping the room at a buffer changes nothing. */
  lemma {:induction false} GrantFits(r: Ring, stream: Stream, asked: nat)
    requires r.Placed()
    ensures 0 <= r.Avail(stream) < r.boundary
    ensures var offset := BeginOffset(r.bufferSize, r.applPtr);
            var f := BeginFrames(r.bufferSize, r.applPtr, r.Avail(stream), asked);
            && f == Min(asked, Min(r.Avail(stream), r.bufferSize - offset))
            && offset + f <= r.bufferSize
            && AreaAddr(r.frameBits, offset) == offset * r.FrameBytes()
            && FramesToBytes(r.frameBits, f) == f * r.FrameBytes() <= FramesToBytes(r.frameBits, asked)
            && AreaAddr(r.frameBits, offset) + FramesToBytes(r.frameBits, f) <= |r.mem|
  {
    AvailBounds(r, stream);
    hide PlaybackAvail, CaptureAvail;
    var offset := BeginOffset(r.bufferSize, r.applPtr);
    var f := BeginFrames(r.bufferSize, r.applPtr, r.Avail(stream), asked);
    RangeFits(r.frameBits, r.bufferSize, offset, f, asked);
  }

  lemma RangeFits(frameBits: nat, bufferSize: nat, offset: nat, f: nat, asked: nat)
    requires 0 < frameBits && frameBits % 8 == 0 && frameBits * bufferSize <= UINT_RANGE
    requires offset < bufferSize && offset + f <= bufferSize && f <= asked
    ensures AreaAddr(frameBits, offset) == offset * (frameBits / 8)
    ensures FramesToBytes(frameBits, f) == f * (frameBits / 8) <= FramesToBytes(frameBits, asked)
    ensures AreaAddr(frameBits, offset) + FramesToBytes(frameBits, f) <= bufferSize * (frameBits / 8)
  {
    hide *;
    var bytes := frameBits / 8;
    AreaAddrFacts(frameBits, bufferSize, offset);
    FrameBytesFacts(frameBits, f);
    FrameBytesFacts(frameBits, asked);
    MulMono(f, asked, bytes);
    MulMono(offset + f, bufferSize, bytes);
    assert (offset + f) * bytes == offset * bytes + f * bytes;
  }

  /** Interleaved write: begin, copy, commit. Returns the frames accepted. */
  function WriteI(r: Ring, buffer: seq<Byte>, asked: nat): (Ring, nat)
    requires r.Valid(Playback) && |buffer| >= FramesToBytes(r.frameBits, asked)
  {
    GrantFits(r, Playback, asked);
    var offset := BeginOffset(r.bufferSize, r.applPtr);
    var f := BeginFrames(r.bufferSize, r.applPtr, r.Avail(Playback), asked);
    var mem := Splice(r.mem, AreaAddr(r.frameBits, offset), buffer[..FramesToBytes(r.frameBits, f)]);
    (r.(mem := mem, applPtr := CommitPtr(r.boundary, r.applPtr, f)), f)
  }

  /** Interleaved read: begin, copy, commit. Returns the bytes delivered and their frame count. */
  function ReadI(r: Ring, asked: nat): (Ring, seq<Byte>, nat)
    requires r.Valid(Capture)
  {
    GrantFits(r, Capture, asked);
    var offset := BeginOffset(r.bufferSize, r.applPtr);
    var f := BeginFrames(r.bufferSize, r.applPtr, r.Avail(Capture), asked);
    var at := AreaAddr(r.frameBits, offset);
    (r.(applPtr := CommitPtr(r.boundary, r.applPtr, f)), r.mem[at..at + FramesToBytes(r.frameBits, f)], f)
  }

  /** The playback hardware plays one committed frame. */
  function HwConsume(r: Ring): (Ring, Frame)
    requires r.Valid(Playback) && r.Count(Playback) > 0
  {
    (r.(hwPtr := CommitPtr(r.boundary, r.hwPtr, 1)), FrameAt(r.mem, r.FrameBytes(), r.hwPtr % r.bufferSize))
  }

  /** The capture hardware delivers one frame into free space. */
  function HwProduce(r: Ring, frame: Frame): Ring
    requires r.Valid(Capture) && r.Count(Capture) < r.bufferSize && |frame| == r.FrameBytes()
  {
    var slot := r.hwPtr % r.bufferSize;
    BlockFits(r.FrameBytes(), slot, r.bufferSize);
    r.(mem := Splice(r.mem, slot * r.FrameBytes(), frame), hwPtr := CommitPtr(r.boundary, r.hwPtr, 1))
  }

  /** A write appends what it accepts to the frames that wait; none of those changes. It takes
      as much as was asked, as there is room for, and as lies before the end of the ring. */
  lemma {:induction false} WriteStep(r: Ring, buffer: seq<Byte>, asked: nat)
    requires r.Valid(Playback) && |buffer| >= FramesToBytes(r.frameBits, asked)
    ensures var (r', n) := WriteI(r, buffer, asked);
            && r'.Valid(Playback) && r'.frameBits == r.frameBits && r'.hwPtr == r.hwPtr
            && n == Min(asked, Min(r.bufferSize - |r.Pending(Playback)|, r.bufferSize - r.applPtr % r.bufferSize))
            && r'.Pending(Playback) == r.Pending(Playback) + Frames(buffer, r.FrameBytes(), n)
  {
    GrantFits(r, Playback, asked);
    var (r', n) := WriteI(r, buffer, asked);
    PlaybackApplAdvance(r.bufferSize, r.boundary, r.hwPtr, r.applPtr, n);
    var data := buffer[..FramesToBytes(r.frameBits, n)];
    Enqueued(r, Playback, n, data, r');
    FramesOfPrefix(buffer, r.FrameBytes(), n);
  }

  lemma FramesOfPrefix(block: seq<Byte>, bytes: nat, n: nat)
    requires n * bytes <= |block|
    ensures Frames(block[..n * bytes], bytes, n) == Frames(block, bytes, n)
  {
    forall k | 0 <= k < n
      ensures FrameAt(block[..n * bytes], bytes, k) == FrameAt(block, bytes, k)
    {
      BlockFits(bytes, k, n);
    }
  }

  lemma {:induction false} ConsumeStep(r: Ring)
    requires r.Valid(Playback) && r.Count(Playback) > 0
    ensures var (r', frame) := HwConsume(r);
            && r'.Valid(Playback) && r'.frameBits == r.frameBits
            && r.Pending(Playback) == [frame] + r'.Pending(Playback)
  {
    var (r', frame) := HwConsume(r);
    PlaybackHwAdvance(r.bufferSize, r.boundary, r.hwPtr, r.applPtr, 1);
    Dequeued(r, Playback, 1, r');
  }

  /** A read delivers the oldest waiting frames, in order, and leaves the others waiting. */
  lemma {:induction false} ReadStep(r: Ring, asked: nat)
    requires r.Valid(Capture)
    ensures var (r', block, n) := ReadI(r, asked);
            && r'.Valid(Capture) && r'.frameBits == r.frameBits
            && n == Min(asked, Min(|r.Pending(Capture)|, r.bufferSize - r.applPtr % r.bufferSize))
            && |block| == n * r.FrameBytes()
            && r.Pending(Capture) == Frames(block, r.FrameBytes(), n) + r'.Pending(Capture)
  {
    GrantFits(r, Capture, asked);
    var (r', block, n) := ReadI(r, asked);
    CaptureApplAdvance(r.boundary, r.hwPtr, r.applPtr, n);
    Dequeued(r, Capture, n, r');
    forall k | 0 <= k < n
      ensures Frames(block, r.FrameBytes(), n)[k] == r.Pending(Capture)[k]
    {
      FrameOfSlice(r.mem, r.FrameBytes(), r.bufferSize, r.applPtr % r.bufferSize, n, k);
      SlotPlus(r.applPtr, k, r.bufferSize);
    }
  }

  lemma FrameOfSlice(mem: seq<Byte>, bytes: nat, slots: nat, offset: nat, n: nat, k: nat)
    requires |mem| == slots * bytes && offset + n <= slots && k < n
    requires offset * bytes + n * bytes <= |mem|
    ensures FrameAt(mem[offset * bytes..offset * bytes + n * bytes], bytes, k) == FrameAt(mem, bytes, offset + k)
  {
    BlockFits(bytes, k, n);
    assert (offset + k) * bytes == offset * bytes + k * bytes;
    SliceOfSlice(mem, offset * bytes, n * bytes, k * bytes, bytes);
  }

  lemma {:induction false} SliceOfSlice(mem: seq<Byte>, at: nat, len: nat, from: nat, count: nat)
    requires at + len <= |mem| && from + count <= len
    ensures mem[at..at + len][from..from + count] == mem[at + from..at + from + count]
  {
    var l, r := mem[at..at + len][from..from + count], mem[at + from..at + from + count];
    forall k | 0 <= k < count
      ensures l[k] == r[k]
    {
      assert l[k] == mem[at..at + len][from + k];
    }
    assert l == r;
  }

  lemma {:induction false} ProduceStep(r: Ring, frame: Frame)
    requires r.Valid(Capture) && r.Count(Capture) < r.bufferSize && |frame| == r.FrameBytes()
    ensures var r' := HwProduce(r, frame);
            && r'.Valid(Capture) && r'.frameBits == r.frameBits
            && r'.Pending(Capture) == r.Pending(Capture) + [frame]
  {
    var r' := HwProduce(r, frame);
    CaptureHwAdvance(r.boundary, r.hwPtr, r.applPtr, 1);
    BlockFits(r.FrameBytes(), r.hwPtr % r.bufferSize, r.bufferSize);
    Enqueued(r, Capture, 1, frame, r');
    assert FrameAt(frame, r.FrameBytes(), 0) == frame;
  }

  // ---------------------------------------------------------------- runs

  datatype PlaybackStep = Write(buffer: seq<Byte>, asked: nat) | Consume

  /** Writes bring enough bytes; the hardware consumes committed frames only. */
  ghost predicate PlaybackLegal(r: Ring, steps: seq<PlaybackStep>)
    requires r.Valid(Playback)
    decreases |steps|
  {
    if steps == [] then true
    else
      match steps[0]
      case Write(buffer, asked) =>
        |buffer| >= FramesToBytes(r.frameBits, asked) &&
        (WriteStep(r, buffer, asked); PlaybackLegal(WriteI(r, buffer, asked).0, steps[1..]))
      case Consume =>
        r.Count(Playback) > 0 &&
        (ConsumeStep(r); PlaybackLegal(HwConsume(r).0, steps[1..]))
  }

  /** The ring after a run, the frames accepted from the application and the frames played. */
  ghost function PlaybackRun(r: Ring, steps: seq<PlaybackStep>): (Ring, seq<Frame>, seq<Frame>)
    requires r.Valid(Playback) && PlaybackLegal(r, steps)
    decreases |steps|
  {
    if steps == [] then (r, [], [])
    else
      match steps[0]
      case Write(buffer, asked) =>
        WriteStep(r, buffer, asked);
        var (r1, n) := WriteI(r, buffer, asked);
        var (r', accepted, played) := PlaybackRun(r1, steps[1..]);
        (r', Frames(buffer, r.FrameBytes(), n) + accepted, played)
      case Consume =>
        ConsumeStep(r);
        var (r1, frame) := HwConsume(r);
        var (r', accepted, played) := PlaybackRun(r1, steps[1..]);
        (r', accepted, [frame] + played)
  }

  lemma WriterConserves<T>(waiting: seq<T>, added: seq<T>, input: seq<T>, output: seq<T>, rest: seq<T>)
    requires (waiting + added) + input == output + rest
    ensures waiting + (added + input) == output + rest
  {
    assert waiting + (added + input) == (waiting + added) + input;
  }

  lemma ReaderConserves<T>(taken: seq<T>, left: seq<T>, input: seq<T>, output: seq<T>, rest: seq<T>)
    requires left + input == output + rest
    ensures (taken + left) + input == (taken + output) + rest
  {
    assert (taken + left) + input == taken + (left + input);
    assert (taken + output) + rest == taken + (output + rest);
  }

  /** Conservation over every run: the frames that waited and the frames accepted are, in
      order, the frames played and the frames that still wait. */
  lemma {:induction false} PlaybackConservation(r: Ring, steps: seq<PlaybackStep>)
    requires r.Valid(Playback) && PlaybackLegal(r, steps)
    ensures var (r', accepted, played) := PlaybackRun(r, steps);
            && r'.Valid(Playback) && r'.bufferSize == r.bufferSize
            && r.Pending(Playback) + accepted == played + r'.Pending(Playback)
    decreases |steps|
  {
    if steps != [] {
      match steps[0] {
        case Write(buffer, asked) =>
          WriteStep(r, buffer, asked);
          var (r1, n) := WriteI(r, buffer, asked);
          PlaybackConservation(r1, steps[1..]);
          var (r', accepted, played) := PlaybackRun(r1, steps[1..]);
          var added := Frames(buffer, r.FrameBytes(), n);
          WriterConserves(r.Pending(Playback), added, accepted, played, r'.Pending(Playback));
        case Consume =>
          ConsumeStep(r);
          var (r1, frame) := HwConsume(r);
          PlaybackConservation(r1, steps[1..]);
          var (r', accepted, played) := PlaybackRun(r1, steps[1..]);
          ReaderConserves([frame], r1.Pending(Playback), accepted, played, r'.Pending(Playback));
      }
    } else {
      assert r.Pending(Playback) + [] == [] + r.Pending(Playback);
    }
  }

  /** From an empty ring, at any pointer position, what the hardware plays is a prefix of what
      the application wrote, at most one buffer behind, through every wrap. */
  lemma {:induction false} PlaybackFifo(r: Ring, steps: seq<PlaybackStep>)
    requires r.Valid(Playback) && r.Count(Playback) == 0 && PlaybackLegal(r, steps)
    ensures var (r', accepted, played) := PlaybackRun(r, steps);
            played <= accepted && |accepted| - |played| == r'.Count(Playback) <= r.bufferSize
  {
    PlaybackConservation(r, steps);
    var (r', accepted, played) := PlaybackRun(r, steps);
    assert r.Pending(Playback) + accepted == accepted;
    assert (played + r'.Pending(Playback))[..|played|] == played;
    WriterSlot(r', Playback);
  }

  datatype CaptureStep = Read(asked: nat) | Produce(frame: Frame)

  /** The hardware delivers whole frames, and only into free space. */
  ghost predicate CaptureLegal(r: Ring, steps: seq<CaptureStep>)
    requires r.Valid(Capture)
    decreases |steps|
  {
    if steps == [] then true
    else
      match steps[0]
      case Read(asked) => ReadStep(r, asked); CaptureLegal(ReadI(r, asked).0, steps[1..])
      case Produce(frame) =>
        r.Count(Capture) < r.bufferSize && |frame| == r.FrameBytes() &&
        (ProduceStep(r, frame); CaptureLegal(HwProduce(r, frame), steps[1..]))
  }

  /** The ring after a run, the frames captured and the frames the application read. */
  ghost function CaptureRun(r: Ring, steps: seq<CaptureStep>): (Ring, seq<Frame>, seq<Frame>)
    requires r.Valid(Capture) && CaptureLegal(r, steps)
    decreases |steps|
  {
    if steps == [] then (r, [], [])
    else
      match steps[0]
      case Read(asked) =>
        ReadStep(r, asked);
        var (r1, block, n) := ReadI(r, asked);
        var (r', captured, read) := CaptureRun(r1, steps[1..]);
        (r', captured, Frames(block, r.FrameBytes(), n) + read)
      case Produce(frame) =>
        ProduceStep(r, frame);
        var (r', captured, read) := CaptureRun(HwProduce(r, frame), steps[1..]);
        (r', [frame] + captured, read)
  }

  lemma {:induction false} CaptureConservation(r: Ring, steps: seq<CaptureStep>)
    requires r.Valid(Capture) && CaptureLegal(r, steps)
    ensures var (r', captured, read) := CaptureRun(r, steps);
            && r'.Valid(Capture) && r'.bufferSize == r.bufferSize
            && r.Pending(Capture) + captured == read + r'.Pending(Capture)
    decreases |steps|
  {
    if steps != [] {
      match steps[0] {
        case Read(asked) =>
          ReadStep(r, asked);
          var (r1, block, n) := ReadI(r, asked);
          CaptureConservation(r1, steps[1..]);
          var (r', captured, read) := CaptureRun(r1, steps[1..]);
          ReaderConserves(Frames(block, r.FrameBytes(), n), r1.Pending(Capture), captured, read, r'.Pending(Capture));
        case Produce(frame) =>
          ProduceStep(r, frame);
          var r1 := HwProduce(r, frame);
          CaptureConservation(r1, steps[1..]);
          var (r', captured, read) := CaptureRun(r1, steps[1..]);
          WriterConserves(r.Pending(Capture), [frame], captured, read, r'.Pending(Capture));
      }
    } else {
      assert r.Pending(Capture) + [] == [] + r.Pending(Capture);
    }
  }

  /** From an empty ring, what the application reads is a prefix of what the hardware captured. */
  lemma {:induction false} CaptureFifo(r: Ring, steps: seq<CaptureStep>)
    requires r.Valid(Capture) && r.Count(Capture) == 0 && CaptureLegal(r, steps)
    ensures var (r', captured, read) := CaptureRun(r, steps);
            read <= captured && |captured| - |read| == r'.Count(Capture) <= r.bufferSize
  {
    CaptureConservation(r, steps);
    var (r', captured, read) := CaptureRun(r, steps);
    assert r.Pending(Capture) + captured == captured;
    assert (read + r'.Pending(Capture))[..|read|] == read;
    WriterSlot(r', Capture);
  }
}
