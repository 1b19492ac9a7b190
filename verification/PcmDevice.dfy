/** The PCM handle: pointers updated in place and a mapped buffer, proved against the
    ring of `RingFifo`. */
module PcmDevice {
  import opened Arith
  import opened RingPointers
  import opened RingFifo

  class Pcm {
    const stream: Stream
    const bufferSize: nat
    const boundary: nat
    const frameBits: nat
    var hwPtr: nat
    var applPtr: nat
    const mem: array<Byte>

    ghost function View(): Ring
      reads this, mem
    {
      Ring(bufferSize, boundary, frameBits, hwPtr, applPtr, mem[..])
    }

    /** An open stream whose wrap point is the one computed for its software parameters. */
    constructor (stream: Stream, bufferSize: nat, boundary: nat, frameBits: nat, mem: array<Byte>)
      requires Geometry(bufferSize, boundary) && bufferSize < boundary
      requires 0 < frameBits && frameBits % 8 == 0 && frameBits * bufferSize <= UINT_RANGE
      requires mem.Length == bufferSize * (frameBits / 8)
      ensures this.stream == stream && this.mem == mem
      ensures View() == Ring(bufferSize, boundary, frameBits, 0, 0, mem[..])
      ensures View().Valid(stream) && View().Count(stream) == 0
    {
      this.stream, this.bufferSize, this.boundary, this.frameBits := stream, bufferSize, boundary, frameBits;
      this.mem, hwPtr, applPtr := mem, 0, 0;
      new;
      if stream.Playback? {
        PlaybackAvailIs(bufferSize, boundary, 0, 0, bufferSize, 0);
      } else {
        CaptureAvailIs(boundary, 0, 0, 0, 0);
      }
    }

    method MmapAvail() returns (avail: int)
      ensures avail == View().Avail(stream)
    {
      if stream.Playback? {
        avail := PlaybackAvail(bufferSize, boundary, hwPtr, applPtr);
      } else {
        avail := CaptureAvail(boundary, hwPtr, applPtr);
      }
    }

    method MmapBegin(asked: nat) returns (offset: nat, frames: nat)
      requires View().Placed()
      ensures offset == applPtr % bufferSize
      ensures 0 <= View().Avail(stream)
      ensures frames == BeginFrames(bufferSize, applPtr, View().Avail(stream), asked)
      ensures frames == Min(asked, Min(View().Avail(stream), bufferSize - offset))
    {
      AvailBounds(View(), stream);
      offset := applPtr % bufferSize;
      var avail := MmapAvail();
      if avail > bufferSize {
        avail := bufferSize;
      }
      var cont := bufferSize - offset;
      frames := asked;
      if frames > avail {
        frames := avail;
      }
      if frames > cont {
        frames := cont;
      }
    }

    method MmapCommit(offset: nat, frames: nat) returns (committed: nat)
      requires applPtr < boundary <= LONG_MAX && frames <= bufferSize <= boundary
      modifies this`applPtr
      ensures committed == frames
      ensures 0 <= CommitPtr(boundary, old(applPtr), frames)
      ensures View() == old(View()).(applPtr := CommitPtr(boundary, old(applPtr), frames))
    {
      CommitValue(boundary, applPtr, frames);
      var p := ToULong(applPtr + frames);
      if p >= boundary {
        p := p - boundary;
      }
      applPtr := p;
      committed := frames;
    }

    method MmapWriteI(buffer: array<Byte>, size: nat) returns (n: nat)
      requires stream.Playback? && View().Valid(Playback)
      requires buffer != mem && buffer.Length >= FramesToBytes(frameBits, size)
      modifies this`applPtr, mem
      ensures (View(), n) == WriteI(old(View()), old(buffer[..]), size)
      ensures View().Valid(Playback)
      ensures View().Pending(Playback)
           == old(View().Pending(Playback)) + Frames(old(buffer[..]), frameBits / 8, n)
    {
      ghost var r := View();
      WriteStep(r, buffer[..], size);
      GrantFits(r, Playback, size);
      var offset, f := MmapBegin(size);
      CopyBytes(mem, AreaAddr(frameBits, offset), buffer, 0, FramesToBytes(frameBits, f));
      assert buffer[..][0..FramesToBytes(frameBits, f)] == buffer[..][..FramesToBytes(frameBits, f)];
      n := MmapCommit(offset, f);
    }

    method MmapReadI(buffer: array<Byte>, size: nat) returns (n: nat)
      requires stream.Capture? && View().Valid(Capture)
      requires buffer != mem && buffer.Length >= FramesToBytes(frameBits, size)
      modifies this`applPtr, buffer
      ensures var (r', block, k) := ReadI(old(View()), size);
              && View() == r' && n == k && |block| <= buffer.Length
              && buffer[..] == Splice(old(buffer[..]), 0, block)
      ensures View().Valid(Capture)
      ensures old(View().Pending(Capture)) == Frames(buffer[..], frameBits / 8, n) + View().Pending(Capture)
    {
      ghost var r := View();
      ReadStep(r, size);
      GrantFits(r, Capture, size);
      var offset, f := MmapBegin(size);
      var bytes := FramesToBytes(frameBits, f);
      CopyBytes(buffer, 0, mem, AreaAddr(frameBits, offset), bytes);
      FramesOfPrefix(buffer[..], frameBits / 8, f);
      assert buffer[..bytes] == ReadI(r, size).1;
      n := MmapCommit(offset, f);
    }
  }

  /** memcpy between two distinct buffers. */
  method CopyBytes(dst: array<Byte>, to: nat, src: array<Byte>, from: nat, count: nat)
    requires dst != src && to + count <= dst.Length && from + count <= src.Length
    modifies dst
    ensures dst[..] == Splice(old(dst[..]), to, src[..][from..from + count])
  {
    forall k | 0 <= k < count {
      dst[to + k] := src[from + k];
    }
    assert dst[..] == Splice(old(dst[..]), to, src[..][from..from + count]);
  }
}
