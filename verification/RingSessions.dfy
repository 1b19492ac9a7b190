/** The ring while the application takes its time: between a begin and the commits that answer it
    the hardware goes on, the application copies when and where it likes inside what it was
    granted, and it may commit less, or in parts. */
module RingSessions {
  import opened Arith
  import opened RingPointers
  import opened RingFifo

  /** A ring and what the application holds of it: the frames granted and not yet committed, from
      the application pointer on, as the application last left or found them. */
  datatype Session = Session(r: Ring, held: seq<Frame>) {
    function Offset(): nat
      requires r.bufferSize > 0
    {
      BeginOffset(r.bufferSize, r.applPtr)
    }

    /** What is held lies in the ring at the application pointer, before its end. */
    ghost predicate Holds() {
      && 0 < r.bufferSize && Offset() + |held| <= r.bufferSize
      && held == Slots(r.mem, r.FrameBytes(), r.bufferSize, r.applPtr, |held|)
    }

    /** On playback what is held is free; on capture it is the oldest part of what waits. */
    ghost predicate Valid(stream: Stream) { r.Valid(stream) && Holds() && |held| <= r.Avail(stream) }
  }

  // ---------------------------------------------------------------- slots

  lemma {:induction false} SlotsPrefix(mem: seq<Byte>, bytes: nat, size: nat, p: nat, count: nat, n: nat)
    requires 0 < size && n <= count
    ensures Slots(mem, bytes, size, p, count)[..n] == Slots(mem, bytes, size, p, n)
  {
  }

  /** A frame of a stretch that does not reach the ring's end. */
  lemma {:induction false} StretchFrame(mem: seq<Byte>, bytes: nat, size: nat, p: nat, count: nat, k: nat)
    requires 0 < size && k < count && p % size + k < size
    ensures |Slots(mem, bytes, size, p, count)| == count
    ensures Slots(mem, bytes, size, p, count)[k] == FrameAt(mem, bytes, p % size + k)
  {
    SlotPlus(p, k, size);
  }

  /** Frames written inside a stretch that does not reach the ring's end replace those of the stretch. */
  lemma {:induction false} StretchWritten(mem: seq<Byte>, bytes: nat, size: nat, p: nat, granted: nat, at: nat,
                                          n: nat, block: seq<Byte>)
    requires 0 < size && p % size + granted <= size && at + n <= granted
    requires |mem| == size * bytes && |block| == n * bytes && (p % size + at) * bytes + |block| <= |mem|
    ensures |Slots(mem, bytes, size, p, granted)| == granted
    ensures var held := Slots(mem, bytes, size, p, granted);
            Slots(Splice(mem, (p % size + at) * bytes, block), bytes, size, p, granted)
              == held[..at] + Frames(block, bytes, n) + held[at + n..]
  {
    var offset := p % size;
    var mem' := Splice(mem, (offset + at) * bytes, block);
    var held, held' := Slots(mem, bytes, size, p, granted), Slots(mem', bytes, size, p, granted);
    assert |held| == |held'| == granted;
    forall k | 0 <= k < granted
      ensures held'[k] == if at <= k < at + n then FrameAt(block, bytes, k - at) else held[k]
    {
      WrittenFrame(mem, bytes, size, p, granted, at, n, block, (offset + at) * bytes, k);
    }
    FramesAre(block, bytes, n);
    hide *;
    assert held' == held[..at] + Frames(block, bytes, n) + held[at + n..];
  }

  lemma {:induction false} FramesAre(block: seq<Byte>, bytes: nat, n: nat)
    ensures |Frames(block, bytes, n)| == n
    ensures forall k :: 0 <= k < n ==> Frames(block, bytes, n)[k] == FrameAt(block, bytes, k)
  {
  }

  lemma {:induction false} WrittenFrame(mem: seq<Byte>, bytes: nat, size: nat, p: nat, granted: nat, at: nat, n: nat,
                                        block: seq<Byte>, place: nat, k: nat)
    requires 0 < size && p % size + granted <= size && at + n <= granted && k < granted
    requires |mem| == size * bytes && |block| == n * bytes
    requires place == (p % size + at) * bytes && place + |block| <= |mem|
    ensures |Slots(mem, bytes, size, p, granted)| == granted
    ensures |Slots(Splice(mem, place, block), bytes, size, p, granted)| == granted
    ensures Slots(Splice(mem, place, block), bytes, size, p, granted)[k]
         == if at <= k < at + n then FrameAt(block, bytes, k - at) else Slots(mem, bytes, size, p, granted)[k]
  {
    hide *;
    StretchFrame(mem, bytes, size, p, granted, k);
    StretchFrame(Splice(mem, place, block), bytes, size, p, granted, k);
    SpliceFrame(mem, bytes, size, p % size + at, n, block, p % size + k);
  }

  /** Two pointers to one slot see the same stretch. */
  lemma {:induction false} SameStretch(mem: seq<Byte>, bytes: nat, size: nat, p: nat, q: nat, n: nat)
    requires 0 < size && p % size == q % size && p % size + n <= size
    ensures Slots(mem, bytes, size, p, n) == Slots(mem, bytes, size, q, n)
  {
    var a, b := Slots(mem, bytes, size, p, n), Slots(mem, bytes, size, q, n);
    assert |a| == |b| == n;
    hide *;
    forall k | 0 <= k < n
      ensures a[k] == b[k]
    {
      StretchFrame(mem, bytes, size, p, n, k);
      StretchFrame(mem, bytes, size, q, n, k);
    }
    assert a == b;
  }

  lemma {:induction false} SlotsSplit(mem: seq<Byte>, bytes: nat, size: nat, p: nat, count: nat, q: nat, n: nat)
    requires 0 < size && (p + count) % size == q % size && q % size + n <= size
    ensures Slots(mem, bytes, size, p, count + n) == Slots(mem, bytes, size, p, count) + Slots(mem, bytes, size, q, n)
  {
    SameStretch(mem, bytes, size, p + count, q, n);
    SlotsTwo(mem, bytes, size, p, count, n);
  }

  lemma {:induction false} SlotsTwo(mem: seq<Byte>, bytes: nat, size: nat, p: nat, count: nat, n: nat)
    requires 0 < size
    ensures Slots(mem, bytes, size, p, count + n)
         == Slots(mem, bytes, size, p, count) + Slots(mem, bytes, size, p + count, n)
  {
    var all, rest := Slots(mem, bytes, size, p, count + n), Slots(mem, bytes, size, p + count, n);
    forall k | 0 <= k < n
      ensures all[count + k] == rest[k]
    {
      assert p + (count + k) == p + count + k;
    }
  }

  /** What is left of a stretch after its first frames, seen from the pointer moved past them. */
  lemma {:induction false} StretchRest(mem: seq<Byte>, bytes: nat, size: nat, boundary: nat, p: nat, granted: nat,
                                       n: nat)
    requires Geometry(size, boundary) && p < boundary && p % size + granted <= size && n <= granted
    ensures 0 <= CommitPtr(boundary, p, n) < boundary
    ensures CommitPtr(boundary, p, n) % size + (granted - n) <= size
    ensures Slots(mem, bytes, size, CommitPtr(boundary, p, n), granted - n) == Slots(mem, bytes, size, p, granted)[n..]
  {
    CommitValue(boundary, p, n);
    AdvancedSlot(boundary, size, p, n, 0);
    hide *;
    MovedOffset(CommitPtr(boundary, p, n), p, n, granted, size);
    SlotsDropped(mem, bytes, size, boundary, p, granted, n);
  }

  lemma {:induction false} MovedOffset(q: nat, p: nat, n: nat, granted: nat, size: nat)
    requires 0 < size && q % size == (p + n) % size && p % size + granted <= size && n <= granted
    ensures q % size + (granted - n) <= size
  {
    if n < granted {
      SlotPlus(p, n, size);
    }
  }

  // ---------------------------------------------------------------- steps of the application

  /** snd_pcm_mmap_begin; what was held before is given up. */
  function Begin(s: Session, stream: Stream, asked: nat): Session
    requires s.r.Valid(stream)
  {
    AvailBounds(s.r, stream);
    var f := BeginFrames(s.r.bufferSize, s.r.applPtr, s.r.Avail(stream), asked);
    Session(s.r, Slots(s.r.mem, s.r.FrameBytes(), s.r.bufferSize, s.r.applPtr, f))
  }

  lemma {:induction false} BeginStep(s: Session, stream: Stream, asked: nat)
    requires s.Valid(stream)
    ensures Begin(s, stream, asked).Valid(stream)
    ensures |Begin(s, stream, asked).held| == Min(asked, Min(s.r.Avail(stream), s.r.bufferSize - s.Offset()))
  {
    GrantFits(s.r, stream, asked);
  }

  /** Where held frame `at` is, and that n frames from there lie inside the buffer. */
  lemma {:induction false} HeldPlace(s: Session, at: nat, n: nat)
    requires s.r.Placed() && s.Holds() && at + n <= |s.held| && n > 0
    ensures AreaAddr(s.r.frameBits, s.Offset() + at) == (s.Offset() + at) * s.r.FrameBytes()
    ensures (s.Offset() + at) * s.r.FrameBytes() + n * s.r.FrameBytes() <= |s.r.mem|
  {
    RangeFits(s.r.frameBits, s.r.bufferSize, s.Offset() + at, n, n);
    FrameBytesFacts(s.r.frameBits, n);
  }

  /** The application copies n frames to place `at` of what it holds. */
  function Copy(s: Session, at: nat, n: nat, block: seq<Byte>): Session
    requires s.Valid(Playback) && 0 < n && at + n <= |s.held| && |block| == n * s.r.FrameBytes()
  {
    HeldPlace(s, at, n);
    Session(s.r.(mem := Splice(s.r.mem, AreaAddr(s.r.frameBits, s.Offset() + at), block)),
            s.held[..at] + Frames(block, s.r.FrameBytes(), n) + s.held[at + n..])
  }

  /** Copying into what is held changes no frame that waits. */
  lemma {:induction false} CopyStep(s: Session, at: nat, n: nat, block: seq<Byte>)
    requires s.Valid(Playback) && 0 < n && at + n <= |s.held| && |block| == n * s.r.FrameBytes()
    ensures var t := Copy(s, at, n, block);
            t.Valid(Playback) && t.r.Pending(Playback) == s.r.Pending(Playback)
  {
    var r, offset, bytes := s.r, s.Offset(), s.r.FrameBytes();
    var count := r.Count(Playback);
    HeldPlace(s, at, n);
    WriterSlot(r, Playback);
    var mem' := Splice(r.mem, (offset + at) * bytes, block);
    StretchWritten(r.mem, bytes, r.bufferSize, r.applPtr, |s.held|, at, n, block);
    PlaceAfter(r.hwPtr, count, at, offset, r.bufferSize);
    SlotsExtended(r.mem, bytes, r.bufferSize, r.hwPtr, count + at, offset + at, n, block);
    hide Splice, FrameAt, Slots, Frames, PlaybackAvail;
    SlotsPrefix(mem', bytes, r.bufferSize, r.hwPtr, count + at + n, count);
    SlotsPrefix(r.mem, bytes, r.bufferSize, r.hwPtr, count + at, count);
    FirstOfBoth(Slots(r.mem, bytes, r.bufferSize, r.hwPtr, count + at), Frames(block, bytes, n), count);
  }

  lemma {:induction false} FirstOfBoth<T>(a: seq<T>, b: seq<T>, n: nat)
    requires n <= |a|
    ensures (a + b)[..n] == a[..n]
  {
  }

  lemma {:induction false} PlaceAfter(p: nat, count: nat, at: nat, offset: nat, size: nat)
    requires 0 < size && (p + count) % size == offset && offset + at < size
    ensures (p + (count + at)) % size == offset + at
  {
    SlotPlus(p + count, at, size);
    assert p + count + at == p + (count + at);
  }

  /** Reading n held frames at place `at`. */
  function Fetch(s: Session, at: nat, n: nat): seq<Byte>
    requires s.Valid(Capture) && 0 < n && at + n <= |s.held|
  {
    HeldPlace(s, at, n);
    var from := AreaAddr(s.r.frameBits, s.Offset() + at);
    s.r.mem[from..from + n * s.r.FrameBytes()]
  }

  /** What is fetched, whenever, is what was found at the begin. */
  lemma {:induction false} FetchStep(s: Session, at: nat, n: nat)
    requires s.Valid(Capture) && 0 < n && at + n <= |s.held|
    ensures Frames(Fetch(s, at, n), s.r.FrameBytes(), n) == s.held[at..at + n]
  {
    HeldPlace(s, at, n);
    var block := Fetch(s, at, n);
    forall k | 0 <= k < n
      ensures Frames(block, s.r.FrameBytes(), n)[k] == s.held[at + k]
    {
      FrameOfSlice(s.r.mem, s.r.FrameBytes(), s.r.bufferSize, s.Offset() + at, n, k);
      SlotPlus(s.r.applPtr, at + k, s.r.bufferSize);
    }
  }

  /** snd_pcm_mmap_commit of the first k frames held; the others stay held. */
  function Commit(s: Session, k: nat): Session
    requires k <= |s.held| && CommitPtr(s.r.boundary, s.r.applPtr, k) >= 0
  {
    Session(s.r.(applPtr := CommitPtr(s.r.boundary, s.r.applPtr, k)), s.held[k..])
  }

  /** On playback the committed frames are what the application left there, and wait last. */
  lemma {:induction false} PlaybackCommitStep(s: Session, k: nat)
    requires s.Valid(Playback) && k <= |s.held|
    ensures CommitPtr(s.r.boundary, s.r.applPtr, k) >= 0
    ensures var t := Commit(s, k);
            t.Valid(Playback) && t.r.Pending(Playback) == s.r.Pending(Playback) + s.held[..k]
  {
    var r, count, bytes := s.r, s.r.Count(Playback), s.r.FrameBytes();
    WriterSlot(r, Playback);
    StretchRest(r.mem, bytes, r.bufferSize, r.boundary, r.applPtr, |s.held|, k);
    PlaybackApplAdvance(r.bufferSize, r.boundary, r.hwPtr, r.applPtr, k);
    SlotsSplit(r.mem, bytes, r.bufferSize, r.hwPtr, count, r.applPtr, k);
    SlotsPrefix(r.mem, bytes, r.bufferSize, r.applPtr, |s.held|, k);
  }

  /** On capture the committed frames were the oldest that waited, and are as they were found. */
  lemma {:induction false} CaptureCommitStep(s: Session, k: nat)
    requires s.Valid(Capture) && k <= |s.held|
    ensures CommitPtr(s.r.boundary, s.r.applPtr, k) >= 0
    ensures var t := Commit(s, k);
            t.Valid(Capture) && s.r.Pending(Capture) == s.held[..k] + t.r.Pending(Capture)
  {
    var r, bytes := s.r, s.r.FrameBytes();
    StretchRest(r.mem, bytes, r.bufferSize, r.boundary, r.applPtr, |s.held|, k);
    CaptureApplAdvance(r.boundary, r.hwPtr, r.applPtr, k);
    var t := Commit(s, k);
    Dequeued(r, Capture, k, t.r);
    SlotsPrefix(r.mem, bytes, r.bufferSize, r.applPtr, r.Count(Capture), k);
    SlotsPrefix(r.mem, bytes, r.bufferSize, r.applPtr, |s.held|, k);
  }

  // ---------------------------------------------------------------- steps of the hardware

  /** Playing a committed frame leaves what is held alone. */
  lemma {:induction false} ConsumeKeepsHeld(s: Session)
    requires s.Valid(Playback) && s.r.Count(Playback) > 0
    ensures Session(HwConsume(s.r).0, s.held).Valid(Playback)
  {
    ConsumeStep(s.r);
    PlaybackHwAdvance(s.r.bufferSize, s.r.boundary, s.r.hwPtr, s.r.applPtr, 1);
  }

  /** So does delivering a captured frame into free space. */
  lemma {:induction false} ProduceKeepsHeld(s: Session, frame: Frame)
    requires s.Valid(Capture) && s.r.Count(Capture) < s.r.bufferSize && |frame| == s.r.FrameBytes()
    ensures Session(HwProduce(s.r, frame), s.held).Valid(Capture)
  {
    var r, t := s.r, HwProduce(s.r, frame);
    ProduceStep(r, frame);
    CaptureHwAdvance(r.boundary, r.hwPtr, r.applPtr, 1);
    SlotsPrefix(r.mem, r.FrameBytes(), r.bufferSize, r.applPtr, r.Count(Capture), |s.held|);
    SlotsPrefix(t.mem, r.FrameBytes(), r.bufferSize, r.applPtr, r.Count(Capture) + 1, |s.held|);
    FirstOfBoth(r.Pending(Capture), [frame], |s.held|);
  }

  // ---------------------------------------------------------------- playback runs

  datatype PlaybackStep =
    | PBegin(asked: nat)
    | PCopy(at: nat, n: nat, block: seq<Byte>)
    | PCommit(frames: nat)
    | PConsume

  /** The application stays inside what it holds; the hardware plays committed frames only. */
  ghost predicate PlaybackAllowed(s: Session, step: PlaybackStep) {
    match step
    case PBegin(_) => true
    case PCopy(at, n, block) => 0 < n && at + n <= |s.held| && |block| == n * s.r.FrameBytes()
    case PCommit(frames) => frames <= |s.held|
    case PConsume => s.r.Count(Playback) > 0
  }

  /** One step: the session after it, the frames accepted by it, the frames played by it. */
  ghost function PlaybackApply(s: Session, step: PlaybackStep): (Session, seq<Frame>, seq<Frame>)
    requires s.Valid(Playback) && PlaybackAllowed(s, step)
  {
    match step
    case PBegin(asked) => (Begin(s, Playback, asked), [], [])
    case PCopy(at, n, block) => (Copy(s, at, n, block), [], [])
    case PCommit(frames) => PlaybackCommitStep(s, frames); (Commit(s, frames), s.held[..frames], [])
    case PConsume => var (r, frame) := HwConsume(s.r); (Session(r, s.held), [], [frame])
  }

  lemma {:induction false} PlaybackKeeps(s: Session, step: PlaybackStep)
    requires s.Valid(Playback) && PlaybackAllowed(s, step)
    ensures var (t, accepted, played) := PlaybackApply(s, step);
            t.Valid(Playback) && s.r.Pending(Playback) + accepted == played + t.r.Pending(Playback)
  {
    match step
    case PBegin(asked) => BeginStep(s, Playback, asked);
    case PCopy(at, n, block) => CopyStep(s, at, n, block);
    case PCommit(frames) => PlaybackCommitStep(s, frames);
    case PConsume =>
      ConsumeStep(s.r);
      ConsumeKeepsHeld(s);
  }

  ghost predicate PlaybackRunAllowed(s: Session, steps: seq<PlaybackStep>)
    requires s.Valid(Playback)
    decreases |steps|
  {
    steps == [] || (PlaybackAllowed(s, steps[0]) &&
      (PlaybackKeeps(s, steps[0]); PlaybackRunAllowed(PlaybackApply(s, steps[0]).0, steps[1..])))
  }

  ghost function PlaybackRun(s: Session, steps: seq<PlaybackStep>): (Session, seq<Frame>, seq<Frame>)
    requires s.Valid(Playback) && PlaybackRunAllowed(s, steps)
    decreases |steps|
  {
    if steps == [] then (s, [], [])
    else
      PlaybackKeeps(s, steps[0]);
      var (s1, accepted, played) := PlaybackApply(s, steps[0]);
      var (t, accepted', played') := PlaybackRun(s1, steps[1..]);
      (t, accepted + accepted', played + played')
  }

  lemma {:induction false} Chain<T>(w0: seq<T>, in1: seq<T>, out1: seq<T>, w1: seq<T>, in2: seq<T>, out2: seq<T>,
                                    w2: seq<T>)
    requires w0 + in1 == out1 + w1 && w1 + in2 == out2 + w2
    ensures w0 + (in1 + in2) == (out1 + out2) + w2
  {
    assert w0 + (in1 + in2) == (w0 + in1) + in2;
    assert (out1 + w1) + in2 == out1 + (w1 + in2);
    assert out1 + (out2 + w2) == (out1 + out2) + w2;
  }

  /** Conservation, with the hardware moving between any two steps of the application. */
  lemma {:induction false} PlaybackConservation(s: Session, steps: seq<PlaybackStep>)
    requires s.Valid(Playback) && PlaybackRunAllowed(s, steps)
    ensures var (t, accepted, played) := PlaybackRun(s, steps);
            t.Valid(Playback) && s.r.Pending(Playback) + accepted == played + t.r.Pending(Playback)
    decreases |steps|
  {
    if steps != [] {
      PlaybackKeeps(s, steps[0]);
      var (s1, in1, out1) := PlaybackApply(s, steps[0]);
      PlaybackConservation(s1, steps[1..]);
      var (t, in2, out2) := PlaybackRun(s1, steps[1..]);
      Chain(s.r.Pending(Playback), in1, out1, s1.r.Pending(Playback), in2, out2, t.r.Pending(Playback));
    }
  }

  /** From an empty ring what is played is a prefix of what was accepted; the rest waits. */
  lemma {:induction false} PlaybackFifo(s: Session, steps: seq<PlaybackStep>)
    requires s.Valid(Playback) && s.r.Count(Playback) == 0 && PlaybackRunAllowed(s, steps)
    ensures var (t, accepted, played) := PlaybackRun(s, steps);
            played <= accepted && t.r.Valid(Playback) && accepted[|played|..] == t.r.Pending(Playback)
  {
    PlaybackConservation(s, steps);
    var (t, accepted, played) := PlaybackRun(s, steps);
    NothingWaited(s.r.Pending(Playback), accepted, played, t.r.Pending(Playback));
  }

  lemma {:induction false} NothingWaited<T>(w0: seq<T>, input: seq<T>, output: seq<T>, w1: seq<T>)
    requires w0 == [] && w0 + input == output + w1
    ensures output <= input && input[|output|..] == w1
  {
    assert input == output + w1;
  }

  // ---------------------------------------------------------------- capture runs

  datatype CaptureStep = CBegin(asked: nat) | CCommit(frames: nat) | CProduce(frame: Frame)

  ghost predicate CaptureAllowed(s: Session, step: CaptureStep) {
    match step
    case CBegin(_) => true
    case CCommit(frames) => frames <= |s.held|
    case CProduce(frame) => s.r.Count(Capture) < s.r.bufferSize && |frame| == s.r.FrameBytes()
  }

  /** One step: the session after it, the frames captured by it, the frames read by it. Fetching
      changes nothing, and `FetchStep` says what it gives. */
  ghost function CaptureApply(s: Session, step: CaptureStep): (Session, seq<Frame>, seq<Frame>)
    requires s.Valid(Capture) && CaptureAllowed(s, step)
  {
    match step
    case CBegin(asked) => (Begin(s, Capture, asked), [], [])
    case CCommit(frames) => CaptureCommitStep(s, frames); (Commit(s, frames), [], s.held[..frames])
    case CProduce(frame) => (Session(HwProduce(s.r, frame), s.held), [frame], [])
  }

  lemma {:induction false} CaptureKeeps(s: Session, step: CaptureStep)
    requires s.Valid(Capture) && CaptureAllowed(s, step)
    ensures var (t, captured, read) := CaptureApply(s, step);
            t.Valid(Capture) && s.r.Pending(Capture) + captured == read + t.r.Pending(Capture)
  {
    match step
    case CBegin(asked) => BeginStep(s, Capture, asked);
    case CCommit(frames) => CaptureCommitStep(s, frames);
    case CProduce(frame) =>
      ProduceStep(s.r, frame);
      ProduceKeepsHeld(s, frame);
  }

  ghost predicate CaptureRunAllowed(s: Session, steps: seq<CaptureStep>)
    requires s.Valid(Capture)
    decreases |steps|
  {
    steps == [] || (CaptureAllowed(s, steps[0]) &&
      (CaptureKeeps(s, steps[0]); CaptureRunAllowed(CaptureApply(s, steps[0]).0, steps[1..])))
  }

  ghost function CaptureRun(s: Session, steps: seq<CaptureStep>): (Session, seq<Frame>, seq<Frame>)
    requires s.Valid(Capture) && CaptureRunAllowed(s, steps)
    decreases |steps|
  {
    if steps == [] then (s, [], [])
    else
      CaptureKeeps(s, steps[0]);
      var (s1, captured, read) := CaptureApply(s, steps[0]);
      var (t, captured', read') := CaptureRun(s1, steps[1..]);
      (t, captured + captured', read + read')
  }

  lemma {:induction false} CaptureConservation(s: Session, steps: seq<CaptureStep>)
    requires s.Valid(Capture) && CaptureRunAllowed(s, steps)
    ensures var (t, captured, read) := CaptureRun(s, steps);
            t.Valid(Capture) && s.r.Pending(Capture) + captured == read + t.r.Pending(Capture)
    decreases |steps|
  {
    if steps != [] {
      CaptureKeeps(s, steps[0]);
      var (s1, in1, out1) := CaptureApply(s, steps[0]);
      CaptureConservation(s1, steps[1..]);
      var (t, in2, out2) := CaptureRun(s1, steps[1..]);
      Chain(s.r.Pending(Capture), in1, out1, s1.r.Pending(Capture), in2, out2, t.r.Pending(Capture));
    }
  }

  /** From an empty ring what is read is a prefix of what was captured; the rest waits. */
  lemma {:induction false} CaptureFifo(s: Session, steps: seq<CaptureStep>)
    requires s.Valid(Capture) && s.r.Count(Capture) == 0 && CaptureRunAllowed(s, steps)
    ensures var (t, captured, read) := CaptureRun(s, steps);
            read <= captured && t.r.Valid(Capture) && captured[|read|..] == t.r.Pending(Capture)
  {
    CaptureConservation(s, steps);
    var (t, captured, read) := CaptureRun(s, steps);
    NothingWaited(s.r.Pending(Capture), captured, read, t.r.Pending(Capture));
  }

  // ---------------------------------------------------------------- the library's own calls

  /** Bytes for what a begin grants. */
  lemma {:induction false} GrantedBytes(s: Session, stream: Stream, asked: nat)
    requires s.Valid(stream)
    ensures 0 <= |Begin(s, stream, asked).held| * s.r.FrameBytes() <= FramesToBytes(s.r.frameBits, asked)
  {
    GrantFits(s.r, stream, asked);
  }

  /** One copy of all that is held, and one commit of it. */
  ghost function CopyAndCommit(s: Session, block: seq<Byte>): Session
    requires s.Valid(Playback) && |block| == |s.held| * s.r.FrameBytes()
  {
    if |s.held| == 0 then s
    else
      CopyStep(s, 0, |s.held|, block);
      PlaybackCommitStep(Copy(s, 0, |s.held|, block), |s.held|);
      Commit(Copy(s, 0, |s.held|, block), |s.held|)
  }

  /** An interleaved write as a begin, one copy of all that was granted, and one commit of it. */
  ghost function WriteInSteps(s: Session, buffer: seq<Byte>, asked: nat): Session
    requires s.Valid(Playback) && |buffer| >= FramesToBytes(s.r.frameBits, asked)
  {
    BeginStep(s, Playback, asked);
    GrantedBytes(s, Playback, asked);
    var s1 := Begin(s, Playback, asked);
    CopyAndCommit(s1, buffer[..|s1.held| * s1.r.FrameBytes()])
  }

  lemma {:induction false} WriteIsThreeSteps(s: Session, buffer: seq<Byte>, asked: nat)
    requires s.Valid(Playback) && |buffer| >= FramesToBytes(s.r.frameBits, asked)
    ensures WriteI(s.r, buffer, asked).0 == WriteInSteps(s, buffer, asked).r
    ensures WriteI(s.r, buffer, asked).1 == |Begin(s, Playback, asked).held|
  {
    GrantFits(s.r, Playback, asked);
    hide PlaybackAvail, CaptureAvail, FrameAt, Frames;
    if |Begin(s, Playback, asked).held| == 0 {
      assert FramesToBytes(s.r.frameBits, 0) == 0;
      assert Splice(s.r.mem, AreaAddr(s.r.frameBits, s.Offset()), []) == s.r.mem;
    }
  }

  /** An interleaved read as a begin, one fetch of all that was granted, and one commit of it. */
  ghost function ReadInSteps(s: Session, asked: nat): (Session, seq<Byte>)
    requires s.Valid(Capture)
  {
    BeginStep(s, Capture, asked);
    var s1 := Begin(s, Capture, asked);
    var n := |s1.held|;
    if n == 0 then (s1, [])
    else
      CaptureCommitStep(s1, n);
      (Commit(s1, n), Fetch(s1, 0, n))
  }

  lemma {:induction false} ReadIsThreeSteps(s: Session, asked: nat)
    requires s.Valid(Capture)
    ensures ReadI(s.r, asked).0 == ReadInSteps(s, asked).0.r && ReadI(s.r, asked).1 == ReadInSteps(s, asked).1
    ensures ReadI(s.r, asked).2 == |Begin(s, Capture, asked).held|
  {
    GrantFits(s.r, Capture, asked);
    hide PlaybackAvail, CaptureAvail, FrameAt, Frames;
    if |Begin(s, Capture, asked).held| == 0 {
      assert FramesToBytes(s.r.frameBits, 0) == 0;
    }
  }
}
