/** The application and hardware pointers of a PCM ring, which wrap at `boundary`,
    and the unbounded frame counters they stand for. */
module RingPointers {
  import opened Arith
  import opened Bits

  /** The wrap point computed for the software parameters: doubled for as long as
      it stays under its bound. A buffer size of 0 would loop for ever. */
  method DefaultBoundary(bufferSize: nat) returns (boundary: nat)
    requires 0 < bufferSize <= LONG_MAX
    ensures exists k: nat :: boundary == bufferSize * Pow2(k)
    ensures boundary * 2 > LONG_MAX - bufferSize
    ensures boundary == bufferSize || boundary <= LONG_MAX - bufferSize
    ensures boundary > bufferSize <==> 3 * bufferSize <= LONG_MAX
  {
    boundary := bufferSize;
    ghost var k: nat := 0;
    while ToULong(boundary * 2) <= ToULong(LONG_MAX - bufferSize)
      invariant bufferSize <= boundary <= LONG_MAX
      invariant boundary == bufferSize * Pow2(k)
      invariant boundary == bufferSize || (boundary <= LONG_MAX - bufferSize && 3 * bufferSize <= LONG_MAX)
      decreases LONG_MAX - boundary
    {
      boundary := ToULong(boundary * 2);
      k := k + 1;
    }
  }

  function PlaybackAvail(bufferSize: nat, boundary: nat, hwPtr: nat, applPtr: nat): int {
    var avail := ToLong(hwPtr + bufferSize - applPtr);
    ToULong(if avail < 0 then ToLong(avail + boundary)
            else if avail >= boundary then ToLong(avail - boundary)
            else avail)
  }

  function CaptureAvail(boundary: nat, hwPtr: nat, applPtr: nat): int {
    var avail := ToLong(hwPtr - applPtr);
    ToULong(if avail < 0 then ToLong(avail + boundary) else avail)
  }

  function HwAvail(bufferSize: nat, avail: int): int { ToLong(bufferSize - avail) }

  function CommitPtr(boundary: nat, applPtr: nat, frames: nat): int {
    var p := ToULong(applPtr + frames);
    if p >= boundary then p - boundary else p
  }

  /** What `DefaultBoundary` establishes and the pointers rely on. */
  ghost predicate Geometry(bufferSize: nat, boundary: nat) {
    && 0 < bufferSize <= boundary
    && boundary % bufferSize == 0
    && boundary + bufferSize <= LONG_MAX
  }

  lemma BoundaryGeometry(bufferSize: nat, k: nat)
    requires 0 < bufferSize && bufferSize * Pow2(k) + bufferSize <= LONG_MAX
    ensures Geometry(bufferSize, bufferSize * Pow2(k))
  {
    var m := Pow2(k);
    MulMono(1, m, bufferSize);
    ModAddMultiple(0, m, bufferSize);
    assert bufferSize * m == m * bufferSize;
  }

  /** Reducing modulo a multiple of the modulus first changes nothing. */
  lemma ModOfMod(x: int, boundary: int, bufferSize: int)
    requires 0 < bufferSize <= boundary && boundary % bufferSize == 0
    ensures (x % boundary) % bufferSize == x % bufferSize
  {
    var m := boundary / bufferSize;
    DivBounds(x, boundary);
    var q := x / boundary;
    assert x == x % boundary + q * boundary;
    assert boundary == m * bufferSize;
    assert q * boundary == (q * m) * bufferSize;
    ModAddMultiple(x % boundary, q * m, bufferSize);
  }

  /** Wrapped differences: `x % b - y % b` differs from `x - y` by a multiple of `b`. */
  lemma WrappedDifference(x: int, y: int, b: int) returns (m: int)
    requires 0 < b
    ensures x % b - y % b == x - y + m * b
  {
    DivBounds(x, b);
    DivBounds(y, b);
    m := y / b - x / b;
    assert m * b == (y / b) * b - (x / b) * b;
  }

  /** Two values in the same window of length b that differ by a multiple of b are equal. */
  lemma SameWindow(x: int, y: int, m: int, b: int)
    requires 0 < b && x == y + m * b && 0 <= x < b && 0 <= y < b
    ensures x == y
  {
    if m >= 1 {
      MulMono(1, m, b);
    } else if m <= -1 {
      MulMono(m, -1, b);
    }
  }

  /** For pointers inside the boundary the machine arithmetic does not wrap, and the
      result is the one representative of the difference inside the boundary. */
  lemma PlaybackAvailValue(bufferSize: nat, boundary: nat, h: nat, a: nat) returns (j: int)
    requires 0 < bufferSize <= boundary && boundary + bufferSize <= LONG_MAX && h < boundary && a < boundary
    ensures PlaybackAvail(bufferSize, boundary, h, a) == h + bufferSize - a + j * boundary
    ensures 0 <= h + bufferSize - a + j * boundary < boundary
    ensures -1 <= j <= 1
  {
    var raw := h + bufferSize - a;
    j := if raw < 0 then 1 else if raw >= boundary then -1 else 0;
  }

  lemma CaptureAvailValue(boundary: nat, h: nat, a: nat) returns (j: int)
    requires 0 < boundary <= LONG_MAX && h < boundary && a < boundary
    ensures CaptureAvail(boundary, h, a) == h - a + j * boundary
    ensures 0 <= h - a + j * boundary < boundary
    ensures 0 <= j <= 1
  {
    j := if h - a < 0 then 1 else 0;
  }

  /** The playback room read off the wrapped pointers is the difference of the true
      counters exactly when that difference lies below the boundary. */
  lemma {:induction false} PlaybackAvailRefines(bufferSize: nat, boundary: nat, hw: nat, appl: nat)
    requires Geometry(bufferSize, boundary)
    ensures PlaybackAvail(bufferSize, boundary, hw % boundary, appl % boundary) == hw + bufferSize - appl
       <==> 0 <= hw + bufferSize - appl < boundary
  {
    var m := WrappedDifference(hw, appl, boundary);
    var j := PlaybackAvailValue(bufferSize, boundary, hw % boundary, appl % boundary);
    Representative(hw + bufferSize - appl, hw % boundary + bufferSize - appl % boundary, m, j, boundary);
  }

  lemma {:induction false} CaptureAvailRefines(boundary: nat, hw: nat, appl: nat)
    requires 0 < boundary <= LONG_MAX
    ensures CaptureAvail(boundary, hw % boundary, appl % boundary) == hw - appl
       <==> 0 <= hw - appl < boundary
  {
    var m := WrappedDifference(hw, appl, boundary);
    var j := CaptureAvailValue(boundary, hw % boundary, appl % boundary);
    Representative(hw - appl, hw % boundary - appl % boundary, m, j, boundary);
  }

  lemma Representative(d: int, raw: int, m: int, j: int, b: int)
    requires 0 < b && raw == d + m * b && 0 <= raw + j * b < b
    ensures raw + j * b == d <==> 0 <= d < b
  {
    assert raw + j * b == d + (m + j) * b;
    if 0 <= d < b {
      SameWindow(raw + j * b, d, m + j, b);
    }
  }

  /** The room that can be written or read and the room that can be rewound make up
      the buffer, as long as the counters are at most one buffer apart. */
  lemma {:induction false} ForwardableRewindable(bufferSize: nat, boundary: nat, hw: nat, appl: nat)
    requires Geometry(bufferSize, boundary) && bufferSize < boundary
    ensures hw <= appl <= hw + bufferSize ==>
              var avail := PlaybackAvail(bufferSize, boundary, hw % boundary, appl % boundary);
              HwAvail(bufferSize, avail) == appl - hw && avail + HwAvail(bufferSize, avail) == bufferSize
    ensures appl <= hw <= appl + bufferSize ==>
              var avail := CaptureAvail(boundary, hw % boundary, appl % boundary);
              avail == hw - appl && avail + HwAvail(bufferSize, avail) == bufferSize
  {
    PlaybackAvailRefines(bufferSize, boundary, hw, appl);
    CaptureAvailRefines(boundary, hw, appl);
  }

  /** A commit moves the wrapped pointer exactly as it moves the counter. */
  lemma {:induction false} CommitRefines(boundary: nat, appl: nat, frames: nat)
    requires 0 < boundary <= LONG_MAX && frames <= boundary
    ensures CommitPtr(boundary, appl % boundary, frames) == (appl + frames) % boundary
  {
    var a, c := appl % boundary, CommitPtr(boundary, appl % boundary, frames);
    DivBounds(appl, boundary);
    CommitValue(boundary, a, frames);
    var q := appl / boundary + (if a + frames >= boundary then 1 else 0);
    assert appl + frames == c + q * boundary by {
      assert (appl / boundary + 1) * boundary == (appl / boundary) * boundary + boundary;
    }
    ModUnique(appl + frames, c, q, boundary);
  }

  lemma CommitValue(boundary: nat, a: nat, frames: nat)
    requires a < boundary <= LONG_MAX && frames <= boundary
    ensures CommitPtr(boundary, a, frames) == (if a + frames >= boundary then a + frames - boundary else a + frames)
    ensures 0 <= CommitPtr(boundary, a, frames) < boundary
  {
  }

  /** Nothing in the library copies the computed wrap point to the field that these
      functions read. Left at 0, the application pointer never wraps while the
      hardware's does, and the room is right exactly during the first lap. */
  lemma {:induction false} BoundaryLeftZero(bufferSize: nat, boundary: nat, hw: nat, appl: nat, frames: nat)
    requires Geometry(bufferSize, boundary)
    requires hw <= appl <= hw + bufferSize && appl + frames <= LONG_MAX
    ensures CommitPtr(0, appl, frames) == appl + frames
    ensures PlaybackAvail(bufferSize, 0, hw % boundary, appl) == hw + bufferSize - appl <==> hw < boundary
  {
    ModOfNat(hw, boundary);
    var h := hw % boundary;
    UnwrappedAvail(bufferSize, h, appl);
  }

  lemma UnwrappedAvail(bufferSize: nat, h: nat, appl: nat)
    requires h + bufferSize <= LONG_MAX && appl <= LONG_MAX
    ensures h + bufferSize - appl >= 0 ==> PlaybackAvail(bufferSize, 0, h, appl) == h + bufferSize - appl
    ensures h + bufferSize - appl < 0 ==> PlaybackAvail(bufferSize, 0, h, appl) > LONG_MAX
  {
  }
}
