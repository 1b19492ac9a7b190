/** The mapping of channel buffers: channels that the driver places at one offset share one
    mapping, and every mapping is released once, with the size it was made with.

    Sizes are sums of 32-bit fields in 64-bit arithmetic and cannot wrap, so they are plain numbers. */
module ChannelMaps {
  import opened Arith

  /** What the driver tells of a channel, and where it is mapped (0 while it is not). */
  datatype ChannelInfo = ChannelInfo(offset: int, first: nat, step: nat, addr: nat)

  datatype Area = Area(addr: nat, first: nat, step: nat)

  /** The process's mappings, by address. Only these two calls change them; a call that fails
      leaves its reason in errno. */
  class AddressSpace {
    var live: map<nat, nat>
    var errno: int
    const pageSize: nat

    constructor (pageSize: nat)
      requires pageSize > 0
      ensures this.pageSize == pageSize && live == map[]
    {
      this.pageSize := pageSize;
      live, errno := map[], 0;
    }

    /** Fails (0) or gives a fresh address. */
    method Mmap(size: nat) returns (addr: nat)
      modifies this
      ensures addr == 0 ==> live == old(live) && errno > 0
      ensures addr != 0 ==> addr !in old(live) && live == old(live)[addr := size]
    {
      var fails: bool := *;
      if fails {
        var reason: int :| reason > 0;
        errno := reason;
        return 0;
      }
      FreshExists(live.Keys);
      addr :| addr != 0 && addr !in live;
      live := live[addr := size];
    }

    /** May only be called with a live address and the size it was mapped with; fails or releases it. */
    method Munmap(addr: nat, size: nat) returns (err: int)
      requires addr in live && live[addr] == size
      modifies this
      ensures err < 0 ==> live == old(live) && errno > 0
      ensures err >= 0 ==> live == old(live) - {addr}
    {
      var fails: bool := *;
      if fails {
        var reason: int :| reason > 0;
        errno := reason;
        return -1;
      }
      live := live - {addr};
      return 0;
    }
  }

  lemma FreshExists(taken: set<nat>)
    ensures exists a: nat :: a != 0 && a !in taken
  {
    var top := UpperBound(taken);
    assert top + 1 !in taken;
  }

  lemma {:induction false} UpperBound(s: set<nat>) returns (top: nat)
    ensures forall a :: a in s ==> a <= top
    decreases |s|
  {
    if s == {} {
      top := 0;
    } else {
      var x :| x in s;
      top := UpperBound(s - {x});
      top := Max(top, x);
      forall a | a in s
        ensures a <= top
      {
        assert a == x || a in s - {x};
      }
    }
  }

  function PageAlign(size: nat, pageSize: nat): (r: nat)
    requires pageSize > 0
    ensures size <= r < size + pageSize && r % pageSize == 0
  {
    var rest := size % pageSize;
    Rounded(size, pageSize);
    if rest != 0 then size + pageSize - rest else size
  }

  lemma {:induction false} Rounded(size: nat, pageSize: nat)
    requires pageSize > 0
    ensures size % pageSize != 0 ==> (size + pageSize - size % pageSize) % pageSize == 0
  {
    var q, m := size / pageSize, size % pageSize;
    assert size == q * pageSize + m;
    assert (q + 1) * pageSize == q * pageSize + pageSize;
    ModUnique((q + 1) * pageSize, 0, q + 1, pageSize);
  }

  /** Bits from the start of a channel's mapping to the end of its last sample. */
  function SpanBits(i: ChannelInfo, bufferSize: nat, sampleBits: nat): nat
    requires bufferSize > 0
  {
    i.first + i.step * (bufferSize - 1) + sampleBits
  }

  /** Bytes mapped for a span of that many bits. */
  function MapBytes(bits: nat, pageSize: nat): nat
    requires pageSize > 0
  {
    PageAlign((bits + 7) / 8, pageSize)
  }

  /** m is the longest span among the channels at address a. */
  ghost predicate LongestSpan(m: nat, infos: seq<ChannelInfo>, a: nat, bufferSize: nat, sampleBits: nat)
    requires bufferSize > 0
  {
    && (exists k :: 0 <= k < |infos| && infos[k].addr == a && SpanBits(infos[k], bufferSize, sampleBits) == m)
    && (forall k :: 0 <= k < |infos| && infos[k].addr == a ==> SpanBits(infos[k], bufferSize, sampleBits) <= m)
  }

  /** size is the longest span among the channels from c to n - 1 at address a. */
  ghost predicate LongestAt(size: nat, infos: seq<ChannelInfo>, c: nat, n: nat, a: nat, bufferSize: nat,
                            sampleBits: nat)
    requires bufferSize > 0 && c < n <= |infos|
  {
    && (exists k :: c <= k < n && infos[k].addr == a && SpanBits(infos[k], bufferSize, sampleBits) == size)
    && (forall k :: c <= k < n && infos[k].addr == a ==> SpanBits(infos[k], bufferSize, sampleBits) <= size)
  }

  /** The same among the channels at one of the driver's offsets. */
  ghost predicate LongestFor(size: nat, infos: seq<ChannelInfo>, c: nat, n: nat, offset: int, bufferSize: nat,
                             sampleBits: nat)
    requires bufferSize > 0 && c < n <= |infos|
  {
    && (exists k :: c <= k < n && infos[k].offset == offset && SpanBits(infos[k], bufferSize, sampleBits) == size)
    && (forall k :: c <= k < n && infos[k].offset == offset ==> SpanBits(infos[k], bufferSize, sampleBits) <= size)
  }

  /** The mapping at address a is live, with the size of its longest channel. */
  ghost predicate Mapped(infos: seq<ChannelInfo>, a: nat, live: map<nat, nat>, pageSize: nat, bufferSize: nat,
                         sampleBits: nat)
    requires bufferSize > 0 && pageSize > 0
  {
    a in live && exists m :: LongestSpan(m, infos, a, bufferSize, sampleBits) && live[a] == MapBytes(m, pageSize)
  }

  class Pcm {
    const channels: nat
    const bufferSize: nat
    const sampleBits: nat
    const space: AddressSpace
    var mapped: bool               // whether the two arrays are allocated
    var infos: seq<ChannelInfo>
    var areas: seq<Area>

    ghost predicate Valid()
      reads this, space
    {
      && bufferSize > 0 && space.pageSize > 0
      && (if mapped then |infos| == channels && |areas| == channels else infos == [] && areas == [])
      && forall k :: 0 <= k < |infos| && infos[k].addr != 0 ==>
           Mapped(infos, infos[k].addr, space.live, space.pageSize, bufferSize, sampleBits)
    }

    /** The addresses this PCM has to release. */
    ghost function Owned(): set<nat>
      reads this
    {
      set k | 0 <= k < |infos| && infos[k].addr != 0 :: infos[k].addr
    }

    constructor (channels: nat, bufferSize: nat, sampleBits: nat, space: AddressSpace)
      requires bufferSize > 0 && space.pageSize > 0
      ensures Valid() && Owned() == {} && !mapped
      ensures this.space == space && this.channels == channels
      ensures this.bufferSize == bufferSize && this.sampleBits == sampleBits
    {
      this.channels, this.bufferSize, this.sampleBits, this.space := channels, bufferSize, sampleBits, space;
      mapped, infos, areas := false, [], [];
    }

    /** Clears the later channels at channel c's address and finds the longest span of the group. */
    method ClearGroup(c: nat) returns (size: nat)
      requires bufferSize > 0 && c < channels == |infos|
      modifies this`infos
      ensures |infos| == channels
      ensures forall k :: 0 <= k < channels ==>
        infos[k] == if c < k && old(infos)[k].addr == old(infos)[c].addr then old(infos)[k].(addr := 0)
                    else old(infos)[k]
      ensures LongestAt(size, old(infos), c, channels, old(infos)[c].addr, bufferSize, sampleBits)
    {
      var i := infos[c];
      size := SpanBits(i, bufferSize, sampleBits);
      var c1 := c + 1;
      ghost var was := infos;
      while c1 < channels
        invariant c < c1 <= channels && |infos| == channels
        invariant forall k :: 0 <= k < channels ==>
          infos[k] == if c < k < c1 && was[k].addr == i.addr then was[k].(addr := 0) else was[k]
        invariant LongestAt(size, was, c, c1, i.addr, bufferSize, sampleBits)
      {
        var i1 := infos[c1];
        if i1.addr == i.addr {
          infos := infos[c1 := i1.(addr := 0)];
          var s := SpanBits(i1, bufferSize, sampleBits);
          if s > size {
            size := s;
          }
        }
        c1 := c1 + 1;
      }
    }

    /** Releases every mapping of this PCM, each once and with its own size, and no other; or, when
        a release fails, stops there. */
    method Munmap() returns (err: int)
      requires Valid()
      modifies this, space
      ensures err == 0 ==> Valid() && !mapped && space.live == old(space.live) - old(Owned())
      ensures err != 0 ==>
        && err == -space.errno < 0 && mapped && areas == old(areas)
        && exists c :: Stuck(c, old(infos), infos, old(space.live), space.live)
    {
      if !mapped {
        return 0;
      }
      ghost var was, before := infos, space.live;
      var c := 0;
      while c < channels
        invariant c <= channels && mapped && areas == old(areas)
        invariant Cleared(infos, was, AddressesBefore(was, c))
        invariant space.live == before - AddressesBefore(was, c)
      {
        if infos[c].addr != 0 {
          err := ReleaseGroup(c, was, before);
          if err < 0 {
            return;
          }
        } else {
          StillCleared(infos, was, c);
        }
        c := c + 1;
      }
      assert AddressesBefore(was, channels) == old(Owned());
      mapped, infos, areas := false, [], [];
      err := 0;
    }

    /** One turn of the release, for a channel whose group is still mapped. */
    method ReleaseGroup(c: nat, ghost was: seq<ChannelInfo>, ghost before: map<nat, nat>) returns (err: int)
      requires bufferSize > 0 && space.pageSize > 0 && c < channels == |infos| == |was| && infos[c].addr != 0
      requires Cleared(infos, was, AddressesBefore(was, c)) && space.live == before - AddressesBefore(was, c)
      requires Mapped(was, infos[c].addr, before, space.pageSize, bufferSize, sampleBits)
      modifies this`infos, space
      ensures err == 0 ==>
        && Cleared(infos, was, AddressesBefore(was, c + 1))
        && space.live == before - AddressesBefore(was, c + 1)
      ensures err != 0 ==> err == -space.errno < 0 && Stuck(c, was, infos, before, space.live)
    {
      ghost var now := infos;
      var i := infos[c];
      var size := ClearGroup(c);
      SizeAgrees(was, now, AddressesBefore(was, c), i.addr, c, size, bufferSize, sampleBits, before, space.pageSize);
      err := space.Munmap(i.addr, MapBytes(size, space.pageSize));
      if err < 0 {
        return -space.errno;
      }
      infos := infos[c := infos[c].(addr := 0)];
      OneMore(was, c);
      err := 0;
    }

    /** The longest span among channel c and the later channels at its offset. */
    method GroupSpan(c: nat) returns (size: nat)
      requires bufferSize > 0 && c < channels == |infos|
      ensures LongestFor(size, infos, c, channels, infos[c].offset, bufferSize, sampleBits)
    {
      var i := infos[c];
      size := SpanBits(i, bufferSize, sampleBits);
      var c1 := c + 1;
      while c1 < channels
        invariant c < c1 <= channels
        invariant LongestFor(size, infos, c, c1, i.offset, bufferSize, sampleBits)
      {
        var i1 := infos[c1];
        if i1.offset == i.offset {
          var s := SpanBits(i1, bufferSize, sampleBits);
          if s > size {
            size := s;
          }
        }
        c1 := c1 + 1;
      }
    }

    /** Gives channel c and the later channels at its offset one address. */
    method AssignGroup(c: nat, ptr: nat)
      requires c < channels == |infos|
      modifies this`infos
      ensures |infos| == channels
      ensures forall k :: 0 <= k < channels ==>
        infos[k] == if c <= k && old(infos)[k].offset == old(infos)[c].offset then old(infos)[k].(addr := ptr)
                    else old(infos)[k]
    {
      var i := infos[c];
      ghost var was := infos;
      infos := infos[c := i.(addr := ptr)];
      var c1 := c + 1;
      while c1 < channels
        invariant c < c1 <= channels && |infos| == channels
        invariant forall k :: 0 <= k < channels ==>
          infos[k] == if c <= k < c1 && was[k].offset == i.offset then was[k].(addr := ptr) else was[k]
      {
        var i1 := infos[c1];
        if i1.offset == i.offset {
          infos := infos[c1 := i1.(addr := ptr)];
        }
        c1 := c1 + 1;
      }
    }

    /** Maps channel c together with the later channels at its offset, or fails without a trace. */
    method MapGroup(c: nat, ghost told: seq<ChannelInfo>) returns (ok: bool)
      requires Valid() && mapped && c < channels && infos[c].addr == 0
      requires Grouped(infos, told) && forall k :: 0 <= k < c ==> infos[k].addr != 0
      modifies this`infos, space
      ensures Valid() && Grouped(infos, told)
      ensures forall k :: 0 <= k < |old(infos)| && old(infos)[k].addr != 0 ==> infos[k] == old(infos)[k]
      ensures !ok ==> infos == old(infos) && space.live == old(space.live) && space.errno > 0
      ensures ok ==> infos[c].addr != 0 && infos[c].addr !in old(space.live)
      ensures ok ==> Owned() == old(Owned()) + {infos[c].addr}
      ensures space.live - Owned() == old(space.live - Owned())
    {
      ghost var was, before := infos, space.live;
      var size := GroupSpan(c);
      var bytes := MapBytes(size, space.pageSize);
      var ptr := space.Mmap(bytes);
      if ptr == 0 {
        return false;
      }
      AssignGroup(c, ptr);
      NewGroup(was, infos, told, c, ptr, before, bytes, size, bufferSize, sampleBits, space.pageSize);
      OwnedGrows(was, infos, ptr, c);
      assert space.live - Owned() == before - (set k | 0 <= k < |was| && was[k].addr != 0 :: was[k].addr);
      return true;
    }

    /** Maps every channel, afresh. The driver answers for the channels in `told` and fails, with
        `driverErrno`, if these are not all. Whatever fails, what was mapped stays owned. Mappings
        left over from a release that failed are forgotten, not unmapped. */
    method Mmap(oom: bool, told: seq<ChannelInfo>, driverErrno: int) returns (err: int, ghost released: int)
      requires Valid() && |told| <= channels && driverErrno > 0
      modifies this, space
      ensures Valid()
      ensures (space.live - Owned()) - old(Owned()) == old(space.live - Owned())
      ensures released == 0 ==> space.live - Owned() == old(space.live - Owned())
      ensures oom ==> err == -ENOMEM && !mapped
      ensures !oom ==> mapped
      ensures !oom && |told| < channels ==> err == -driverErrno && Owned() == {}
      ensures !oom && |told| == channels ==>
        if err == 0 then Laid(infos, areas, told) else err == -space.errno < 0 && !Laid(infos, areas, told)
    {
      released := Munmap();
      ghost var kept := space.live;
      if oom {
        mapped, infos, areas := false, [], [];
        return -ENOMEM, released;
      }
      areas := seq(channels, k => Area(0, 0, 0));
      mapped := true;
      if |told| < channels {
        infos := seq(channels, k requires 0 <= k < channels =>
          if k < |told| then told[k].(addr := 0) else ChannelInfo(0, 0, 0, 0));
        assert Owned() == {};
        return -driverErrno, released;
      }
      infos := seq(channels, k requires 0 <= k < channels => told[k].(addr := 0));
      assert Owned() == {};
      err := MapAll(told);
    }

    /** The loop over the channels, from a fresh table. */
    method MapAll(ghost told: seq<ChannelInfo>) returns (err: int)
      requires Valid() && mapped && Owned() == {} && Grouped(infos, told)
      modifies this`infos, this`areas, space
      ensures Valid() && space.live - Owned() == old(space.live)
      ensures if err == 0 then Laid(infos, areas, told) else err == -space.errno < 0 && !Laid(infos, areas, told)
    {
      var c := 0;
      while c < channels
        invariant c <= channels && mapped && |infos| == channels && |areas| == channels
        invariant Grouped(infos, told) && Filled(infos, areas, c)
        invariant Valid()
        invariant space.live - Owned() == old(space.live)
      {
        if infos[c].addr == 0 {
          var ok := MapGroup(c, told);
          if !ok {
            return -space.errno;
          }
        }
        var i := infos[c];
        areas := areas[c := Area(i.addr, i.first, i.step)];
        c := c + 1;
      }
      err := 0;
    }
  }

  /** The first c channels are mapped and their areas handed out. */
  ghost predicate Filled(infos: seq<ChannelInfo>, areas: seq<Area>, c: nat) {
    && c <= |infos| == |areas|
    && forall k :: 0 <= k < c ==> infos[k].addr != 0 && areas[k] == Area(infos[k].addr, infos[k].first, infos[k].step)
  }

  /** The addresses of the channels before c. */
  ghost function AddressesBefore(infos: seq<ChannelInfo>, c: nat): set<nat>
    requires c <= |infos|
  {
    set k | 0 <= k < c && infos[k].addr != 0 :: infos[k].addr
  }

  lemma {:induction false} OneMore(infos: seq<ChannelInfo>, c: nat)
    requires c < |infos|
    ensures AddressesBefore(infos, c + 1)
         == AddressesBefore(infos, c) + (if infos[c].addr == 0 then {} else {infos[c].addr})
  {
  }

  lemma {:induction false} StillCleared(infos: seq<ChannelInfo>, was: seq<ChannelInfo>, c: nat)
    requires c < |was| && Cleared(infos, was, AddressesBefore(was, c)) && infos[c].addr == 0
    ensures Cleared(infos, was, AddressesBefore(was, c + 1)) && AddressesBefore(was, c + 1) == AddressesBefore(was, c)
  {
    OneMore(was, c);
  }

  /** Where a failed release leaves things: the groups of the channels before c are released, the
      others are not; of channel c's group only channel c still has the address. */
  ghost predicate Stuck(c: nat, was: seq<ChannelInfo>, infos: seq<ChannelInfo>, before: map<nat, nat>,
                        live: map<nat, nat>) {
    && c < |was| == |infos|
    && was[c].addr != 0 && was[c].addr !in AddressesBefore(was, c)
    && live == before - AddressesBefore(was, c)
    && forall k :: 0 <= k < |was| ==>
         infos[k] == if k != c && (was[k].addr == was[c].addr || was[k].addr in AddressesBefore(was, c))
                     then was[k].(addr := 0) else was[k]
  }

  /** After a failed release every group can be released with its own size, exactly when channel c
      alone spans as many pages as its whole group did. */
  lemma {:induction false} RetrySize(c: nat, was: seq<ChannelInfo>, infos: seq<ChannelInfo>, before: map<nat, nat>,
                                     live: map<nat, nat>, pageSize: nat, bufferSize: nat, sampleBits: nat)
    requires bufferSize > 0 && pageSize > 0 && Stuck(c, was, infos, before, live)
    requires forall k :: 0 <= k < |was| && was[k].addr != 0 ==>
      Mapped(was, was[k].addr, before, pageSize, bufferSize, sampleBits)
    ensures was[c].addr in live
    ensures (forall k :: 0 <= k < |infos| && infos[k].addr != 0 ==>
               Mapped(infos, infos[k].addr, live, pageSize, bufferSize, sampleBits))
       <==> MapBytes(SpanBits(was[c], bufferSize, sampleBits), pageSize) == live[was[c].addr]
  {
    var own := SpanBits(was[c], bufferSize, sampleBits);
    assert Mapped(was, was[c].addr, before, pageSize, bufferSize, sampleBits);
    assert LongestSpan(own, infos, was[c].addr, bufferSize, sampleBits) by {
      assert infos[c] == was[c];
    }
    forall k | 0 <= k < |infos| && infos[k].addr != 0 && infos[k].addr != was[c].addr
      ensures Mapped(infos, infos[k].addr, live, pageSize, bufferSize, sampleBits)
    {
      assert infos[k] == was[k];
      MappedCarries(was, infos, infos[k].addr, before, live, pageSize, bufferSize, sampleBits);
    }
    forall m | LongestSpan(m, infos, was[c].addr, bufferSize, sampleBits)
      ensures m == own
    {
      var j :| 0 <= j < |infos| && infos[j].addr == was[c].addr && SpanBits(infos[j], bufferSize, sampleBits) == m;
      assert infos[c] == was[c];
    }
  }

  /** Part-way through a release: groups are cleared whole, and the cleared ones are released. */
  ghost predicate Cleared(infos: seq<ChannelInfo>, was: seq<ChannelInfo>, released: set<nat>) {
    && |infos| == |was|
    && forall k :: 0 <= k < |was| ==>
         infos[k] == if was[k].addr in released then was[k].(addr := 0) else was[k]
  }

  /** What the driver told, with one address per offset. */
  ghost predicate Grouped(infos: seq<ChannelInfo>, told: seq<ChannelInfo>) {
    && |infos| == |told|
    && (forall k :: 0 <= k < |told| ==> infos[k].(addr := 0) == told[k].(addr := 0))
    && (forall j, k :: 0 <= j < |infos| && 0 <= k < |infos| && infos[j].offset == infos[k].offset ==>
          infos[j].addr == infos[k].addr)
    && (forall j, k :: 0 <= j < |infos| && 0 <= k < |infos| && infos[j].addr == infos[k].addr != 0 ==>
          infos[j].offset == infos[k].offset)
  }

  /** A finished mapping: all channels mapped, at one address exactly when at one offset, and the
      areas handed to the application are those places. */
  ghost predicate Laid(infos: seq<ChannelInfo>, areas: seq<Area>, told: seq<ChannelInfo>) {
    && Grouped(infos, told) && |areas| == |infos|
    && (forall k :: 0 <= k < |infos| ==> infos[k].addr != 0)
    && (forall k :: 0 <= k < |infos| ==> areas[k] == Area(infos[k].addr, told[k].first, told[k].step))
  }

  /** The size found again on release is the size mapped. */
  lemma {:induction false} SizeAgrees(was: seq<ChannelInfo>, now: seq<ChannelInfo>, released: set<nat>, a: nat,
                                      c: nat, size: nat, bufferSize: nat, sampleBits: nat, live: map<nat, nat>,
                                      pageSize: nat)
    requires bufferSize > 0 && pageSize > 0 && a != 0 && a !in released && Cleared(now, was, released) && c < |now|
    requires forall k :: 0 <= k < c ==> now[k].addr == 0
    requires LongestAt(size, now, c, |now|, a, bufferSize, sampleBits)
    requires Mapped(was, a, live, pageSize, bufferSize, sampleBits)
    ensures a in live && live[a] == MapBytes(size, pageSize)
  {
    var m :| LongestSpan(m, was, a, bufferSize, sampleBits) && live[a] == MapBytes(m, pageSize);
    var j :| 0 <= j < |was| && was[j].addr == a && SpanBits(was[j], bufferSize, sampleBits) == m;
    assert now[j] == was[j];
    var k :| c <= k < |now| && now[k].addr == a && SpanBits(now[k], bufferSize, sampleBits) == size;
    assert now[k] == was[k];
  }

  /** A group mapped at a fresh address extends the mapping and disturbs no other group. */
  lemma {:induction false} NewGroup(was: seq<ChannelInfo>, infos: seq<ChannelInfo>, told: seq<ChannelInfo>, c: nat,
                                    ptr: nat, before: map<nat, nat>, bytes: nat, size: nat, bufferSize: nat,
                                    sampleBits: nat, pageSize: nat)
    requires bufferSize > 0 && pageSize > 0 && c < |was| == |infos| && ptr != 0 && ptr !in before
    requires Grouped(was, told) && was[c].addr == 0 && forall k :: 0 <= k < c ==> was[k].addr != 0
    requires forall k :: 0 <= k < |was| && was[k].addr != 0 ==>
      Mapped(was, was[k].addr, before, pageSize, bufferSize, sampleBits)
    requires forall k :: 0 <= k < |was| ==>
      infos[k] == if c <= k && was[k].offset == was[c].offset then was[k].(addr := ptr) else was[k]
    requires LongestFor(size, was, c, |was|, was[c].offset, bufferSize, sampleBits)
    requires bytes == MapBytes(size, pageSize)
    ensures Grouped(infos, told)
    ensures forall k :: 0 <= k < |infos| && infos[k].addr != 0 ==>
      Mapped(infos, infos[k].addr, before[ptr := bytes], pageSize, bufferSize, sampleBits)
  {
    forall k | 0 <= k < |was| && was[k].addr != 0
      ensures was[k].addr != ptr && infos[k] == was[k]
    {
      assert Mapped(was, was[k].addr, before, pageSize, bufferSize, sampleBits);
    }
    var w :| c <= w < |was| && was[w].offset == was[c].offset && SpanBits(was[w], bufferSize, sampleBits) == size;
    assert infos[w] == was[w].(addr := ptr);
    assert LongestSpan(size, infos, ptr, bufferSize, sampleBits);
    hide Grouped, MapBytes, LongestSpan, LongestFor;
    forall k | 0 <= k < |infos| && infos[k].addr != 0
      ensures Mapped(infos, infos[k].addr, before[ptr := bytes], pageSize, bufferSize, sampleBits)
    {
      if infos[k].addr != ptr {
        MappedCarries(was, infos, was[k].addr, before, before[ptr := bytes], pageSize, bufferSize, sampleBits);
      }
    }
  }

  /** A mapping whose channels and size are the same is mapped as before. */
  lemma {:induction false} MappedCarries(was: seq<ChannelInfo>, infos: seq<ChannelInfo>, a: nat,
                                         before: map<nat, nat>, live: map<nat, nat>,
                                         pageSize: nat, bufferSize: nat, sampleBits: nat)
    requires bufferSize > 0 && pageSize > 0 && |infos| == |was|
    requires forall k :: 0 <= k < |was| && (was[k].addr == a || infos[k].addr == a) ==> infos[k] == was[k]
    requires a in before ==> a in live && live[a] == before[a]
    requires Mapped(was, a, before, pageSize, bufferSize, sampleBits)
    ensures Mapped(infos, a, live, pageSize, bufferSize, sampleBits)
  {
    var m :| LongestSpan(m, was, a, bufferSize, sampleBits) && before[a] == MapBytes(m, pageSize);
    var j :| 0 <= j < |was| && was[j].addr == a && SpanBits(was[j], bufferSize, sampleBits) == m;
    assert infos[j] == was[j];
    assert LongestSpan(m, infos, a, bufferSize, sampleBits);
  }

  lemma {:induction false} OwnedGrows(was: seq<ChannelInfo>, infos: seq<ChannelInfo>, ptr: nat, c: nat)
    requires c < |was| == |infos| && ptr != 0 && infos[c].addr == ptr
    requires forall k :: 0 <= k < |was| ==> infos[k].addr == ptr || infos[k].addr == was[k].addr
    requires forall k :: 0 <= k < |was| && was[k].addr != 0 ==> infos[k].addr == was[k].addr
    ensures (set k | 0 <= k < |infos| && infos[k].addr != 0 :: infos[k].addr)
         == (set k | 0 <= k < |was| && was[k].addr != 0 :: was[k].addr) + {ptr}
  {
    forall k | 0 <= k < |was| && was[k].addr != 0
      ensures was[k].addr in (set j | 0 <= j < |infos| && infos[j].addr != 0 :: infos[j].addr)
    {
      assert infos[k].addr == was[k].addr;
    }
  }

  /** Every sample of every mapped channel lies inside its mapping. */
  lemma {:induction false} SamplesCovered(infos: seq<ChannelInfo>, live: map<nat, nat>, pageSize: nat,
                                          bufferSize: nat, sampleBits: nat, c: nat, f: nat)
    requires bufferSize > 0 && pageSize > 0 && c < |infos| && f < bufferSize
    requires Mapped(infos, infos[c].addr, live, pageSize, bufferSize, sampleBits)
    ensures infos[c].first + infos[c].step * f + sampleBits <= 8 * live[infos[c].addr]
  {
    var a := infos[c].addr;
    var m :| LongestSpan(m, infos, a, bufferSize, sampleBits) && live[a] == MapBytes(m, pageSize);
    assert SpanBits(infos[c], bufferSize, sampleBits) <= m;
    MulMono(f, bufferSize - 1, infos[c].step);
  }

  /** Where frame f of a channel ends, in bits from the start of its mapping. */
  function FrameEnd(i: ChannelInfo, f: nat, sampleBits: nat): nat { i.first + i.step * f + sampleBits }

  /** Every sample of the channels at address a ends within that many bytes. */
  ghost predicate HoldsAll(infos: seq<ChannelInfo>, a: nat, bufferSize: nat, sampleBits: nat, bytes: nat) {
    forall c: nat, f: nat :: c < |infos| && f < bufferSize && infos[c].addr == a ==>
      FrameEnd(infos[c], f, sampleBits) <= 8 * bytes
  }

  /** The size of a mapping is the least whole number of pages that holds every sample of its channels. */
  lemma {:induction false} MappingLeast(infos: seq<ChannelInfo>, a: nat, live: map<nat, nat>, pageSize: nat,
                                        bufferSize: nat, sampleBits: nat, bytes: nat)
    requires bufferSize > 0 && pageSize > 0 && Mapped(infos, a, live, pageSize, bufferSize, sampleBits)
    ensures live[a] % pageSize == 0 && HoldsAll(infos, a, bufferSize, sampleBits, live[a])
    ensures bytes % pageSize == 0 && HoldsAll(infos, a, bufferSize, sampleBits, bytes) ==> live[a] <= bytes
  {
    var m: nat :| LongestSpan(m, infos, a, bufferSize, sampleBits) && live[a] == MapBytes(m, pageSize);
    forall c: nat, f: nat | c < |infos| && f < bufferSize && infos[c].addr == a
      ensures FrameEnd(infos[c], f, sampleBits) <= 8 * live[a]
    {
      SamplesCovered(infos, live, pageSize, bufferSize, sampleBits, c, f);
    }
    if bytes % pageSize == 0 && HoldsAll(infos, a, bufferSize, sampleBits, bytes) {
      var c: nat :| c < |infos| && infos[c].addr == a && SpanBits(infos[c], bufferSize, sampleBits) == m;
      assert FrameEnd(infos[c], bufferSize - 1, sampleBits) == m <= 8 * bytes;
      NextPage((m + 7) / 8, live[a], bytes, pageSize);
    }
  }

  /** A multiple of the page less than a page above a number is at most any multiple above it. */
  lemma {:induction false} NextPage(x: nat, r: nat, bytes: nat, pageSize: nat)
    requires pageSize > 0 && r % pageSize == 0 && bytes % pageSize == 0 && r < x + pageSize && x <= bytes
    ensures r <= bytes
  {
    var q, p := r / pageSize, bytes / pageSize;
    assert r == q * pageSize && bytes == p * pageSize;
    assert (p + 1) * pageSize == p * pageSize + pageSize;
    if q > p {
      MulMono(p + 1, q, pageSize);
    }
  }
}
