# SALSA-Lib, verified models

SALSA-Lib is a small replacement for the ALSA library. Most of it passes requests on to the kernel;
this project models the parts that compute something, and proves what they are for:

- **The PCM ring** (`RingPointers`, `RingFifo`, `RingSessions`, `PcmDevice`): an application and the
  sound hardware share a ring of frames through two pointers that wrap at `boundary`. The pointer
  arithmetic is proved to stand for two unbounded counters; over every interleaving of writes
  (reads) with hardware steps, and also of begins, copies and partial commits with hardware steps
  between any two of them, frames come out in the order in which they went in, none lost, none
  overwritten.
- **Copying between channel areas** (`AreaCopy`, `AreaLayouts`): strided and dense layouts over one
  flat memory; the memcpy and memset paths leave the same memory as the sample loops, every byte
  arrives, no other byte changes, and interleaving undoes taking apart.
- **Mapping bookkeeping** (`ChannelMaps`): channels that share an offset share a mapping; every
  mapping is released once, with the size it was made with.
- **Hardware parameters** (`Bits`, `Masks`, `Intervals`, `IntervalEnds`, `IntervalCell`, `HwParams`,
  `Negotiation`, `HwMeaning`, `Nearest`, `NearestSides`, `NearestChoice`): masks as sets, intervals
  as sets of real numbers, refinement as intersection, rollback, the search for the nearest value,
  and the choice of one configuration.
- **Decibels** (`TlvParse`, `DbConvert`, `DbWords`, `DbSegments`): the recursive parser of
  type-length-value trees, the conversions between volumes and gains with directed rounding, and the
  walk over segments.
- **Channel-map text** (`ChannelNames`, `ChannelMapText`, `ChannelMapCase`): printing a map and
  parsing it back, in either case, with any separators, and with numbers in any base.
- **Mixer and control state** (`MixerVolume`, `MixerItems`, `MixerTable`, `ControlList`): cached
  values that agree with the device, the table of elements with places and unique ids, and the
  doubly linked list of controls.

Code that changes things step by step is a class or a method with loops, proved against a
specification function; the lemmas are about that function. Code made of expressions is a function.

## Conventions

- Machine integers are unbounded integers with the conversions written out (`Arith`): `unsigned int`
  is 32 bits, `long` and `unsigned long` are 64 bits. Signed overflow, which C leaves undefined, is
  outside the model, except where the source casts.
- 32-bit words are numbers; `&`, `|`, `~`, `<<` and `>>` are defined on their binary digits
  (`Bits`).
- The kernel's refinement of hardware parameters is an arbitrary function (`HwParams.Kernel`). What
  a theorem assumes of it is a predicate: `Negotiation.Narrowing` (it only narrows) or
  `NearestChoice.HullKernel` (it returns the least range that holds the allowed values).
- `mmap` and `munmap` are a class that hands out fresh addresses or fails, and whose release demands
  a live address with its own size. The answers of callbacks and of the driver, and whether
  allocations succeed, are parameters; device reads and writes of mixer controls may fail.
- `snd_pcm_t.boundary` is read by the ring functions and assigned nowhere in the library; only
  `sw_params.boundary` is computed (src/pcm_params.c:359-361). The ring is modelled with the two
  equal. `RingPointers.BoundaryLeftZero` says what happens when the field is left at 0.
- The silence pattern of a format, and whether it is written by memset, are parameters.

## Where the code does not do what one might expect

Each is stated as an exact condition.

- Left at 0, `boundary` makes the playback room right exactly during the hardware's first lap
  (`RingPointers.BoundaryLeftZero`).
- The doubling loop leaves `boundary` equal to `buffer_size` exactly when three buffers exceed
  `LONG_MAX` (`RingPointers.DefaultBoundary`).
- The bit offset and the block size of an area are computed in 32 bits; they are the true ones
  exactly when the bit count is below 2^32 (`AreaCopy.AddressExact`, `AreaCopy.BlockBytesExact`).
- A request for less than 0, or for more than the largest value, is refused exactly when nothing
  makes the interval an integer one; otherwise the bound wraps round
  (`Intervals.ImpossibleRequests`).
- The search for the value nearest to 0 ends on the least allowed value exactly when that is the
  only one, or its sum with the greatest value allowed does not exceed 2^32
  (`NearestChoice.NearAtZero`).
- A failing `_snd_pcm_hw_param_set_integer` leaves everything as before exactly when the interval's
  emptiness flag was right already (`HwParams.ParamBlock.TrySetInteger`).
- Rounding a gain down in a min/max entry gives the greatest volume below it, for every gain of the
  range, exactly when the raw span divides the gain span (`DbConvert.RoundDownGreatest`), and for
  one gain exactly when the remainder of its division leaves room for one more raw span
  (`DbConvert.RoundDownGreatestAt`); `DbConvert.RoundDownNotGreatest` is an entry that misses it.
- Rounding a volume's own gain up in a min/max entry gives the volume back, for all volumes, exactly
  when the gain span is at least the raw span, or one less with mute (`DbConvert.MinMaxRoundTrip`).
- Parsing gives a printed map back exactly when it has at most 64 channels and no bits beyond the
  position and the two flags (`ChannelMapText.MapRoundTrip`).
- The size of a decibel entry is returned as an int, and is positive exactly when it fits one
  (`TlvParse.SizeReturned`). Where a nested entry has fewer than eight bytes left, and only there,
  the code reads beyond what that entry was given (`TlvParse.Parse`, `TlvParse.ShortEntry`).
- `snd_mask_refine` returns a negative number not only on failure, but whenever it removed something
  (`Masks.Mask.Refine`).
- The frame count of `snd_pcm_areas_copy` is cut to 32 bits: all frames are copied exactly when
  there are fewer than 2^32 (`AreaCopy.AreasCopy`).
- When munmap fails part-way, a later attempt uses the right sizes exactly when the first channel of
  the group spans as many pages as the whole group (`ChannelMaps.RetrySize`).
- When the device refuses a new volume, the cache keeps it, and asking again does nothing
  (`MixerVolume.FailedUpdateSticks`).
- The difference of two bounds with opposite directions counts as three half steps and not two
  (`NearestSides.DifferenceIs`).
- A bare channel number is refused exactly when its low 32 bits are negative as an int, or when it
  has too many digits (`ChannelMapCase.NumberRefused`).
- Loading the list of controls compares nothing: keys stay distinct exactly when the listed ones are
  distinct and new (`ControlList.LoadKeepsUnique`).

## Model

| member | source | states |
|---|---|---|
| `RingPointers.DefaultBoundary` | src/pcm_params.c:359-361 | the doubling loop ends with the buffer size times a power of two that cannot double again under its limit, and tells exactly when it doubles at all |
| `RingPointers.BoundaryGeometry` | src/pcm_params.c:359-361 | a power-of-two multiple within the limit has the divisibility and headroom that the pointer arithmetic needs |
| `RingPointers.PlaybackAvailRefines` | src/pcm.c:944-953 | the playback room read off wrapped pointers is the difference of the unbounded counters, if and only if that difference lies below the boundary |
| `RingPointers.CaptureAvailRefines` | src/pcm.c:955-962 | the same for captured frames |
| `RingPointers.ForwardableRewindable` | src/pcm.c:972-981 | without xrun, forwardable and rewindable frames add up to the buffer, on playback and capture |
| `RingPointers.CommitRefines` | src/pcm.c:1053-1057 | advancing the wrapped pointer is advancing the unbounded counter |
| `RingFifo.AvailBounds` | src/pcm.c:964-970 | the room of either direction is not negative and below the boundary, also after an xrun |
| `RingPointers.ModOfMod` | src/pcm.c:1035 | the ring offset of a wrapped pointer is the true count modulo the buffer size |
| `RingPointers.BoundaryLeftZero` | src/pcm.c:944-953 | with the boundary field never assigned, the room is right if and only if the hardware is in its first lap |
| `RingFifo.GrantFits` | src/pcm.c:1034-1046 | what begin grants, after an xrun too, is what was asked, as far as there is room and the ring does not end (the cap at one buffer changes nothing), and its bytes lie inside the mapped buffer without 32-bit wrap |
| `RingFifo.PendingFrames` | src/pcm.c:944-962 | the frames waiting are as many as the pointers are apart, and lie in the slots from the reader's on |
| `RingFifo.WriteStep` | src/pcm_macros.h:2187-2198 | a write appends exactly the accepted frames to those waiting, changes none of these, and accepts as many as asked, free, and contiguous |
| `RingFifo.ReadStep` | src/pcm_macros.h:2200-2211 | a read delivers exactly the oldest waiting frames in order and leaves the others waiting |
| `RingFifo.PlaybackConservation` | src/pcm_macros.h:2187-2198 | over every run, frames that waited followed by frames accepted are frames played followed by frames waiting |
| `RingFifo.PlaybackFifo` | src/pcm.c:1025-1060 | over every interleaving from an empty ring, through every wrap, what is played is a prefix of what was accepted, and the rest is what waits |
| `RingFifo.CaptureConservation` | src/pcm_macros.h:2200-2211 | the capture side: what waited and was captured is what was read and still waits |
| `RingFifo.CaptureFifo` | src/pcm.c:1025-1060 | over every interleaving from an empty ring, what the application reads is a prefix of what the hardware captured |
| `RingSessions.BeginStep` | src/pcm.c:1025-1047 | a begin hands out free (captured) frames that lie together, and disturbs nothing |
| `RingSessions.CopyStep` | src/pcm_macros.h:2195-2196 | copying any part at any place of what is held changes no frame that waits, and exactly those held |
| `RingSessions.FetchStep` | src/pcm_macros.h:2208-2209 | what is fetched at any time between begin and commit is what was found at the begin |
| `RingSessions.PlaybackCommitStep` | src/pcm.c:1049-1060 | committing all or part of what is held appends exactly what the application left there |
| `RingSessions.CaptureCommitStep` | src/pcm.c:1049-1060 | committing all or part of what is held takes exactly the oldest frames |
| `RingSessions.PlaybackConservation` | src/pcm.c:1025-1060 | conservation over every run in which the hardware moves between any begin, copy and commit, and commits may be partial |
| `RingSessions.PlaybackFifo` | src/pcm.c:1025-1060 | over such runs from an empty ring, what is played is a prefix of what was accepted and the rest waits |
| `RingSessions.CaptureConservation` | src/pcm.c:1025-1060 | the capture side of the conservation |
| `RingSessions.CaptureFifo` | src/pcm.c:1025-1060 | the capture side of the prefix |
| `RingSessions.WriteIsThreeSteps` | src/pcm_macros.h:2187-2198 | the library's interleaved write is a begin, one copy of all granted and one commit of it |
| `RingSessions.ReadIsThreeSteps` | src/pcm_macros.h:2200-2211 | the library's interleaved read is a begin, one fetch of all granted and one commit of it |
| `PcmDevice.Pcm.MmapBegin` | src/pcm.c:1025-1047 | in place, offset and frames granted, after an xrun too |
| `PcmDevice.Pcm.MmapCommit` | src/pcm.c:1049-1060 | moves the application pointer by the frames, wrapped, and nothing else |
| `PcmDevice.Pcm.MmapWriteI` | src/pcm_macros.h:2187-2198 | in place, the caller's frames become the newest waiting ones and the earlier ones are untouched |
| `PcmDevice.Pcm.MmapReadI` | src/pcm_macros.h:2200-2211 | in place, the caller's buffer begins with the oldest waiting frames, its remainder is untouched |
| `AreaCopy.AddressExact` | src/pcm_macros.h:2167-2173 | the address of a sample is the true one if and only if its bit offset is below 2^32 |
| `AreaCopy.AddressSteps` | src/pcm.c:738-742 | stepping by whole bytes from one sample reaches the address of each later one |
| `AreaCopy.BlockBytesExact` | src/pcm.c:732 | the 32-bit byte count of a block is the true one if and only if its bits are below 2^32 |
| `AreaCopy.CopyMoves` | src/pcm.c:735-742 | after the strided loop, every byte of every sample is the source's, when the two groups share no byte |
| `AreaCopy.CopyFrame` | src/pcm.c:735-742 | the strided loop changes no byte outside the destination samples |
| `AreaCopy.FillMoves` | src/pcm.c:630-634 | after the silence loop, every sample holds the pattern |
| `AreaCopy.FillFrame` | src/pcm.c:630-634 | the silence loop changes no byte outside the samples |
| `AreaCopy.BlockCopyIsLoop` | src/pcm.c:730-742 | one memcpy over dense samples leaves the same memory as the sample loop |
| `AreaCopy.RepeatedByteIsLoop` | src/pcm_misc.c:238-251 | one memset leaves the same memory as writing the pattern sample by sample |
| `AreaCopy.SetSilence` | src/pcm_misc.c:225-252 | dense silence, by memset or by loop, is the pattern in each sample |
| `AreaCopy.FillLoop` | src/pcm.c:630-634 | the silence loop, in place, is the strided fill |
| `AreaCopy.AreaSilence` | src/pcm.c:612-636 | nothing without an address; otherwise each sample of the area is silent, on either path |
| `AreaCopy.CopyDense` | src/pcm.c:730-734 | the dense path, in place, is the sample-by-sample copy |
| `AreaCopy.CopyLoop` | src/pcm.c:735-742 | the sample loop, in place, is the sample-by-sample copy |
| `AreaCopy.AreaCopy` | src/pcm.c:705-744 | all branches of one channel's copy: no destination, same place, no source, dense, strided |
| `AreaCopy.AreasCopy` | src/pcm.c:746-766 | -EINVAL and no change without channels or frames; otherwise all channels copied, for the 32-bit sample count; all frames exactly when there are fewer than 2^32 |
| `AreaCopy.ChannelsCopyMoves` | src/pcm.c:746-766 | every byte of every frame of every channel becomes the source's byte, or silence, counted in strides from the start |
| `AreaCopy.ChannelsCopyFrame` | src/pcm.c:746-766 | bytes of no destination stay as they were |
| `AreaCopy.InterleavedApart` | src/pcm_macros.h:2167-2173 | channels interleaved in one buffer never share a byte |
| `AreaLayouts.FramePlace` | src/pcm_macros.h:2167-2173 | the place that a copy steps to for frame f is the byte of that frame's own bit offset |
| `AreaLayouts.EveryFrameArrives` | src/pcm.c:746-766 | every byte of every frame of every channel goes from the address of that frame to the address of that frame, or is silent |
| `AreaLayouts.InterleavedTidy` | src/pcm_macros.h:2167-2173 | the channels of one interleaved buffer lie inside it, apart from each other |
| `AreaLayouts.PlanarTidy` | src/pcm_macros.h:2167-2173 | so do the channels of a buffer with a block for each |
| `AreaLayouts.BothSeparate` | src/pcm.c:746-766 | between buffers of the two layouts in different memory, copies in both directions meet every assumption made |
| `AreaLayouts.Unweave` | src/pcm.c:746-766 | copying an interleaved buffer to blocks takes the channels apart, frame by frame |
| `AreaLayouts.Weave` | src/pcm.c:746-766 | copying blocks to an interleaved buffer interleaves them |
| `AreaLayouts.WeaveUnweave` | src/pcm.c:746-766 | taken apart and interleaved again, every frame is what and where it was |
| `ChannelMaps.PageAlign` | src/pcm.c:773-781 | the least multiple of the page that is not less |
| `ChannelMaps.Pcm.Mmap` | src/pcm.c:783-844 | success maps every channel, at one address exactly when at one offset; each failure has its code and leaves this handle's mappings known with their sizes; other mappings are untouched |
| `ChannelMaps.Pcm.MapAll` | src/pcm.c:805-843 | the loop over the channels: all laid out, or the first failure's errno |
| `ChannelMaps.Pcm.MapGroup` | src/pcm.c:813-837 | one group at a fresh address with the size of its longest channel, or a failure without a trace |
| `ChannelMaps.Pcm.Munmap` | src/pcm.c:846-885 | releases each live mapping of this handle once, with the size it was mapped with, and no other; or stops at the release that fails |
| `ChannelMaps.Pcm.ReleaseGroup` | src/pcm.c:855-878 | one turn: the group is released with its own size, or only its first channel keeps the address |
| `ChannelMaps.RetrySize` | src/pcm.c:854-878 | after a failed release every later attempt asks for the right sizes if and only if the first channel alone spans as many pages as its group |
| `ChannelMaps.SizeAgrees` | src/pcm.c:860-876 | the size found again on release, after clearing part of the groups, is the size mapped |
| `ChannelMaps.NewGroup` | src/pcm.c:813-837 | mapping one more group keeps every earlier group's mapping and size |
| `ChannelMaps.SamplesCovered` | src/pcm.c:813-826 | every sample of every mapped channel lies inside its mapping |
| `ChannelMaps.MappingLeast` | src/pcm.c:811-826 | the size mapped is the least number of whole pages that holds every sample of its channels |
| `Bits.Ld2` | src/pcm_params.c:79-89 | the loop terminates with the position of the highest bit |
| `Bits.ClearLowest` | src/pcm_params.c:55-56 | `w & (w - 1)` is 0 if and only if w has one bit |
| `Masks.Mask.Clear` | src/pcm_macros.h:552-556 | the empty set |
| `Masks.Mask.Set` | src/pcm_macros.h:564-568 | adds one member, in its word and bit |
| `Masks.Mask.Reset` | src/pcm_macros.h:570-574 | removes one member |
| `Masks.Mask.Test` | src/pcm_macros.h:576-580 | the masked word, nonzero exactly for a member |
| `Masks.Mask.IsEmpty` | src/pcm_macros.h:582-590 | true exactly for the empty set |
| `Masks.Mask.IsSingle` | src/pcm_params.c:49-62 | true exactly when there are not two members |
| `Masks.Mask.LeaveSingle` | src/pcm_params.c:64-70 | intersection with one number |
| `Masks.Mask.ResetRange` | src/pcm_params.c:72-77 | removes exactly the members of the range |
| `Masks.Mask.GetMax` | src/pcm_params.c:91-99 | the greatest member, 0 if there is none |
| `Masks.Mask.GetMin` | src/pcm_params.c:101-109 | the least member, 0 if there is none |
| `Masks.LeastGreatest` | src/pcm_params.c:91-109 | least and greatest are members and bound all others |
| `Masks.Mask.Refine` | src/pcm_params.c:122-131 | intersection, with itself too; -EINVAL exactly when empty, 0 exactly when unchanged, and otherwise a negative result |
| `Masks.NarrowedIsLess` | src/pcm_params.c:130 | memcmp of a narrowed mask and what it was is never positive, and 0 exactly when nothing went |
| `Masks.Mask.RefineFirst` | src/pcm_params.c:133-141 | in the words, what the set operation says: only the least member stays |
| `Masks.Mask.RefineLast` | src/pcm_params.c:143-151 | only the greatest member stays |
| `Masks.Mask.RefineMin` | src/pcm_params.c:153-163 | the members from the bound up stay |
| `Masks.Mask.RefineMax` | src/pcm_params.c:165-175 | the members up to the bound stay |
| `Masks.Mask.RefineSet` | src/pcm_params.c:177-187 | only the value stays, if it is a member |
| `Masks.SameMembers` | src/pcm_params.c:130 | comparing words is comparing sets |
| `IntervalCell.Cell.Any` | src/pcm_params.c:193-201 | the full range |
| `IntervalCell.Cell.RaiseLow` | src/pcm_params.c:231-258 | in place, the lower refinement |
| `IntervalCell.Cell.LowerHigh` | src/pcm_params.c:260-287 | in place, the upper refinement |
| `IntervalCell.Cell.Intersect` | src/pcm_params.c:289-303 | in place, the refinement by an interval |
| `IntervalCell.Cell.KeepFirst` | src/pcm_params.c:305-316 | in place, the low end, as `IntervalEnds.FirstExact` describes it |
| `IntervalCell.Cell.KeepLast` | src/pcm_params.c:318-329 | in place, the high end, as `IntervalEnds.LastExact` describes it |
| `IntervalCell.Cell.KeepOnly` | src/pcm_params.c:331-339 | in place, one value |
| `Intervals.RefineMinExact` | src/pcm_params.c:231-258 | exactly the members above the bound stay, integers only when asked; 0 means unchanged |
| `Intervals.RefineMaxExact` | src/pcm_params.c:260-287 | exactly the members below the bound stay |
| `Intervals.RefineMinShape` | src/pcm_params.c:221-258 | failure exactly when the bounds cross, which is when the emptiness flag is set; integer intervals are left closed |
| `Intervals.RefineIntersects` | src/pcm_params.c:289-303 | a number is kept if and only if it is in both intervals |
| `Intervals.RefineFailsOnDisjoint` | src/pcm_params.c:289-303 | failure if and only if there is no common member |
| `Intervals.RefineExact` | src/pcm_params.c:289-303 | exact intersection over all reals, failure exactly when empty, 0 only when unchanged |
| `Intervals.EndsNarrow` | src/pcm_params.c:305-329 | choosing an end of a closed interval leaves a nonempty single part of it |
| `IntervalEnds.FirstExact` | src/pcm_params.c:305-316 | the low end keeps exactly the least member or, without one, the first unit's members; and tells a change |
| `IntervalEnds.LastExact` | src/pcm_params.c:318-329 | the same for the high end |
| `IntervalEnds.KeptBelowDropped` | src/pcm_params.c:305-329 | each member kept lies below (above) each member dropped |
| `IntervalEnds.SingleMeaning` | src/pcm_params.c:211-215 | single means that all members have one integer part |
| `IntervalEnds.SingleInteger` | src/pcm_params.c:211-215 | and for integers that there is one member |
| `IntervalEnds.MinTells` | src/pcm_params.c:231-258 | result 0 exactly when nothing changed, -EINVAL exactly when nothing is left |
| `IntervalEnds.MaxTells` | src/pcm_params.c:260-287 | the same for the upper refinement |
| `IntervalEnds.IntersectTells` | src/pcm_params.c:289-303 | and for the intersection |
| `IntervalEnds.EmptyStays` | src/pcm_params.c:235-236 | -ENOENT and no change for an interval marked empty |
| `Intervals.SinglePersists` | src/pcm_params.c:211-215 | a nonempty part of a single interval is single |
| `Intervals.ImpossibleRequests` | src/pcm_params.c:249-254 | an impossible bound is refused if and only if nothing makes the interval an integer one |
| `HwParams.ParamBlock.TrySetMin` | src/pcm_params.c:554-567 | success is the local step and the kernel's; any failure leaves the whole structure as before |
| `HwParams.ParamBlock.TrySetMax` | src/pcm_params.c:587-600 | the same for a maximum |
| `HwParams.ParamBlock.TrySetMinMax` | src/pcm_params.c:617-638 | the same for both, also when only the second fails |
| `HwParams.ParamBlock.TrySet` | src/pcm_params.c:680-689 | the same for a value |
| `HwParams.ParamBlock.TestSet` | src/pcm_params.c:691-698 | the result of setting, with the structure as before in any case |
| `HwParams.ParamBlock.TrySetInteger` | src/pcm_params.c:700-718 | result and structure in each case; a failure restores everything if and only if the emptiness flag was right before |
| `HwParams.ParamBlock.ChooseFirst` | src/pcm_params.c:748-756 | in place, the low end and the kernel's step, without rollback |
| `HwParams.ParamBlock.ChooseLast` | src/pcm_params.c:758-766 | in place, the high end and the kernel's step, without rollback |
| `HwMeaning.MinKeeps` | src/pcm_params.c:516-533 | a minimum keeps exactly the values that meet it, for every direction, changes no other variable, and tells a change |
| `HwMeaning.MaxKeeps` | src/pcm_params.c:569-585 | the same for a maximum |
| `HwMeaning.MinMaxKeeps` | src/pcm_params.c:602-615 | both together keep exactly the values that meet both |
| `HwMeaning.BothSteps` | src/pcm_params.c:602-615 | the maximum is asked of what the minimum left, and the codes are joined |
| `HwMeaning.SetKeeps` | src/pcm_params.c:640-678 | a value keeps exactly itself, or the open unit beside it; a value below 0 is refused |
| `HwMeaning.MasksKeep` | src/pcm_params.c:133-187 | which members each mask request keeps |
| `HwMeaning.MasksTell` | src/pcm_params.c:133-187 | and which codes it returns |
| `HwMeaning.KernelAsked` | src/pcm_params.c:535-552 | exactly what the kernel is asked: a change marks its variable in both words; and how its answer is taken |
| `HwMeaning.MinReported` | src/pcm_params.c:474-493 | what a minimum hands back is the low end of what is left, with direction 1 exactly when that is open |
| `HwMeaning.MaxReported` | src/pcm_params.c:495-514 | the same for the high end, with direction -1 |
| `HwMeaning.FirstReported` | src/pcm_params.c:449-472 | a decided variable is handed back by its low end |
| `HwMeaning.LastReported` | src/pcm_params.c:449-472 | also after the choice of the last value |
| `HwParams.StepCode` | src/pcm_params.c:535-552 | the local change and the kernel's step report 0 or an error |
| `Negotiation.UpdateNarrows` | src/pcm_params.c:535-552 | a successful kernel step keeps something of every variable and adds nothing to any |
| `Negotiation.NarrowingExists` | src/pcm_params.c:535-552 | kernels as assumed exist |
| `Negotiation.FirstNarrows` | src/pcm_params.c:748-756 | a successful choice leaves a nonempty subset of every variable, and the chosen one single, with no lower member left out but in the unit of an end that has no least one |
| `Negotiation.LastNarrows` | src/pcm_params.c:758-766 | the same at the high end |
| `Negotiation.MinNarrows` | src/pcm_params.c:554-567 | a successful minimum narrows everything and every value left meets it |
| `Negotiation.MaxNarrows` | src/pcm_params.c:587-600 | a successful maximum narrows everything and every value left meets it |
| `Negotiation.SetNarrows` | src/pcm_params.c:640-689 | a value that was set narrows everything and is the only one left, or lies strictly beyond it in the direction |
| `Negotiation.SinglesStay` | src/pcm_params.c:535-552 | later narrowing steps keep a decided variable decided |
| `Negotiation.ChoiceDecides` | src/pcm_params.c:874-906 | after any finished list of choices all chosen variables are single and the result is a subset of the input |
| `Negotiation.ChoiceChain` | src/pcm_params.c:893-905 | between the choices of a finished list lies a chain of configurations, each one choice from the one before |
| `Negotiation.ChooseEach` | src/pcm_params.c:893-905 | the loop makes the choices in order up to the first failure |
| `Negotiation.ChooseParams` | src/pcm_params.c:874-906 | in place, a result of 0 leaves variables 0, 1, 2, 10, 11, 17, 13, 12, 19 single, chosen in this order, each at its low end but 17 at its high end, and a subset of the input, for every narrowing kernel |
| `Nearest.ChooseSideInPlace` | src/pcm_params.c:841-860 | in place, which side is taken and which structure is kept |
| `Nearest.SetNearInPlace` | src/pcm_params.c:809-867 | in place, the whole search with saved and restored structures |
| `NearestChoice.NearerIsCloser` | src/pcm_params.c:770-807 | the comparison in wrapped arithmetic is the comparison of the true distances |
| `NearestSides.OrderOfBounds` | src/pcm_params.c:783-796 | bounds with directions are ordered by half steps |
| `NearestSides.DifferenceIs` | src/pcm_params.c:770-781 | their difference in half steps, with opposite directions counted as three |
| `NearestSides.NearerIs` | src/pcm_params.c:798-807 | nearer, for every direction, is the lesser such distance |
| `NearestSides.LowerIsTheRest` | src/pcm_params.c:825-832 | when nothing lies above, the side below is exactly the rest, for every direction |
| `NearestChoice.UpStep` | src/pcm_params.c:835 | the upward half succeeds exactly when an allowed value lies at or above the target, with their hull |
| `NearestChoice.DownStep` | src/pcm_params.c:846-856 | the downward half succeeds exactly when an allowed value lies below the target, with their hull |
| `NearestChoice.NearChoosesNearest` | src/pcm_params.c:809-867 | for every target from 1 up the search ends, decided, on the allowed value nearest to it, ties upward, a lone value above first |
| `NearestChoice.NearAtZero` | src/pcm_params.c:809-867 | for target 0 it ends, decided, on the nearest value if and only if a condition on the ends holds, and otherwise on the greatest |
| `NearestChoice.NearAtZeroFails` | src/pcm_params.c:846-853 | two allowed values for which it ends on the farther one |
| `NearestChoice.HullKernelExists` | src/pcm_params.c:545-549 | for any allowed values there is a kernel as assumed |
| `TlvParse.ParseDbInfo` | src/control.c:397-436 | the code, in place, is the reading of arbitrary words |
| `TlvParse.ParseContainer` | src/control.c:412-424 | its loop over the entries of a container, likewise |
| `TlvParse.Parse` | src/control.c:397-436 | for arbitrary words: either some entry has fewer than eight bytes left, or all reads stay inside what was given and what is found is a whole decibel entry inside it |
| `TlvParse.ParseTree` | src/control.c:397-436 | for every well-formed tree no entry is short, and the result is the first decibel entry in document order with its size, or the error if a container ends first |
| `TlvParse.EntryTypes` | src/control.c:411-435 | what an entry does, by its type number |
| `TlvParse.SizeReturned` | src/control.c:433 | the size comes back positive if and only if it fits an int |
| `TlvParse.ShortEntry` | src/control.c:412-424 | three words whose nested entry has no size word |
| `TlvParse.FoundInside` | src/control.c:425-433 | what is found lies inside the tree's words with its whole size and is a decibel entry |
| `DbConvert.RoundUpIsLeast` | src/control.c:664-709 | rounding up gives the least volume whose gain is at least the one asked for, mute included |
| `DbConvert.RoundDownIsBelow` | src/control.c:664-709 | rounding down gives a volume whose gain is at most the one asked for; for a scale the greatest |
| `DbConvert.RoundDownGreatestAt` | src/control.c:664-682 | gain by gain: for a min/max entry rounding down gives the greatest such volume if and only if the remainder of its division leaves room for one more raw span |
| `DbConvert.RoundDownGreatest` | src/control.c:664-682 | for every gain of the range, if and only if the raw span divides the gain span |
| `DbConvert.RoundDownNotGreatest` | src/control.c:664-682 | an entry and a gain for which it does not |
| `DbConvert.TopGain` | src/control.c:592-603 | the top of the reported range is reached by the last volume and by no other |
| `DbConvert.EndGains` | src/control.c:592-624 | the reported range is the gains of the two end volumes |
| `DbConvert.GainOutside` | src/control.c:668-674 | gains at or outside the ends give the end volumes, or the one above silence |
| `DbConvert.ScaleRoundTrip` | src/control.c:684-696 | a scale gives every volume back, rounding either way |
| `DbConvert.InnerRoundTrip` | src/control.c:698-709 | an inner volume of a min/max entry comes back exactly under a condition on its quotient |
| `DbConvert.MinMaxRoundTrip` | src/control.c:698-709 | rounding up gives every volume back if and only if the gain span is at least the raw span, or one less with mute |
| `DbConvert.MinMaxRoundTripDown` | src/control.c:698-709 | rounding down then loses at most one step |
| `DbSegments.RangeToDb` | src/control.c:440-460 | in the words: the gain that the words of the first covering segment give, by type, at its ends and between; -EINVAL exactly without one or when the entry is too large |
| `DbSegments.RangeDbRange` | src/control.c:554-590 | in the words: the least and the greatest of the bounds that the words of the visited segments give; the caller's values without any |
| `DbSegments.SegmentWords` | src/control.c:450-457 | where in the buffer each segment's low and high volume, type, size and entry stand |
| `DbSegments.LookupInWords` | src/control.c:452-455 | the lookup gives the first covering segment's gain, in words, and none only without one |
| `DbSegments.GainsInWords` | src/control.c:564-589 | the walk's bounds are the extremes of those of the segments visited, in words |
| `DbWords.ReadBack` | src/control.c:467-469 | entries of types 4, 5 and 1 written as unsigned words read back as they were; other bits of a scale's word change nothing |
| `DbWords.OnlyThreeTypes` | src/control.c:534-549 | no other type is a scale or a min/max entry |
| `DbWords.EntryGain` | src/control.c:462-495 | the gain in numbers: the straight line between the two words, silence, or equal steps |
| `DbWords.EntryBounds` | src/control.c:592-624 | the bounds in numbers, by type |
| `DbSegments.GainInClipped` | src/control.c:592-624 | a covered volume's gain lies in the clipped range of its segment |
| `DbSegments.GainsContainLookup` | src/control.c:554-590 | every gain that a volume up to the end can have lies in the reported range, although segments are clipped and the walk stops early |
| `DbSegments.GainsAttained` | src/control.c:554-590 | and that range is no wider than the segments visited: each bound is the clipped bound of one of them |
| `ChannelNames.NamesDistinct` | src/pcm.c:1303-1318 | no two positions have one name |
| `ChannelMapText.PrintMap` | src/pcm.c:1361-1392 | the text of any map whose positions have names, or -ENOMEM exactly when it does not fit with its terminator |
| `ChannelMapText.StrToPositionLoop` | src/pcm.c:1394-1431 | in its loop over the names, the reading of one word |
| `ChannelMapText.ParseOneLoop` | src/pcm.c:1450-1468 | one word, its suffix, and what follows |
| `ChannelMapText.ParseString` | src/pcm.c:1438-1479 | the whole parse, in its own loop, gives what reading one word after the other gives |
| `ChannelMapText.NumberBack` | src/pcm.c:1400-1412 | strtoul reads a printed number back and stops behind it |
| `ChannelMapText.OnlyOwnName` | src/pcm.c:1414-1424 | of all names only its own matches a printed one, prefixes included |
| `ChannelMapText.WordBack` | src/pcm.c:1394-1431 | a printed position is read as itself, with and without suffix behind it |
| `ChannelMapText.TextBack` | src/pcm.c:1438-1479 | parsing a printed map after ch positions gives it back, or nothing when 64 are exceeded |
| `ChannelMapText.MapRoundTrip` | src/pcm.c:1361-1479 | parsing what was printed gives back every number and flag for up to 64 channels and nothing for more; exactly the map if and only if there were no other bits |
| `ChannelMapCase.MapInAnyCase` | src/pcm.c:1417-1421 | a printed map respelled in either case outside the suffixes is read as the map |
| `ChannelMapCase.AnyCase` | src/pcm.c:1394-1469 | any two texts that differ only in the case of letters outside the suffixes are read alike |
| `ChannelMapCase.AnySeparators` | src/pcm.c:1467-1470 | any characters but letters and digits separate the words and may follow the last |
| `ChannelMapCase.LetterWord` | src/pcm.c:1413-1429 | a word is the first name it says in either case, with the flag if the suffix follows, and refused exactly when it says none |
| `ChannelMapCase.Refused` | src/pcm.c:1450-1457 | a text is refused whose first word is empty or says no name |
| `ChannelMapCase.NumberedWord` | src/pcm.c:1407-1412 | "ch" in either case and a number is that number without the driver's flag |
| `ChannelMapCase.DriverNumber` | src/pcm.c:1400-1406 | a driver's number in base sixteen or eight is that number |
| `ChannelMapCase.NumberRefused` | src/pcm.c:1400-1406 | a number is refused exactly when it is too long or negative as an int |
| `ChannelMapCase.HexBack` | src/pcm.c:1401 | strtoul after 0x, in base sixteen, saturated |
| `ChannelMapCase.OctalBack` | src/pcm.c:1401 | strtoul after 0, in base eight, saturated |
| `ChannelMapCase.TenBack` | src/pcm.c:1401 | strtoul otherwise, in base ten, saturated |
| `ChannelMapCase.BlanksAndSigns` | src/pcm.c:1408 | strtoul passes over blanks and takes a sign |
| `ChannelMapCase.PrintedText` | src/pcm.c:1365-1390 | a printed map, character by character |
| `MixerVolume.ConversionsMonotone` | src/mixer.c:267-291 | both conversions keep order, stay in range and map ends to ends |
| `MixerVolume.ConversionsExact` | src/mixer.c:267-291 | both conversions are straight lines rounded down; equal ranges change nothing |
| `MixerVolume.RawRoundTrip` | src/mixer.c:267-291 | raw to user to raw never rises and falls by at most the raw steps of one user step, rounded up |
| `MixerVolume.StepKeepsValid` | src/mixer.c:634-834 | every step keeps the cached raw values equal to the device's, user values in range, and each user value the conversion of its raw value or the other way round |
| `MixerVolume.CacheAgrees` | src/mixer.c:634-834 | the same in every reachable state |
| `MixerVolume.UpdateCases` | src/mixer.c:788-797 | one update: ignored outside the range or when set already, otherwise cached, and written where the raw value differs |
| `MixerVolume.UpdateAllAt` | src/mixer.c:806-818 | an update of all channels, channel by channel |
| `MixerVolume.Recomputed` | src/mixer.c:820-834 | a new range and a device report compute every user value from the raw one |
| `MixerVolume.SetThenRefresh` | src/mixer.c:634-799 | a new volume reads back as set; after the device's report it is never higher, and lower by at most a bound |
| `MixerVolume.FailedUpdateSticks` | src/mixer.c:788-803 | after a failed device write cache and device differ, asking again does nothing, and the next report repairs it |
| `MixerItems.VolumeItem.Update` | src/mixer.c:781-804 | in place, cache, device and result of one update: ignored, cached only, written, or failed at the device |
| `MixerItems.VolumeItem.UpdateEach` | src/mixer.c:806-818 | in place, every channel, or those up to the first that fails |
| `MixerItems.VolumeItem.Rescale` | src/mixer.c:820-834 | in place, user values computed anew, raw values untouched |
| `MixerItems.VolumeItem.HandleValue` | src/mixer.c:634-650 | in place, the cache taken from the device; reports a change exactly when something cached changed |
| `MixerItems.SwitchItem.HandleValue` | src/mixer.c:655-669 | each bit is the device's value, no other bit is set; reports a change exactly when the word changed |
| `MixerItems.SwitchItem.Update` | src/mixer.c:855-880 | one channel is set, the others are kept, and the bits still agree with the device; or the device failed and that one bit does not |
| `MixerItems.SwitchItem.UpdateEach` | src/mixer.c:889-902 | every channel is set, or those up to the first that fails |
| `MixerTable.AddKeepsUnique` | src/mixer.c:554-575 | a new element's index is one that no element of its name has |
| `MixerTable.AddedIsThere` | src/mixer.c:554-575 | an added control can be found in an element of its name, in its slot |
| `MixerTable.AddFrame` | src/mixer.c:554-575 | one element differs: the first of the name with the slot free, in that slot alone (two for both directions), or a new one, otherwise empty, whose index is one more than the greatest of its name |
| `MixerTable.RemoveKeepsUnique` | src/mixer.c:583-629 | a removal makes no two elements share name and index |
| `MixerTable.RemoveFrame` | src/mixer.c:588-628 | only the control's own slots are cleared; the element goes exactly when it is to and nothing else is left in it |
| `MixerTable.SortKeepsUnique` | src/mixer.c:155-164 | nor does a sort |
| `MixerTable.IdsStayUnique` | src/mixer.c:155-629 | over any sequence of additions, removals and sorts no two elements share name and index |
| `MixerTable.Mixer.Reorder` | src/mixer.c:155-164 | in place, the permuted table, every element numbered by its place |
| `MixerTable.Mixer.AddControl` | src/mixer.c:550-575 | in place, the control in a free slot of its name or in a new element, all else as it was, with the callback's result; or -ENOMEM and no change |
| `MixerTable.Mixer.RemoveElem` | src/mixer.c:184-201 | in place, the element is gone, the order of the others is kept, and they are numbered anew |
| `MixerTable.Mixer.RemoveControl` | src/mixer.c:583-629 | in place, the control's slots are cleared and no other, and the element goes with its last control if it is to |
| `ControlList.EventKeepsUnique` | src/hcontrol.c:213-249 | no event makes a key appear twice or touches another key |
| `ControlList.EventLaw` | src/hcontrol.c:213-249 | what one event of each kind does to the list, and its result: -EBUSY, -ENOENT, the failing callback's answer, or 0 |
| `ControlList.KeysStayUnique` | src/hcontrol.c:213-249 | over any run of events, failed ones included, keys stay distinct |
| `ControlList.LoadKeepsUnique` | src/hcontrol.c:193-202 | after loading, keys are distinct if and only if the listed ones are distinct and new |
| `ControlList.FirstIndex` | src/hcontrol.c:161-172 | the first node with the key |
| `ControlList.ControlHandle.Append` | src/hcontrol.c:103-113 | the linked list is the old sequence with the element at its end |
| `ControlList.ControlHandle.Delete` | src/hcontrol.c:115-126 | the linked list is the old sequence without the element |
| `ControlList.ControlHandle.Find` | src/hcontrol.c:161-172 | the first element with the key, null exactly when there is none |
| `ControlList.ControlHandle.AddElem` | src/hcontrol.c:128-134 | -EBUSY and no change for a known key, otherwise appended |
| `ControlList.ControlHandle.Free` | src/hcontrol.c:147-152 | terminates with the list empty |
| `ControlList.ControlHandle.Load` | src/hcontrol.c:174-211 | the listed controls appended in order; or, when listing, allocating or subscribing fails, its code and nothing left at all |
| `ControlList.ControlHandle.Handle` | src/hcontrol.c:213-249 | in place, list and result after one event, in numbers: an unknown key added at the end, the first occurrence removed, or the list as it was |
| `ControlList.ControlHandle.ReadForward` | src/hcontrol.c:165 | the forward links read the keys in order |
| `ControlList.ControlHandle.ReadBackward` | src/hcontrol.c:103-126 | the backward links read the same keys the other way round |

## Left out

- Opening, closing, polling, ioctl calls, signal handling, device names, card scanning: input and output.
- The sequencer, raw MIDI, timer, hwdep and configuration stubs, and the accessors of structures: nothing to prove beyond a field.
- `tlv_from_dB_range` (src/control.c:629-662): it steps over a segment's bounds twice, so there is no inverse of the segment lookup to prove.
- `get_tlv_info` (src/control.c:773-787): it never fills its buffer.
- Floating-point decibel entries (src/control.c:498-522, src/control.c:712-735): not exact arithmetic.
- 4-bit areas (src/pcm.c:580-703): nibbles are not shifted when the alignments differ.
- `snd_pcm_areas_silence` (src/pcm.c:638-649): one call of the silence routine for each channel.
- Names of elements: suffixes and aliases (src/mixer.c:501-520) are applied before the model's name is known.
- Capability flags and channel counts of mixer elements (src/mixer.c:296-317), and who owns an item that a control for both directions overwrites.
- Enumerated mixer items, and decibel caches of mixer items.
- The format table: finite, settled by reading.
- `_snd_pcm_hw_param_set_mask` (src/pcm_params.c:720-730): a mask refinement followed by the kernel's step, without rollback.
- HwParams.ParamBlock.TrySet: masks inside the parameter structure are sets; that the words compute the same sets is proved in `Masks`.
- Nearest.SetNearInPlace: interval variables only; on a mask variable the source reads an interval that is not there.
- NearestChoice.NearChoosesNearest: direction 0 only; a value strictly between two integers means nothing for an integer variable.
- ChannelMapText.StrToPositionLoop: no locale, and no binary prefix in strtoul.
- ControlList.ControlHandle.Free: the callbacks' results, which the source ignores, do not appear.
- PcmDevice.Pcm.MmapBegin: stop thresholds and xrun states are not looked at, as in the source's own function; the callers that report them are input and output.
- DbSegments.RangeToDb: a segment here is a scale or a min/max entry; a linear entry (floating point) and a range nested in a range are not modelled.
- DbSegments.RangeDbRange: the same segments.
- TlvParse.Parse: where an entry is short the model stops, and says nothing of what the code does with words beyond its buffer.
- HwParams.ParamBlock.TrySetMin: for a mask, values up to 256; a greater one makes the source clear words past the mask.
- Masks.Mask.Refine: of memcmp's result when something changed only the sign is stated.
- ChannelMaps.Pcm.Mmap: when an earlier release failed, the mappings it left are forgotten, as in the source; that the old area table is kept when the first allocation then fails is not modelled.
- MixerItems.VolumeItem.Update: an item that is missing (-EINVAL) is not modelled.
- MixerItems.SwitchItem.Update: an item that is missing (-EINVAL) is not modelled.
- MixerTable.Mixer.AddControl: whether the control serves both directions is an argument.
- ControlList.ControlHandle.Load: callbacks do not change the list, and the source ignores their results.
- ControlList.ControlHandle.Handle: the allocation of a new element succeeds.
