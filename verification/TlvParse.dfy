/** Finding the decibel information in a type-length-value tree laid out in 32-bit words. */
module TlvParse {
  import opened Arith
  import opened Options

  const CONTAINER: Word := 0
  const DB_SCALE: Word := 1
  const DB_LINEAR: Word := 2
  const DB_RANGE: Word := 3
  const DB_MINMAX: Word := 4
  const DB_MINMAX_MUTE: Word := 5

  const MUTE: int := -9999999

  /** Words needed for that many bytes. */
  function IntIndex(size: nat): (words: nat)
    ensures 4 * words - 4 < size <= 4 * words
  {
    (size + 3) / 4
  }

  /** An entry: its byte size need not be a multiple of 4, its words are padded. */
  datatype Tlv = Leaf(typ: Word, size: Word, payload: seq<Word>) | Container(size: Word, children: seq<Tlv>)

  function Encode(t: Tlv): (words: seq<Word>)
    ensures |words| >= 2 && words[1] == t.size && words[0] == (if t.Leaf? then t.typ else CONTAINER)
  {
    match t
    case Leaf(typ, size, payload) => [typ, size] + payload
    case Container(size, children) => [CONTAINER, size] + EncodeAll(children)
  }

  function EncodeAll(ts: seq<Tlv>): seq<Word> {
    if ts == [] then [] else Encode(ts[0]) + EncodeAll(ts[1..])
  }

  /** Every size says how long its entry is. */
  ghost predicate WellFormed(t: Tlv) {
    match t
    case Leaf(typ, size, payload) => typ != CONTAINER && |payload| == IntIndex(size)
    case Container(size, children) => |EncodeAll(children)| == IntIndex(size) && AllWellFormed(children)
  }

  ghost predicate AllWellFormed(ts: seq<Tlv>) {
    ts == [] || (WellFormed(ts[0]) && AllWellFormed(ts[1..]))
  }

  predicate IsDb(typ: Word, float: bool) {
    typ == DB_SCALE || typ == DB_MINMAX || typ == DB_MINMAX_MUTE || typ == DB_RANGE || (typ == DB_LINEAR && float)
  }

  // ---------------------------------------------------------------- any words

  /** How a reading ends: at an entry of whose eight bytes of type and size not all are left, so
      that the code reads on beyond what it was given; or with a result and a place. */
  datatype Outcome = Short | Done(ret: int, db: Option<nat>)

  /** Reading the entry at word `at`, of which `tlvSize` bytes may be used, whatever the words are. */
  function Parse(buf: seq<Word>, at: nat, tlvSize: nat, float: bool): (r: Outcome)
    requires at + IntIndex(tlvSize) <= |buf| && tlvSize < UINT_RANGE
    ensures r == Done(0, None) ==> 8 <= tlvSize && buf[at + 1] <= tlvSize - 8
    ensures r.Done? && r.db.Some? ==> r.ret != 0 && DbEntryInside(buf, at, tlvSize, r.db.value, r.ret, float)
    ensures r.Done? && r.ret == 0 ==> r.db.None?
    decreases tlvSize, 0
  {
    if tlvSize < 8 then Short
    else if buf[at + 1] > tlvSize - 8 then Done(-EINVAL, None)
    else if buf[at] == CONTAINER then ParseAll(buf, at + 2, IntIndex(buf[at + 1]) * 4, float)
    else if IsDb(buf[at], float) then Done(ToInt(buf[at + 1] + 8), Some(at))
    else Done(0, None)
  }

  /** Reading the entries of a container of which `left` bytes remain. */
  function ParseAll(buf: seq<Word>, at: nat, left: nat, float: bool): (r: Outcome)
    requires at + IntIndex(left) <= |buf| && left < UINT_RANGE && left % 4 == 0
    ensures r.Done? ==> r.ret != 0
    ensures r.Done? && r.db.Some? ==> DbEntryInside(buf, at, left, r.db.value, r.ret, float)
    decreases left, 1
  {
    if left == 0 then Done(-EINVAL, None)
    else
      var r := Parse(buf, at, left, float);
      if r.Short? || r.ret != 0 then r
      else
        var len := IntIndex(buf[at + 1]) + 2;
        ParseAll(buf, at + len, left - len * 4, float)
  }

  /** A place inside the words given that holds a decibel entry, whole, of the size returned. */
  predicate DbEntryInside(buf: seq<Word>, at: nat, bytes: nat, place: nat, ret: int, float: bool) {
    && at <= place && place + 2 <= at + IntIndex(bytes) <= |buf|
    && place + 2 + IntIndex(buf[place + 1]) <= at + IntIndex(bytes)
    && IsDb(buf[place], float) && ret == ToInt(buf[place + 1] as int + 8)
  }

  /** What an entry whose words are all there is, by its type: a container is 0, decibel information
      1, 3, 4, 5 and, with floating point, 2; any other is passed over. */
  lemma {:induction false} EntryTypes(buf: seq<Word>, at: nat, tlvSize: nat, float: bool)
    requires at + IntIndex(tlvSize) <= |buf| && 8 <= tlvSize < UINT_RANGE && buf[at + 1] <= tlvSize - 8
    ensures var typ, r := buf[at], Parse(buf, at, tlvSize, float);
            if typ == 1 || typ == 3 || typ == 4 || typ == 5 || (typ == 2 && float)
            then r == Done(ToInt(buf[at + 1] as int + 8), Some(at))
            else if typ == 0 then r == ParseAll(buf, at + 2, 4 * IntIndex(buf[at + 1]), float)
            else r == Done(0, None)
  {
  }

  /** The result is the positive size of what was found exactly while that fits an int. */
  lemma {:induction false} SizeReturned(buf: seq<Word>, at: nat, tlvSize: nat, float: bool)
    requires at + IntIndex(tlvSize) <= |buf| && tlvSize < UINT_RANGE
    ensures var r := Parse(buf, at, tlvSize, float);
            r.Done? && r.db.Some? ==> (r.ret > 0 <==> buf[r.db.value + 1] + 8 <= INT_MAX)
  {
  }

  /** Words in which a container is one word long: its only entry has no size word. */
  lemma {:induction false} ShortEntry(x: Word, float: bool)
    ensures Parse([CONTAINER, 4, x], 0, 12, float) == Short
  {
    var buf := [CONTAINER, 4, x];
    assert buf[1] == 4 && buf[0] == CONTAINER;
    assert IntIndex(12) == 3 && IntIndex(4) * 4 == 4;
    assert ParseAll(buf, 2, 4, float) == Short;
  }

  // ---------------------------------------------------------------- in document order

  /** The places where a reading of the tree, entry after entry, may stop: at decibel
      information, and at the end of a container. */
  datatype Stop = Found(at: nat, bytes: nat) | EndOfContainer

  ghost function Stops(t: Tlv, at: nat, float: bool): seq<Stop> {
    match t
    case Leaf(typ, size, _) => if IsDb(typ, float) then [Found(at, size + 8)] else []
    case Container(_, children) => AllStops(children, at + 2, float) + [EndOfContainer]
  }

  ghost function AllStops(ts: seq<Tlv>, at: nat, float: bool): seq<Stop> {
    if ts == [] then [] else Stops(ts[0], at, float) + AllStops(ts[1..], at + |Encode(ts[0])|, float)
  }

  /** The answer that belongs to the first stop. A size is returned as an int. */
  ghost function Answer(stops: seq<Stop>): Outcome {
    if stops == [] then Done(0, None)
    else match stops[0]
      case Found(at, bytes) => Done(ToInt(bytes), Some(at))
      case EndOfContainer => Done(-EINVAL, None)
  }

  lemma {:induction false} EncodedLength(t: Tlv)
    requires WellFormed(t)
    ensures |Encode(t)| == 2 + IntIndex(t.size)
  {
  }

  /** The entries are in the buffer, one after the other. */
  ghost predicate Laid(buf: seq<Word>, at: nat, ts: seq<Tlv>) {
    at + |EncodeAll(ts)| <= |buf| && buf[at..at + |EncodeAll(ts)|] == EncodeAll(ts)
  }

  /** A place where decibel information is found lies inside the tree's words, with its whole
      size, and has the type and size words of such an entry. */
  ghost predicate DbEntryAt(words: seq<Word>, at: nat, s: Stop, float: bool) {
    s.Found? ==>
      && at <= s.at && 8 <= s.bytes && s.at - at + 2 + IntIndex(s.bytes - 8) <= |words|
      && IsDb(words[s.at - at], float) && words[s.at - at + 1] == s.bytes - 8
  }

  lemma {:induction false} DbEntryWithin(all: seq<Word>, n: nat, words: seq<Word>, at: nat, s: Stop, float: bool)
    requires n + |words| <= |all| && all[n..n + |words|] == words
    requires DbEntryAt(words, at + n, s, float)
    ensures DbEntryAt(all, at, s, float)
  {
    if s.Found? {
      var i := s.at - at - n;
      assert all[n..n + |words|][i] == all[n + i];
      assert all[n..n + |words|][i + 1] == all[n + i + 1];
    }
  }

  lemma {:induction false} FoundInside(t: Tlv, at: nat, s: Stop, float: bool)
    requires WellFormed(t) && s in Stops(t, at, float)
    ensures DbEntryAt(Encode(t), at, s, float)
  {
    if t.Container? && s != EndOfContainer {
      AllFoundInside(t.children, at + 2, s, float);
      DbEntryWithin(Encode(t), 2, EncodeAll(t.children), at, s, float);
    }
  }

  lemma {:induction false} AllFoundInside(ts: seq<Tlv>, at: nat, s: Stop, float: bool)
    requires AllWellFormed(ts) && s in AllStops(ts, at, float)
    ensures DbEntryAt(EncodeAll(ts), at, s, float)
  {
    hide DbEntryAt, WellFormed;
    var first, others, all := Encode(ts[0]), EncodeAll(ts[1..]), EncodeAll(ts);
    assert all[0..0 + |first|] == first && all[|first|..|first| + |others|] == others;
    if s in Stops(ts[0], at, float) {
      FoundInside(ts[0], at, s, float);
      DbEntryWithin(all, 0, first, at, s, float);
    } else {
      AllFoundInside(ts[1..], at + |first|, s, float);
      DbEntryWithin(all, |first|, others, at, s, float);
    }
  }

  /** The first child's words, and the others' behind them. */
  lemma {:induction false} ChildWords(buf: seq<Word>, at: nat, ts: seq<Tlv>)
    requires ts != [] && Laid(buf, at, ts)
    ensures var n := |Encode(ts[0])|;
            && n + |EncodeAll(ts[1..])| == |EncodeAll(ts)|
            && at + n <= |buf| && buf[at..at + n] == Encode(ts[0]) && buf[at + 1] == ts[0].size
            && Laid(buf, at + n, ts[1..])
  {
    var all, n := EncodeAll(ts), |Encode(ts[0])|;
    assert all[..n] == Encode(ts[0]) && all[n..] == EncodeAll(ts[1..]);
    assert buf[at..at + n] == buf[at..at + |all|][..n];
    assert buf[at..at + n][1] == buf[at + 1];
    assert buf[at + n..at + |all|] == buf[at..at + |all|][n..];
  }

  /** The answer is the first child's, or, if that has none, the others'. */
  lemma {:induction false} FirstChildStops(ts: seq<Tlv>, at: nat, float: bool)
    requires ts != []
    ensures var first, others := Stops(ts[0], at, float), AllStops(ts[1..], at + |Encode(ts[0])|, float);
            Answer(AllStops(ts, at, float) + [EndOfContainer])
              == if first == [] then Answer(others + [EndOfContainer]) else Answer(first)
  {
    var first, others := Stops(ts[0], at, float), AllStops(ts[1..], at + |Encode(ts[0])|, float);
    assert first + others + [EndOfContainer] == first + (others + [EndOfContainer]);
  }

  /** Only a reading without stops answers 0. */
  lemma {:induction false} NonzeroAnswer(t: Tlv, at: nat, float: bool)
    requires WellFormed(t) && 4 * |Encode(t)| < UINT_RANGE
    ensures Answer(Stops(t, at, float)).Done?
    ensures Answer(Stops(t, at, float)).ret == 0 <==> Stops(t, at, float) == []
  {
    if t.Container? && t.children != [] {
      FirstChildStops(t.children, at + 2, float);
      ChildrenNonzero(t.children, at + 2, float);
    }
  }

  lemma {:induction false} ChildrenNonzero(ts: seq<Tlv>, at: nat, float: bool)
    requires AllWellFormed(ts) && 4 * |EncodeAll(ts)| < UINT_RANGE
    ensures Answer(AllStops(ts, at, float) + [EndOfContainer]).Done?
    ensures Answer(AllStops(ts, at, float) + [EndOfContainer]).ret != 0
  {
    if ts != [] {
      FirstChildStops(ts, at, float);
      NonzeroAnswer(ts[0], at, float);
      ChildrenNonzero(ts[1..], at + |Encode(ts[0])|, float);
    }
  }

  /** All that one turn of the container's loop relies on. */
  lemma {:induction false} ChildStep(buf: seq<Word>, at: nat, ts: seq<Tlv>, float: bool)
    requires EncodeAll(ts) != [] && Laid(buf, at, ts) && AllWellFormed(ts) && 4 * |EncodeAll(ts)| < UINT_RANGE
    ensures ts != [] && WellFormed(ts[0]) && AllWellFormed(ts[1..])
    ensures at + |Encode(ts[0])| <= |buf| && buf[at..at + |Encode(ts[0])|] == Encode(ts[0]) && buf[at + 1] == ts[0].size
    ensures |Encode(ts[0])| == IntIndex(ts[0].size) + 2 && ts[0].size <= 4 * |EncodeAll(ts)| - 8
    ensures |EncodeAll(ts[1..])| == |EncodeAll(ts)| - |Encode(ts[0])|
    ensures Laid(buf, at + |Encode(ts[0])|, ts[1..])
    ensures var a, all, others := Answer(Stops(ts[0], at, float)), Answer(AllStops(ts, at, float) + [EndOfContainer]),
                                  Answer(AllStops(ts[1..], at + |Encode(ts[0])|, float) + [EndOfContainer]);
            a.Done? && all == if a.ret == 0 then others else a
  {
    ChildWords(buf, at, ts);
    EncodedLength(ts[0]);
    FirstChildStops(ts, at, float);
    NonzeroAnswer(ts[0], at, float);
  }

  lemma {:induction false} NoneLeft(ts: seq<Tlv>, at: nat, float: bool)
    requires EncodeAll(ts) == []
    ensures Answer(AllStops(ts, at, float) + [EndOfContainer]) == Done(-EINVAL, None)
  {
  }

  /** For a well-formed tree reading the words is reading the tree in document order: the size and
      place of the first decibel entry, an error if a container ends first, 0 for a lone entry of
      another kind, and an error if the entry does not fit. No entry is short. */
  lemma {:induction false} ParseTree(buf: seq<Word>, at: nat, tlvSize: nat, float: bool, t: Tlv)
    requires WellFormed(t) && 8 <= tlvSize < UINT_RANGE && at + IntIndex(tlvSize) <= |buf|
    requires at + |Encode(t)| <= |buf| && buf[at..at + |Encode(t)|] == Encode(t)
    ensures Parse(buf, at, tlvSize, float)
         == if t.size > tlvSize - 8 then Done(-EINVAL, None) else Answer(Stops(t, at, float))
    decreases t
  {
    assert buf[at..at + |Encode(t)|][0] == buf[at] && buf[at..at + |Encode(t)|][1] == buf[at + 1];
    if t.size <= tlvSize - 8 && t.Container? {
      assert Laid(buf, at + 2, t.children) by {
        assert buf[at + 2..at + 2 + |EncodeAll(t.children)|] == buf[at..at + |Encode(t)|][2..];
        assert Encode(t)[2..] == EncodeAll(t.children);
      }
      ParseTrees(buf, at + 2, IntIndex(t.size) * 4, float, t.children);
    }
  }

  lemma {:induction false} ParseTrees(buf: seq<Word>, at: nat, left: nat, float: bool, ts: seq<Tlv>)
    requires AllWellFormed(ts) && Laid(buf, at, ts) && left == 4 * |EncodeAll(ts)| < UINT_RANGE
    requires at + IntIndex(left) <= |buf|
    ensures ParseAll(buf, at, left, float) == Answer(AllStops(ts, at, float) + [EndOfContainer])
    decreases ts
  {
    hide *;
    if left == 0 {
      NoneLeft(ts, at, float);
      NothingLeft(buf, at, float);
    } else {
      ChildStep(buf, at, ts, float);
      var len := |Encode(ts[0])|;
      TreesStep(buf, at, left, float, len);
      ParseTree(buf, at, left, float, ts[0]);
      ParseTrees(buf, at + len, left - 4 * len, float, ts[1..]);
    }
  }

  lemma {:induction false} NothingLeft(buf: seq<Word>, at: nat, float: bool)
    requires at <= |buf|
    ensures at + IntIndex(0) <= |buf| && ParseAll(buf, at, 0, float) == Done(-EINVAL, None)
  {
  }

  /** One turn of the reading of a container, whose entry is `len` words long. */
  lemma {:induction false} TreesStep(buf: seq<Word>, at: nat, left: nat, float: bool, len: nat)
    requires at + IntIndex(left) <= |buf| && 0 < left < UINT_RANGE && left % 4 == 0
    requires at + len <= |buf| && len >= 2 && len == IntIndex(buf[at + 1]) + 2 && buf[at + 1] <= left - 8
    ensures left - 4 * len >= 0 && (left - 4 * len) % 4 == 0 && at + len + IntIndex(left - 4 * len) <= |buf|
    ensures var r := Parse(buf, at, left, float);
            ParseAll(buf, at, left, float)
              == if r.Short? || r.ret != 0 then r else ParseAll(buf, at + len, left - 4 * len, float)
  {
  }

  // ---------------------------------------------------------------- the code

  /** snd_tlv_parse_dB_info; where the code would read beyond what it was given, it stops instead. */
  method ParseDbInfo(buf: seq<Word>, at: nat, tlvSize: nat, float: bool) returns (r: Outcome)
    requires at + IntIndex(tlvSize) <= |buf| && tlvSize < UINT_RANGE
    ensures r == Parse(buf, at, tlvSize, float)
    decreases tlvSize, 0
  {
    if tlvSize < 8 {
      return Short;
    }
    var typ, size := buf[at], buf[at + 1];
    if size > tlvSize - 8 {
      return Done(-EINVAL, None);
    }
    if typ == CONTAINER {
      r := ParseContainer(buf, at + 2, IntIndex(size) * 4, float);
      return;
    }
    if IsDb(typ, float) {
      return Done(ToInt(size + 8), Some(at));
    }
    return Done(0, None);
  }

  /** The container's loop over the `bytes` bytes of its entries. */
  method ParseContainer(buf: seq<Word>, at: nat, bytes: nat, float: bool) returns (r: Outcome)
    requires at + IntIndex(bytes) <= |buf| && bytes < UINT_RANGE && bytes % 4 == 0
    ensures r == ParseAll(buf, at, bytes, float)
    decreases bytes, 1
  {
    var left: nat, pos: nat := bytes, at;
    while left > 0
      invariant left <= bytes && left % 4 == 0 && pos + IntIndex(left) <= |buf|
      invariant ParseAll(buf, pos, left, float) == ParseAll(buf, at, bytes, float)
    {
      r := ParseDbInfo(buf, pos, left, float);
      if r.Short? || r.ret != 0 {
        return;
      }
      var len := IntIndex(buf[pos + 1]) + 2;
      left := left - len * 4;
      pos := pos + len;
    }
    return Done(-EINVAL, None);
  }
}
