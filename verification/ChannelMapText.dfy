/** Channel maps as text: printing, and parsing what was printed. A C string is a sequence of
    characters; advancing a pointer into it is taking a suffix. */
module ChannelMapText {
  import opened Arith
  import opened Options
  import opened ChannelNames

  const PHASE_INVERSE: int := 0x10000
  const DRIVER_SPEC: int := 0x20000
  const MAX_CHANNELS: nat := 64

  // ---------------------------------------------------------------- positions

  function Position(pos: Word): nat { pos % 0x10000 }

  predicate HasFlag(pos: Word, flag: int)
    requires flag > 0
  {
    (pos / flag) % 2 == 1
  }

  /** `pos |= flag`, for a single-bit flag. */
  function WithFlag(pos: Word, flag: int): Word
    requires flag == PHASE_INVERSE || flag == DRIVER_SPEC
  {
    if HasFlag(pos, flag) then pos else if pos + flag < UINT_RANGE then pos + flag else pos
  }

  /** A position that the printer can name: a known one, or a driver's 16-bit number. */
  predicate Printable(pos: Word) { HasFlag(pos, DRIVER_SPEC) || Position(pos) <= LAST }

  /** And with no bits beyond the two flags. */
  predicate Exact(pos: Word) { Printable(pos) && pos < 0x40000 }

  /** What the text tells of a position: its number and the two flags. */
  function Told(pos: Word): Word { pos % 0x40000 }

  // ---------------------------------------------------------------- characters

  predicate IsDigit(c: char) { '0' <= c <= '9' }

  predicate IsAlpha(c: char) { 'A' <= c <= 'Z' || 'a' <= c <= 'z' }

  predicate IsAlnum(c: char) { IsDigit(c) || IsAlpha(c) }

  predicate IsSpace(c: char) { c == ' ' || '\t' <= c <= '\r' }

  function Lower(c: char): char { if 'A' <= c <= 'Z' then c + ' ' else c }

  /** strncasecmp(t, name, |name|) == 0 */
  predicate StartsNoCase(t: string, name: string) {
    |name| <= |t| && forall k :: 0 <= k < |name| ==> Lower(t[k]) == Lower(name[k])
  }

  predicate Starts(t: string, p: string) { |p| <= |t| && t[..|p|] == p }

  // ---------------------------------------------------------------- numbers

  function Digit(d: nat): char
    requires d < 10
  {
    '0' + (d as char)
  }

  /** printf's %d for a number that is not negative. */
  function Decimal(n: nat): (s: string)
    ensures |s| > 0
    ensures forall k :: 0 <= k < |s| ==> IsDigit(s[k])
    ensures n > 0 ==> s[0] != '0'
    ensures n == 0 ==> s == "0"
  {
    if n < 10 then [Digit(n)] else Decimal(n / 10) + [Digit(n % 10)]
  }

  function DigitValue(c: char): nat {
    if IsDigit(c) then (c - '0') as nat
    else if 'a' <= c <= 'z' then (c - 'a') as nat + 10
    else if 'A' <= c <= 'Z' then (c - 'A') as nat + 10
    else 99
  }

  /** Reads digits of the base for as long as there are any. */
  function ReadDigits(t: string, base: nat, acc: nat): (nat, string) {
    if t == "" || DigitValue(t[0]) >= base then (acc, t) else ReadDigits(t[1..], base, acc * base + DigitValue(t[0]))
  }

  function SkipSpace(t: string): string { if t != "" && IsSpace(t[0]) then SkipSpace(t[1..]) else t }

  /** strtoul with base 0, and the text after the number; ULONG_MAX when it is too large. */
  function StrToUl(t: string): (int, string) {
    var t1 := SkipSpace(t);
    var neg := Starts(t1, "-");
    var t2 := if neg || Starts(t1, "+") then t1[1..] else t1;
    var hex := |t2| >= 3 && t2[0] == '0' && (t2[1] == 'x' || t2[1] == 'X') && DigitValue(t2[2]) < 16;
    var t3 := if hex then t2[2..] else t2;
    var (n, rest) := ReadDigits(t3, if hex then 16 else if Starts(t2, "0") then 8 else 10, 0);
    var v: int := if n >= ULONG_RANGE then ULONG_RANGE - 1 else if neg then ToULong(0 - n) else n;
    if rest == t3 then (0, t) else (v, rest)
  }

  // ---------------------------------------------------------------- printing

  function PositionText(pos: Word): string
    requires Printable(pos)
  {
    (if HasFlag(pos, DRIVER_SPEC) then Decimal(Position(pos)) else NAMES[Position(pos)])
    + (if HasFlag(pos, PHASE_INVERSE) then "[INV]" else "")
  }

  function MapText(positions: seq<Word>): string
    requires forall pos :: pos in positions ==> Printable(pos)
  {
    if positions == [] then ""
    else if |positions| == 1 then PositionText(positions[0])
    else PositionText(positions[0]) + " " + MapText(positions[1..])
  }

  /** The text of the first n positions, each after the first preceded by a space. */
  function PrefixText(positions: seq<Word>, n: nat): string
    requires n <= |positions| && forall pos :: pos in positions ==> Printable(pos)
  {
    if n == 0 then "" else PrefixText(positions, n - 1) + (if n > 1 then " " else "") + PositionText(positions[n - 1])
  }

  lemma {:induction false} PrefixGrows(positions: seq<Word>, n: nat)
    requires 0 < n <= |positions| && forall pos :: pos in positions ==> Printable(pos)
    ensures PrefixText(positions, n) == (if n == 1 then PositionText(positions[0])
                                   else PositionText(positions[0]) + " " + PrefixText(positions[1..], n - 1))
  {
    if n > 1 {
      PrefixGrows(positions, n - 1);
    }
  }

  lemma {:induction false} PrefixIsText(positions: seq<Word>)
    requires forall pos :: pos in positions ==> Printable(pos)
    ensures PrefixText(positions, |positions|) == MapText(positions)
  {
    if positions != [] {
      PrefixGrows(positions, |positions|);
      PrefixIsText(positions[1..]);
    }
  }

  lemma {:induction false} PrefixShorter(positions: seq<Word>, m: nat, n: nat)
    requires m <= n <= |positions| && forall pos :: pos in positions ==> Printable(pos)
    ensures |PrefixText(positions, m)| <= |PrefixText(positions, n)|
  {
    if m < n {
      PrefixShorter(positions, m, n - 1);
    }
  }

  /** snd_pcm_chmap_print: the text and its length, or -ENOMEM when the text and its terminator
      do not fit in `maxlen` characters. */
  method PrintMap(positions: seq<Word>, maxlen: nat) returns (ret: int, text: string)
    requires forall pos :: pos in positions ==> Printable(pos)
    ensures positions == [] ==> ret == 0
    ensures positions != [] ==> ret == if |MapText(positions)| < maxlen then |MapText(positions)| else -ENOMEM
    ensures ret >= 0 ==> text == MapText(positions)
  {
    text := "";
    PrefixIsText(positions);
    ghost var goal := |MapText(positions)|;
    var i := 0;
    while i < |positions|
      invariant i <= |positions| && text == PrefixText(positions, i)
      invariant i > 0 ==> |text| < maxlen
    {
      PrefixShorter(positions, i + 1, |positions|);
      ghost var was := text;
      var p := Position(positions[i]);
      assert Printable(positions[i]);
      assert |was| + (if i > 0 then 1 else 0) + |PositionText(positions[i])| <= goal;
      if i > 0 {
        text := text + " ";
        if |text| >= maxlen {
          return -ENOMEM, text;
        }
      }
      var name := if HasFlag(positions[i], DRIVER_SPEC) then Decimal(p) else NAMES[p];
      text := text + name;
      if |text| >= maxlen {
        return -ENOMEM, text;
      }
      if HasFlag(positions[i], PHASE_INVERSE) {
        text := text + "[INV]";
        if |text| >= maxlen {
          return -ENOMEM, text;
        }
      }
      var inverse := if HasFlag(positions[i], PHASE_INVERSE) then "[INV]" else "";
      AppendedText(was, if i > 0 then " " else "", name, inverse, text);
      i := i + 1;
    }
    ret := |text|;
  }

  lemma {:induction false} AppendedText(was: string, space: string, name: string, inverse: string, text: string)
    requires text == (if inverse == "" then (if space == "" then was + name else was + space + name)
                      else (if space == "" then was + name else was + space + name) + inverse)
    ensures text == was + space + (name + inverse)
  {
  }

  // ---------------------------------------------------------------- parsing

  /** Whether the word of `len` characters at t begins with the name and no letter follows it. */
  predicate NameMatches(t: string, len: nat, name: string) {
    && |name| <= len
    && StartsNoCase(t, name)
    && !(|name| < |t| && IsAlpha(t[|name|]))
  }

  function FindName(t: string, len: nat, val: nat): (n: nat)
    requires val <= LAST + 1
    ensures n <= LAST + 1 && (n <= LAST ==> NameMatches(t, len, NAMES[n]))
    decreases LAST + 1 - val
  {
    if val > LAST || NameMatches(t, len, NAMES[val]) then val else FindName(t, len, val + 1)
  }

  /** The flag for a text that goes on with "[INV]", as an int. */
  function Flagged(val: Word, rest: string): int {
    ToInt(if StartsNoCase(rest, "[INV]") then WithFlag(val, PHASE_INVERSE) else val)
  }

  /** str_to_chmap; the word is not empty. */
  function StrToPosition(t: string, len: nat): int
    requires 0 < len <= |t|
  {
    if IsDigit(t[0]) then
      var (v, rest) := StrToUl(t);
      if v == ULONG_RANGE - 1 then -1 else Flagged(WithFlag(ToUInt(v), DRIVER_SPEC), rest)
    else if StartsNoCase(t, "ch") then
      var (v, rest) := StrToUl(t[2..]);
      if v == ULONG_RANGE - 1 then -1 else Flagged(ToUInt(v), rest)
    else
      var val := FindName(t, len, 0);
      if val > LAST then -1 else Flagged(val, t[|NAMES[val]|..])
  }

  function WordLength(t: string): (n: nat)
    ensures n <= |t|
  {
    if t != "" && IsAlnum(t[0]) then 1 + WordLength(t[1..]) else 0
  }

  function SkipToWord(t: string): (r: string)
    ensures |r| <= |t|
  {
    if t != "" && !IsAlnum(t[0]) then SkipToWord(t[1..]) else t
  }

  /** One position and the text from the next word on. */
  function ParseOne(t: string): (r: Option<(Word, string)>)
    ensures r.Some? ==> |r.value.1| < |t|
  {
    var len := WordLength(t);
    if len == 0 then None
    else
      var val := StrToPosition(t, len);
      if val < 0 then None
      else
        var rest := t[len..];
        if Starts(rest, "[INV]") then Some((WithFlag(ToUInt(val), PHASE_INVERSE), SkipToWord(rest[5..])))
        else Some((ToUInt(val), SkipToWord(rest)))
  }

  /** The positions of a text, of which `ch` have been read before. */
  function ParseRest(t: string, ch: nat): Option<seq<Word>>
    decreases |t|
  {
    if ch >= MAX_CHANNELS then None
    else
      match ParseOne(t)
      case None => None
      case Some((val, rest)) =>
        if rest == "" then Some([val])
        else
          match ParseRest(rest, ch + 1)
          case None => None
          case Some(others) => Some([val] + others)
  }

  method StrToPositionLoop(t: string, len: nat) returns (val: int)
    requires 0 < len <= |t|
    ensures val == StrToPosition(t, len)
  {
    var v: Word;
    var rest: string;
    if IsDigit(t[0]) {
      var u := StrToUl(t);
      if u.0 == ULONG_RANGE - 1 {
        return -1;
      }
      v, rest := WithFlag(ToUInt(u.0), DRIVER_SPEC), u.1;
    } else if StartsNoCase(t, "ch") {
      var u := StrToUl(t[2..]);
      if u.0 == ULONG_RANGE - 1 {
        return -1;
      }
      v, rest := ToUInt(u.0), u.1;
    } else {
      var n := 0;
      while n <= LAST && !NameMatches(t, len, NAMES[n])
        invariant n <= LAST + 1
        invariant FindName(t, len, 0) == FindName(t, len, n)
      {
        n := n + 1;
      }
      if n > LAST {
        return -1;
      }
      v, rest := n, t[|NAMES[n]|..];
    }
    if StartsNoCase(rest, "[INV]") {
      v := WithFlag(v, PHASE_INVERSE);
    }
    return ToInt(v);
  }

  method ParseOneLoop(text: string) returns (r: Option<(Word, string)>)
    ensures r == ParseOne(text)
  {
    hide StrToPosition, WithFlag;
    var len := 0;
    while len < |text| && IsAlnum(text[len])
      invariant len <= |text| && WordLength(text) == len + WordLength(text[len..])
    {
      len := len + 1;
    }
    if len == 0 {
      return None;
    }
    var v := StrToPositionLoop(text, len);
    if v < 0 {
      return None;
    }
    var val: Word, str := ToUInt(v), text[len..];
    if Starts(str, "[INV]") {
      val := WithFlag(val, PHASE_INVERSE);
      str := str[5..];
    }
    while str != "" && !IsAlnum(str[0])
      invariant ParseOne(text) == Some((val, SkipToWord(str)))
      decreases |str|
    {
      str := str[1..];
    }
    return Some((val, str));
  }

  /** What was found, put before what the rest gives. */
  function Prepend(found: seq<Word>, others: Option<seq<Word>>): Option<seq<Word>> {
    match others case None => None case Some(o) => Some(found + o)
  }

  lemma {:induction false} PrependTwice(found: seq<Word>, val: Word, others: Option<seq<Word>>)
    ensures Prepend(found, Prepend([val], others)) == Prepend(found + [val], others)
  {
    if others.Some? {
      assert found + ([val] + others.value) == found + [val] + others.value;
    }
  }

  lemma {:induction false} ParseStep(t: string, ch: nat)
    ensures ch >= MAX_CHANNELS || ParseOne(t).None? ==> ParseRest(t, ch) == None
    ensures ch < MAX_CHANNELS && ParseOne(t).Some? ==>
      var (val, rest) := ParseOne(t).value;
      ParseRest(t, ch) == if rest == "" then Some([val]) else Prepend([val], ParseRest(rest, ch + 1))
  {
  }

  /** snd_pcm_chmap_parse_string */
  method ParseString(text: string) returns (positions: Option<seq<Word>>)
    ensures positions == ParseRest(text, 0)
  {
    hide ParseOne, ParseRest;
    ghost var goal := ParseRest(text, 0);
    var str: string, found: seq<Word> := text, [];
    assert goal.Some? ==> [] + goal.value == goal.value;
    while true
      invariant Prepend(found, ParseRest(str, |found|)) == goal
      decreases |str|
    {
      ParseStep(str, |found|);
      if |found| >= MAX_CHANNELS {
        return None;
      }
      var one := ParseOneLoop(str);
      if one.None? {
        return None;
      }
      var val, rest := one.value.0, one.value.1;
      PrependTwice(found, val, ParseRest(rest, |found| + 1));
      found := found + [val];
      str := rest;
      if str == "" {
        return Some(found);
      }
    }
  }

  // ---------------------------------------------------------------- round trip

  /** Text after a position: nothing, or something that is neither letter nor digit nor a bracket. */
  ghost predicate Follows(r: string) { r == "" || (!IsAlnum(r[0]) && r[0] != '[') }

  lemma {:induction false} WordLengthIs(w: string, r: string)
    requires forall k :: 0 <= k < |w| ==> IsAlnum(w[k])
    requires r == "" || !IsAlnum(r[0])
    ensures WordLength(w + r) == |w|
  {
    if w == "" {
      assert w + r == r;
    } else {
      assert (w + r)[1..] == w[1..] + r;
      WordLengthIs(w[1..], r);
    }
  }

  lemma {:induction false} ReadAppend(a: string, r: string, base: nat, acc: nat)
    requires forall k :: 0 <= k < |a| ==> DigitValue(a[k]) < base
    ensures ReadDigits(a + r, base, acc) == ReadDigits(r, base, ReadDigits(a, base, acc).0)
  {
    if a == "" {
      assert a + r == r;
    } else {
      assert (a + r)[1..] == a[1..] + r;
      ReadAppend(a[1..], r, base, acc * base + DigitValue(a[0]));
    }
  }

  lemma {:induction false} ReadDecimal(n: nat)
    ensures ReadDigits(Decimal(n), 10, 0) == (n, "")
  {
    if n < 10 {
      assert ReadDigits([Digit(n)], 10, 0) == ReadDigits("", 10, n);
    } else {
      var d := [Digit(n % 10)];
      ReadDecimal(n / 10);
      ReadAppend(Decimal(n / 10), d, 10, 0);
      assert ReadDigits(d, 10, n / 10) == ReadDigits("", 10, n / 10 * 10 + n % 10);
    }
  }

  /** strtoul reads a printed number back and stops behind it. */
  lemma {:induction false} NumberBack(n: nat, r: string)
    requires n < 0x10000 && (r == "" || !IsAlnum(r[0]))
    ensures StrToUl(Decimal(n) + r) == (n, r)
  {
    var t := Decimal(n) + r;
    assert t[0] == Decimal(n)[0];
    assert SkipSpace(t) == t;
    if n == 0 {
      assert t[1..] == r;
      assert ReadDigits(t, 8, 0) == ReadDigits(r, 8, 0) == (0, r);
      assert |t| >= 2 ==> t[1] == r[0];
    } else {
      ReadDecimal(n);
      ReadAppend(Decimal(n), r, 10, 0);
      assert ReadDigits(r, 10, n) == (n, r);
    }
  }

  /** A word of capitals matches a name of capitals exactly when it is that name. */
  lemma {:induction false} SameWord(word: string, name: string, r: string)
    requires forall k :: 0 <= k < |word| ==> IsUpper(word[k])
    requires forall k :: 0 <= k < |name| ==> IsUpper(name[k])
    requires r == "" || !IsAlpha(r[0])
    ensures NameMatches(word + r, |word|, name) <==> word == name
  {
    var t := word + r;
    assert forall k :: 0 <= k < |word| ==> t[k] == word[k];
    if NameMatches(t, |word|, name) {
      if |name| < |word| {
        assert false;
      }
      forall k | 0 <= k < |name|
        ensures word[k] == name[k]
      {
        assert IsUpper(word[k]) && IsUpper(name[k]) && Lower(t[k]) == Lower(name[k]);
      }
      assert word == name;
    }
  }

  /** Of all names only its own matches a printed name. */
  lemma {:induction false} OnlyOwnName(p: nat, q: nat, r: string)
    requires p <= LAST && q <= LAST && (r == "" || !IsAlpha(r[0]))
    ensures NameMatches(NAMES[p] + r, |NAMES[p]|, NAMES[q]) <==> p == q
  {
    assert |NAMES| == LAST + 1;
    hide NAMES, NameMatches, IsUpper, IsAlpha, PositionOf, Signature;
    AllNamed(p);
    AllNamed(q);
    NamesDistinct(p, q);
    SameWord(NAMES[p], NAMES[q], r);
  }

  lemma {:induction false} NameFound(p: nat, r: string, val: nat)
    requires val <= p <= LAST && (r == "" || !IsAlpha(r[0]))
    ensures FindName(NAMES[p] + r, |NAMES[p]|, val) == p
    decreases p - val
  {
    OnlyOwnName(p, val, r);
    if val < p {
      NameFound(p, r, val + 1);
    }
  }

  /** The number or name of a position, without the suffix. */
  function Body(pos: Word): string
    requires Exact(pos)
  {
    if HasFlag(pos, DRIVER_SPEC) then Decimal(Position(pos)) else NAMES[Position(pos)]
  }

  lemma {:induction false} BodyIsWord(pos: Word)
    requires Exact(pos)
    ensures |Body(pos)| > 0 && forall k :: 0 <= k < |Body(pos)| ==> IsAlnum(Body(pos)[k])
  {
    if !HasFlag(pos, DRIVER_SPEC) {
      AllNamed(Position(pos));
    }
  }

  /** The suffix, if any, and what follows a word. */
  ghost predicate Suffixed(pos: Word, r: string)
    requires Exact(pos)
  {
    if HasFlag(pos, PHASE_INVERSE) then Starts(r, "[INV]") else Follows(r)
  }

  lemma {:induction false} SuffixSeen(pos: Word, r: string)
    requires Exact(pos) && Suffixed(pos, r)
    ensures r == "" || !IsAlnum(r[0])
    ensures StartsNoCase(r, "[INV]") <==> HasFlag(pos, PHASE_INVERSE)
  {
    if Starts(r, "[INV]") {
      assert forall k :: 0 <= k < 5 ==> r[k] == r[..5][k];
    }
  }

  lemma {:induction false} DriverWordBack(pos: Word, r: string)
    requires Exact(pos) && Suffixed(pos, r) && HasFlag(pos, DRIVER_SPEC)
    ensures StrToPosition(Body(pos) + r, |Body(pos)|) == pos
  {
    hide StrToUl, FindName;
    SuffixSeen(pos, r);
    NumberBack(Position(pos), r);
    FlagsBack(pos);
    assert (Body(pos) + r)[0] == Body(pos)[0];
  }

  lemma {:induction false} NameWordBack(pos: Word, r: string)
    requires Exact(pos) && Suffixed(pos, r) && !HasFlag(pos, DRIVER_SPEC)
    ensures |Body(pos)| > 0 && StrToPosition(Body(pos) + r, |Body(pos)|) == pos
  {
    assert |NAMES| == LAST + 1;
    hide StrToUl, FindName, NAMES, PositionOf, Signature, Decimal;
    var p, t := Position(pos), Body(pos) + r;
    SuffixSeen(pos, r);
    AllNamed(p);
    NameFound(p, r, 0);
    FlagsBack(pos);
    assert t[0] == NAMES[p][0] && t[1] == NAMES[p][1] && IsUpper(NAMES[p][0]) && IsUpper(NAMES[p][1]);
    assert t[|NAMES[p]|..] == r;
  }

  /** A word is read as its position, with the suffix behind it. */
  lemma {:induction false} WordBack(pos: Word, r: string)
    requires Exact(pos) && Suffixed(pos, r)
    ensures |Body(pos)| > 0 && StrToPosition(Body(pos) + r, |Body(pos)|) == pos
  {
    if HasFlag(pos, DRIVER_SPEC) {
      DriverWordBack(pos, r);
    } else {
      NameWordBack(pos, r);
    }
  }

  /** A printable position is its number and its flags. */
  lemma {:induction false} FlagsBack(pos: Word)
    requires Exact(pos)
    ensures var p := Position(pos);
            var v: Word := if HasFlag(pos, DRIVER_SPEC) then WithFlag(p, DRIVER_SPEC) else p;
            (if HasFlag(pos, PHASE_INVERSE) then WithFlag(v, PHASE_INVERSE) else v) == pos
    ensures HasFlag(pos, PHASE_INVERSE) ==> WithFlag(pos, PHASE_INVERSE) == pos
  {
  }

  /** Reading one position from a word and what follows it. */
  lemma {:induction false} OneRead(word: string, tail: string, pos: Word)
    requires |word| > 0 && pos < 0x40000 && WordLength(word + tail) == |word|
    requires StrToPosition(word + tail, |word|) == pos
    ensures ParseOne(word + tail)
         == if Starts(tail, "[INV]") then Some((WithFlag(pos, PHASE_INVERSE), SkipToWord(tail[5..])))
            else Some((pos, SkipToWord(tail)))
  {
    assert (word + tail)[|word|..] == tail;
  }

  lemma {:induction false} SuffixSplit(pos: Word, r: string)
    requires Exact(pos) && Follows(r)
    ensures var suffix := if HasFlag(pos, PHASE_INVERSE) then "[INV]" else "";
            && PositionText(pos) + r == Body(pos) + (suffix + r)
            && (suffix == "" ==> suffix + r == r && !Starts(r, "[INV]"))
            && (suffix != "" ==> Starts(suffix + r, "[INV]") && (suffix + r)[5..] == r)
            && (suffix + r == "" || !IsAlnum((suffix + r)[0]))
  {
    hide NAMES, Decimal, HasFlag, Position, Printable;
    var suffix := if HasFlag(pos, PHASE_INVERSE) then "[INV]" else "";
    assert PositionText(pos) + r == Body(pos) + (suffix + r);
    if suffix == "" {
      assert suffix + r == r;
    }
  }

  lemma {:induction false} PositionBack(pos: Word, r: string)
    requires Exact(pos) && Follows(r)
    ensures ParseOne(PositionText(pos) + r) == Some((pos, SkipToWord(r)))
  {
    var tail := (if HasFlag(pos, PHASE_INVERSE) then "[INV]" else "") + r;
    BodyIsWord(pos);
    FlagsBack(pos);
    SuffixSplit(pos, r);
    WordLengthIs(Body(pos), tail);
    WordBack(pos, tail);
    OneRead(Body(pos), tail, pos);
  }

  /** What was printed begins with a word. */
  lemma {:induction false} TextBegins(positions: seq<Word>)
    requires positions != [] && forall pos :: pos in positions ==> Printable(pos) && pos < 0x40000
    ensures MapText(positions) != "" && IsAlnum(MapText(positions)[0])
  {
    BodyIsWord(positions[0]);
    assert PositionText(positions[0])[0] == Body(positions[0])[0];
    assert MapText(positions)[0] == PositionText(positions[0])[0];
  }

  /** The first position of a printed map is read, and the rest is left. */
  lemma {:induction false} FirstBack(positions: seq<Word>)
    requires positions != [] && forall pos :: pos in positions ==> Printable(pos) && pos < 0x40000
    ensures ParseOne(MapText(positions)) == Some((positions[0], MapText(positions[1..])))
  {
    hide ParseOne, PositionText;
    assert Exact(positions[0]);
    if |positions| == 1 {
      PositionBack(positions[0], "");
      assert PositionText(positions[0]) + "" == MapText(positions);
    } else {
      var r := " " + MapText(positions[1..]);
      PositionBack(positions[0], r);
      assert PositionText(positions[0]) + r == MapText(positions);
      TextBegins(positions[1..]);
      assert r[1..] == MapText(positions[1..]);
    }
  }

  /** Parsing a printed map, with `ch` positions already found, gives it back; more than 64 in
      all are refused. */
  lemma {:induction false} TextBack(positions: seq<Word>, ch: nat)
    requires positions != [] && forall pos :: pos in positions ==> Printable(pos) && pos < 0x40000
    requires ch <= MAX_CHANNELS
    ensures ParseRest(MapText(positions), ch) == if ch + |positions| <= MAX_CHANNELS then Some(positions) else None
    decreases |positions|
  {
    hide ParseOne, ParseRest, PositionText;
    ParseStep(MapText(positions), ch);
    if ch < MAX_CHANNELS {
      FirstBack(positions);
      if |positions| > 1 {
        TextBegins(positions[1..]);
        TextBack(positions[1..], ch + 1);
      } else {
        assert positions[1..] == [] && positions == [positions[0]];
      }
      assert [positions[0]] + positions[1..] == positions;
    }
  }

  /** Taking multiples of 2^18 away changes no digit below. */
  lemma {:induction false} ToldParts(pos: Word)
    ensures Position(Told(pos)) == Position(pos)
    ensures HasFlag(Told(pos), DRIVER_SPEC) == HasFlag(pos, DRIVER_SPEC)
    ensures HasFlag(Told(pos), PHASE_INVERSE) == HasFlag(pos, PHASE_INVERSE)
  {
    hide HasFlag, Position;
    var r: nat, t: nat := pos / 0x40000, Told(pos);
    assert pos == t + r * 0x40000;
    hide Told;
    ToldFlag(pos, t, 2 * r, PHASE_INVERSE);
    ToldFlag(pos, t, r, DRIVER_SPEC);
    ToldPosition(pos, t, 4 * r);
  }

  lemma {:induction false} ToldFlag(pos: Word, t: Word, h: nat, flag: int)
    requires flag > 0 && pos == t + (2 * h) * flag
    ensures HasFlag(t, flag) == HasFlag(pos, flag)
  {
    QuotientShift(t, 2 * h, flag);
  }

  lemma {:induction false} ToldPosition(pos: Word, t: Word, m: nat)
    requires pos == t + m * 0x10000
    ensures Position(t) == Position(pos)
  {
    QuotientShift(t, m, 0x10000);
  }

  lemma {:induction false} QuotientShift(t: nat, m: nat, b: nat)
    requires b > 0
    ensures (t + m * b) / b == m + t / b && (t + m * b) % b == t % b
  {
    ModAddMultiple(t, m, b);
    DivBounds(t, b);
    assert (m + t / b) * b == m * b + (t / b) * b;
    assert (m + t / b + 1) * b == m * b + (t / b + 1) * b;
    DivUnique(t + m * b, b, m + t / b);
  }

  lemma {:induction false} ToldText(pos: Word)
    requires Printable(pos)
    ensures Printable(Told(pos)) && Told(pos) < 0x40000 && PositionText(Told(pos)) == PositionText(pos)
  {
    hide NAMES, Decimal, Position, HasFlag;
    ToldParts(pos);
  }

  function ToldAll(positions: seq<Word>): seq<Word> {
    seq(|positions|, k requires 0 <= k < |positions| => Told(positions[k]))
  }

  lemma {:induction false} ToldMapText(positions: seq<Word>)
    requires forall pos :: pos in positions ==> Printable(pos)
    ensures forall pos :: pos in ToldAll(positions) ==> Printable(pos) && pos < 0x40000
    ensures MapText(ToldAll(positions)) == MapText(positions)
    decreases |positions|
  {
    if positions != [] {
      ToldText(positions[0]);
      ToldMapText(positions[1..]);
      hide PositionText, NAMES, Printable, Exact, Told;
      assert ToldAll(positions)[1..] == ToldAll(positions[1..]);
    }
  }

  /** Printing any map that has names into a large enough buffer and parsing that text gives back
      every position's number and flags, for up to 64 channels, and nothing for more. It is
      exactly the map when there were no other bits. */
  lemma {:induction false} MapRoundTrip(positions: seq<Word>)
    requires positions != [] && forall pos :: pos in positions ==> Printable(pos)
    ensures ParseRest(MapText(positions), 0) == if |positions| <= MAX_CHANNELS then Some(ToldAll(positions)) else None
    ensures ParseRest(MapText(positions), 0) == Some(positions)
       <==> |positions| <= MAX_CHANNELS && forall pos :: pos in positions ==> pos < 0x40000
  {
    assert |ToldAll(positions)| == |positions|;
    hide *;
    ToldMapText(positions);
    TextBack(ToldAll(positions), 0);
    ToldSame(positions);
  }

  lemma {:induction false} ToldSame(positions: seq<Word>)
    ensures ToldAll(positions) == positions <==> forall pos :: pos in positions ==> pos < 0x40000
  {
    if forall pos :: pos in positions ==> pos < 0x40000 {
      forall k | 0 <= k < |positions|
        ensures Told(positions[k]) == positions[k]
      {
        assert positions[k] in positions;
      }
      assert ToldAll(positions) == positions;
    } else {
      var k :| 0 <= k < |positions| && positions[k] >= 0x40000;
      assert ToldAll(positions)[k] != positions[k];
    }
  }
}
