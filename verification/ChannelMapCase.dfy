/** Channel maps in other spellings than the printed one: letters of either case, numbers in
    other bases, numbered channels, and words that are no position. */
module ChannelMapCase {
  import opened Arith
  import opened Options
  import opened ChannelNames
  import opened ChannelMapText

  /** A capital and the small letter of its place. */
  predicate OtherCase(c: char, d: char) {
    || ('A' <= c <= 'Z' && d as int == c as int + 32)
    || ('A' <= d <= 'Z' && c as int == d as int + 32)
  }

  predicate SameLetter(c: char, d: char) { c == d || OtherCase(c, d) }

  ghost predicate SameLetters(t: string, u: string) {
    |t| == |u| && forall k :: 0 <= k < |t| ==> SameLetter(t[k], u[k])
  }

  /** Whether a bracket opens within the four characters before place k. */
  ghost predicate InBrackets(u: string, k: int) {
    exists j :: 0 <= j < |u| && j < k <= j + 4 && u[j] == '['
  }

  /** t is u, but for the case of letters outside the suffixes. */
  ghost predicate Respelled(t: string, u: string) {
    SameLetters(t, u) && forall k :: 0 <= k < |t| && InBrackets(u, k) ==> t[k] == u[k]
  }

  // ---------------------------------------------------------------- single characters

  lemma {:induction false} CharSame(c: char, d: char)
    requires SameLetter(c, d)
    ensures Lower(c) == Lower(d) && DigitValue(c) == DigitValue(d)
    ensures IsDigit(c) == IsDigit(d) && IsAlpha(c) == IsAlpha(d) && IsSpace(c) == IsSpace(d)
    ensures IsDigit(c) || c == '-' || c == '+' || c == '[' || c == ']' || d == '[' || d == '-' || d == '+' ==> c == d
    ensures c == 'x' || c == 'X' <==> d == 'x' || d == 'X'
  {
  }

  /** Lower identifies the two cases of one letter and nothing else. */
  lemma {:induction false} LowerIs(c: char, d: char)
    requires IsAlpha(d) || d == '[' || d == ']'
    ensures Lower(c) == Lower(d) <==> SameLetter(c, d)
  {
  }

  lemma {:induction false} SameFrom(t: string, u: string, n: nat)
    requires SameLetters(t, u) && n <= |t|
    ensures SameLetters(t[n..], u[n..])
  {
  }

  lemma {:induction false} RespelledFrom(t: string, u: string, n: nat)
    requires Respelled(t, u) && n <= |t|
    ensures Respelled(t[n..], u[n..])
  {
    forall k | 0 <= k < |t| - n && InBrackets(u[n..], k)
      ensures t[n + k] == u[n + k]
    {
      var j :| 0 <= j < |u| - n && j < k <= j + 4 && u[n..][j] == '[';
      assert u[n + j] == '[' && InBrackets(u, n + k);
    }
  }

  // ---------------------------------------------------------------- numbers

  lemma {:induction false} ReadSame(t: string, u: string, base: nat, acc: nat)
    requires SameLetters(t, u)
    ensures var (n, r), (m, s) := ReadDigits(t, base, acc), ReadDigits(u, base, acc);
            n == m && SameLetters(r, s) && |r| <= |t| && (|r| == |t| <==> r == t) && (|s| == |u| <==> s == u)
    decreases |t|
  {
    assert |t| == |u| && (t != "" ==> SameLetter(t[0], u[0]));
    hide *;
    if t != "" {
      CharSame(t[0], u[0]);
    }
    if t == "" || DigitValue(t[0]) >= base {
      ReadStop(t, base, acc);
      ReadStop(u, base, acc);
    } else {
      var next := acc * base + DigitValue(t[0]);
      ReadMore(t, base, acc, next);
      ReadMore(u, base, acc, next);
      SameFrom(t, u, 1);
      ReadSame(t[1..], u[1..], base, next);
    }
  }

  lemma {:induction false} ReadStop(t: string, base: nat, acc: nat)
    requires t == "" || DigitValue(t[0]) >= base
    ensures ReadDigits(t, base, acc) == (acc, t)
  {
  }

  lemma {:induction false} ReadMore(t: string, base: nat, acc: nat, next: nat)
    requires t != "" && DigitValue(t[0]) < base && next == acc * base + DigitValue(t[0])
    ensures ReadDigits(t, base, acc) == ReadDigits(t[1..], base, next)
  {
  }

  lemma {:induction false} SkipSpaceSame(t: string, u: string)
    requires SameLetters(t, u)
    ensures SameLetters(SkipSpace(t), SkipSpace(u))
    decreases |t|
  {
    if t != "" {
      CharSame(t[0], u[0]);
      if IsSpace(t[0]) {
        SameFrom(t, u, 1);
        SkipSpaceSame(t[1..], u[1..]);
      }
    }
  }

  /** The sign, if there is one. */
  lemma {:induction false} SignSame(t: string, u: string)
    requires SameLetters(t, u)
    ensures Starts(t, "-") == Starts(u, "-") && Starts(t, "+") == Starts(u, "+") && Starts(t, "0") == Starts(u, "0")
  {
    if t != "" {
      CharSame(t[0], u[0]);
      assert t[..1] == [t[0]] && u[..1] == [u[0]];
    }
  }

  predicate HexStart(t: string) {
    |t| >= 3 && t[0] == '0' && (t[1] == 'x' || t[1] == 'X') && DigitValue(t[2]) < 16
  }

  lemma {:induction false} HexSame(t: string, u: string)
    requires SameLetters(t, u)
    ensures HexStart(t) == HexStart(u)
  {
    if |t| >= 3 {
      CharSame(t[0], u[0]);
      CharSame(t[1], u[1]);
      CharSame(t[2], u[2]);
    }
  }

  lemma {:induction false} NumberSame(t: string, u: string)
    requires SameLetters(t, u)
    ensures StrToUl(t).0 == StrToUl(u).0 && SameLetters(StrToUl(t).1, StrToUl(u).1)
  {
    var t1, u1 := SkipSpace(t), SkipSpace(u);
    SkipSpaceSame(t, u);
    SignSame(t1, u1);
    var sign := Starts(t1, "-") || Starts(t1, "+");
    var t2, u2 := if sign then t1[1..] else t1, if sign then u1[1..] else u1;
    if sign {
      SameFrom(t1, u1, 1);
    }
    HexSame(t2, u2);
    SignSame(t2, u2);
    var hex := HexStart(t2);
    var t3, u3 := if hex then t2[2..] else t2, if hex then u2[2..] else u2;
    if hex {
      SameFrom(t2, u2, 2);
    }
    var base := if hex then 16 else if Starts(t2, "0") then 8 else 10;
    ReadSame(t3, u3, base, 0);
    hide SkipSpace, Starts, ReadDigits, SameLetters, DigitValue;
  }

  // ---------------------------------------------------------------- words

  lemma {:induction false} StartsSame(t: string, u: string, name: string)
    requires SameLetters(t, u)
    ensures StartsNoCase(t, name) == StartsNoCase(u, name)
  {
    forall k | 0 <= k < |t|
      ensures Lower(t[k]) == Lower(u[k])
    {
      CharSame(t[k], u[k]);
    }
  }

  lemma {:induction false} NameSame(t: string, u: string, len: nat, name: string)
    requires SameLetters(t, u)
    ensures NameMatches(t, len, name) == NameMatches(u, len, name)
  {
    StartsSame(t, u, name);
    if |name| < |t| {
      CharSame(t[|name|], u[|name|]);
    }
  }

  lemma {:induction false} FindSame(t: string, u: string, len: nat, val: nat)
    requires SameLetters(t, u) && val <= LAST + 1
    ensures FindName(t, len, val) == FindName(u, len, val)
    decreases LAST + 1 - val
  {
    if val <= LAST {
      assert |NAMES| == LAST + 1;
      hide NAMES, NameMatches, SameLetters;
      NameSame(t, u, len, NAMES[val]);
      FindSame(t, u, len, val + 1);
    }
  }

  /** A word is read alike in any case. */
  lemma {:induction false} WordSame(t: string, u: string, len: nat)
    requires SameLetters(t, u) && 0 < len <= |t|
    ensures StrToPosition(t, len) == StrToPosition(u, len)
  {
    CharSame(t[0], u[0]);
    StartsSame(t, u, "ch");
    if IsDigit(t[0]) {
      NumberSame(t, u);
      StartsSame(StrToUl(t).1, StrToUl(u).1, "[INV]");
    } else if StartsNoCase(t, "ch") {
      SameFrom(t, u, 2);
      NumberSame(t[2..], u[2..]);
      StartsSame(StrToUl(t[2..]).1, StrToUl(u[2..]).1, "[INV]");
    } else {
      FindSame(t, u, len, 0);
      var val := FindName(t, len, 0);
      if val <= LAST {
        SuffixSame(t, u, val);
      }
    }
    hide StrToUl, FindName, NAMES, WithFlag, StartsNoCase;
  }

  lemma {:induction false} SuffixSame(t: string, u: string, val: nat)
    requires SameLetters(t, u) && val <= LAST && |NAMES[val]| <= |t|
    ensures StartsNoCase(t[|NAMES[val]|..], "[INV]") == StartsNoCase(u[|NAMES[val]|..], "[INV]")
  {
    assert |NAMES| == LAST + 1;
    hide NAMES;
    SameFrom(t, u, |NAMES[val]|);
    StartsSame(t[|NAMES[val]|..], u[|NAMES[val]|..], "[INV]");
  }

  lemma {:induction false} WordLengthSame(t: string, u: string)
    requires SameLetters(t, u)
    ensures WordLength(t) == WordLength(u)
    decreases |t|
  {
    if t != "" {
      CharSame(t[0], u[0]);
      SameFrom(t, u, 1);
      WordLengthSame(t[1..], u[1..]);
    }
  }

  lemma {:induction false} SkipSame(t: string, u: string)
    requires Respelled(t, u)
    ensures Respelled(SkipToWord(t), SkipToWord(u))
    decreases |t|
  {
    if t != "" {
      CharSame(t[0], u[0]);
      if !IsAlnum(t[0]) {
        RespelledFrom(t, u, 1);
        SkipSame(t[1..], u[1..]);
      }
    }
  }

  /** The suffix is looked for in capitals only. */
  lemma {:induction false} InverseSame(t: string, u: string)
    requires Respelled(t, u)
    ensures Starts(t, "[INV]") == Starts(u, "[INV]")
  {
    if |t| >= 5 && u[0] == '[' {
      forall k | 1 <= k < 5
        ensures t[k] == u[k]
      {
        assert InBrackets(u, k);
      }
      CharSame(t[0], u[0]);
      assert t[..5] == u[..5];
    } else if |t| >= 5 {
      CharSame(t[0], u[0]);
      assert t[..5][0] == t[0] && u[..5][0] == u[0];
    }
  }

  lemma {:induction false} OneSame(t: string, u: string)
    requires Respelled(t, u)
    ensures ParseOne(t).Some? == ParseOne(u).Some?
    ensures ParseOne(t).Some? ==>
      ParseOne(t).value.0 == ParseOne(u).value.0 && Respelled(ParseOne(t).value.1, ParseOne(u).value.1)
  {
    WordLengthSame(t, u);
    var len := WordLength(t);
    if len > 0 {
      WordSame(t, u, len);
      RespelledFrom(t, u, len);
      var r, s := t[len..], u[len..];
      InverseSame(r, s);
      if Starts(r, "[INV]") {
        RespelledFrom(r, s, 5);
        SkipSame(r[5..], s[5..]);
      } else {
        SkipSame(r, s);
      }
      hide StrToPosition, WithFlag, Respelled, SkipToWord, WordLength;
    }
  }

  /** Any two texts that differ only in the case of letters outside the suffixes are read alike. */
  lemma {:induction false} AnyCase(t: string, u: string, ch: nat)
    requires Respelled(t, u)
    ensures ParseRest(t, ch) == ParseRest(u, ch)
    decreases |t|
  {
    hide ParseOne, ParseRest;
    ParseStep(t, ch);
    ParseStep(u, ch);
    OneSame(t, u);
    if ch < MAX_CHANNELS && ParseOne(t).Some? {
      assert |ParseOne(t).value.1| < |t|;
      AnyCase(ParseOne(t).value.1, ParseOne(u).value.1, ch + 1);
    }
  }

  /** A printed map respelled is read as the map. */
  lemma {:induction false} MapInAnyCase(positions: seq<Word>, t: string)
    requires positions != [] && forall pos :: pos in positions ==> Printable(pos)
    requires Respelled(t, MapText(positions))
    ensures ParseRest(t, 0) == if |positions| <= 64 then Some(ToldAll(positions)) else None
  {
    AnyCase(t, MapText(positions), 0);
    MapRoundTrip(positions);
  }

  // ---------------------------------------------------------------- names and refusals

  predicate Letter(c: char) { 'A' <= c <= 'Z' || 'a' <= c <= 'z' }

  /** The word of len characters begins with the name in either case, and no letter follows the name. */
  ghost predicate Says(t: string, len: nat, name: string) {
    && |name| <= len <= |t|
    && SameLetters(t[..|name|], name)
    && (|name| < |t| ==> !Letter(t[|name|]))
  }

  lemma {:induction false} MatchSays(t: string, len: nat, name: string)
    requires len <= |t| && forall k :: 0 <= k < |name| ==> IsUpper(name[k])
    ensures NameMatches(t, len, name) <==> Says(t, len, name)
  {
    if |name| <= len {
      forall k | 0 <= k < |name|
        ensures Lower(t[k]) == Lower(name[k]) <==> SameLetter(t[k], name[k])
      {
        LowerIs(t[k], name[k]);
      }
      assert forall k :: 0 <= k < |name| ==> t[..|name|][k] == t[k];
    }
  }

  lemma {:induction false} NameSays(t: string, len: nat, p: nat)
    requires len <= |t| && p <= LAST
    ensures NameMatches(t, len, NAMES[p]) <==> Says(t, len, NAMES[p])
  {
    assert |NAMES| == LAST + 1;
    hide NAMES, IsUpper, NameMatches, Says, PositionOf, Signature;
    AllNamed(p);
    MatchSays(t, len, NAMES[p]);
  }

  /** What is found is the first name that the word says; 37 if it says none. */
  lemma {:induction false} FirstName(t: string, len: nat, val: nat)
    requires len <= |t| && val <= 37
    ensures var n := FindName(t, len, val);
            && val <= n <= 37 && (n < 37 ==> Says(t, len, NAMES[n]))
            && forall p: nat :: val <= p < n ==> !Says(t, len, NAMES[p])
    decreases 37 - val
  {
    hide NAMES, NameMatches, Says;
    NamesCount();
    if val <= LAST {
      NameSays(t, len, val);
      if !NameMatches(t, len, NAMES[val]) {
        FirstName(t, len, val + 1);
      }
    }
  }

  lemma {:induction false} NamesCount()
    ensures |NAMES| == LAST + 1 == 37
  {
  }

  /** Whether the text begins with "ch" in either case. */
  predicate Numbered(t: string) { |t| >= 2 && (t[0] == 'c' || t[0] == 'C') && (t[1] == 'h' || t[1] == 'H') }

  lemma {:induction false} NumberedIs(t: string)
    ensures StartsNoCase(t, "ch") <==> Numbered(t)
  {
    if |t| >= 2 {
      LowerIs(t[0], 'c');
      LowerIs(t[1], 'h');
    }
  }

  /** A word that starts with a letter but not with "ch" is refused exactly when it says no name,
      and is otherwise the first position whose name it says, with the flag if "[INV]" follows the
      name in either case. */
  lemma {:induction false} LetterWord(t: string, len: nat)
    requires 0 < len <= |t| && Letter(t[0]) && !Numbered(t)
    ensures (forall p: nat :: p <= 36 ==> !Says(t, len, NAMES[p])) <==> StrToPosition(t, len) == -1
    ensures forall p: nat ::
      p <= 36 && Says(t, len, NAMES[p]) && (forall q: nat :: q < p ==> !Says(t, len, NAMES[q])) ==>
      StrToPosition(t, len) == p + (if InverseFollows(t, |NAMES[p]|) then 0x10000 else 0)
  {
    hide NAMES, Says, FindName, StartsNoCase, Flagged, InverseFollows;
    NamesCount();
    NumberedIs(t);
    FirstName(t, len, 0);
    var n := FindName(t, len, 0);
    if n <= 36 {
      FlaggedName(n, t, |NAMES[n]|);
    }
  }

  ghost predicate InverseFollows(t: string, n: nat) {
    n + 5 <= |t| && SameLetters(t[n..n + 5], "[INV]")
  }

  lemma {:induction false} InverseIs(r: string)
    ensures StartsNoCase(r, "[INV]") <==> InverseFollows(r, 0)
  {
    if |r| >= 5 {
      forall k | 0 <= k < 5
        ensures Lower(r[k]) == Lower("[INV]"[k]) <==> SameLetter(r[k], "[INV]"[k])
      {
        LowerIs(r[k], "[INV]"[k]);
      }
      assert forall k :: 0 <= k < 5 ==> r[0..5][k] == r[k];
    }
  }

  lemma {:induction false} FlaggedName(n: nat, t: string, at: nat)
    requires n <= 36 && at <= |t|
    ensures Flagged(n, t[at..]) == n + (if InverseFollows(t, at) then 0x10000 else 0)
  {
    InverseIs(t[at..]);
    if at + 5 <= |t| {
      assert t[at..][0..5] == t[at..at + 5];
    }
  }

  /** A text is refused whose first word is empty, or starts with a letter, is not numbered and
      says no name. */
  lemma {:induction false} Refused(t: string, ch: nat)
    requires (t == "" || !IsAlnum(t[0])) ||
             (Letter(t[0]) && !Numbered(t) && forall p: nat :: p <= 36 ==> !Says(t, WordLength(t), NAMES[p]))
    ensures ParseRest(t, ch) == None
  {
    var len := WordLength(t);
    if len > 0 {
      LetterWord(t, len);
    }
    ParseStep(t, ch);
    hide ParseRest, StrToPosition, Says, NAMES;
  }

  // ---------------------------------------------------------------- numbers as words

  function DigitIn(d: nat): (c: char)
    requires d < 16
    ensures IsAlnum(c) && DigitValue(c) == d
  {
    if d < 10 then '0' + d as char else 'a' + (d - 10) as char
  }

  /** A number's text in a base up to 16. */
  function InBase(n: nat, base: nat): (s: string)
    requires 2 <= base <= 16
    ensures |s| > 0 && forall k :: 0 <= k < |s| ==> IsAlnum(s[k]) && DigitValue(s[k]) < base
  {
    if n < base then [DigitIn(n)] else DivSmaller(n, base); InBase(n / base, base) + [DigitIn(n % base)]
  }

  lemma {:induction false} DivSmaller(n: nat, base: nat)
    requires 2 <= base <= n
    ensures 0 <= n / base < n && 0 <= n % base < base
  {
    DivBounds(n, base);
    MulMono(2, base, n);
    assert n * base == base * n;
    if n / base >= n {
      MulMono(n, n / base, base);
    }
    if n / base < 0 {
      MulMono(n / base + 1, 0, base);
    }
  }

  lemma {:induction false} ReadInBase(n: nat, base: nat)
    requires 2 <= base <= 16
    ensures ReadDigits(InBase(n, base), base, 0) == (n, "")
  {
    if n < base {
      ReadOne(n, base, 0);
    } else {
      DivSmaller(n, base);
      var q, d := n / base, n % base;
      assert q * base + d == n;
      assert InBase(n, base) == InBase(q, base) + [DigitIn(d)];
      hide InBase, ReadDigits, DigitValue, DigitIn;
      ReadInBase(q, base);
      ReadOne(d, base, q);
      ReadAppend(InBase(q, base), [DigitIn(d)], base, 0);
    }
  }

  lemma {:induction false} ReadOne(d: nat, base: nat, acc: nat)
    requires d < base <= 16
    ensures ReadDigits([DigitIn(d)], base, acc) == (acc * base + d, "")
  {
    assert [DigitIn(d)][1..] == "";
    assert ReadDigits("", base, acc * base + d) == (acc * base + d, "");
  }

  lemma {:induction false} ReadBefore(n: nat, base: nat, r: string)
    requires 2 <= base <= 16 && (r == "" || DigitValue(r[0]) >= base)
    ensures ReadDigits(InBase(n, base) + r, base, 0) == (n, r)
  {
    ReadInBase(n, base);
    ReadAppend(InBase(n, base), r, base, 0);
  }

  /** Decimal text is the text in base ten. */
  lemma {:induction false} DecimalIsBaseTen(n: nat)
    ensures Decimal(n) == InBase(n, 10)
    ensures n >= 10 ==> Decimal(n)[..|Decimal(n)| - 1] == Decimal(n / 10)
    ensures Decimal(n)[|Decimal(n)| - 1] as int == '0' as int + n % 10
  {
    if n >= 10 {
      DecimalIsBaseTen(n / 10);
    }
  }

  /** The number strtoul returns: the greatest one when there are too many digits. */
  function Saturated(n: nat): int { if n < 0x1_0000_0000_0000_0000 then n else 0xFFFF_FFFF_FFFF_FFFF }

  /** After "0x" in either case a number is read in base sixteen. */
  lemma {:induction false} HexBack(x: char, n: nat, r: string)
    requires (x == 'x' || x == 'X') && (r == "" || DigitValue(r[0]) >= 16)
    ensures StrToUl(['0', x] + InBase(n, 16) + r) == (Saturated(n), r)
  {
    var digits := InBase(n, 16) + r;
    var t := ['0', x] + InBase(n, 16) + r;
    assert t == ['0', x] + digits && t[2..] == digits && t[2] == InBase(n, 16)[0];
    assert SkipSpace(t) == t && !Starts(t, "-") && !Starts(t, "+");
    ReadBefore(n, 16, r);
    assert |digits| > |r|;
  }

  /** After a "0" alone, in base eight. */
  lemma {:induction false} OctalBack(n: nat, r: string)
    requires r == "" || DigitValue(r[0]) >= 8
    ensures StrToUl("0" + InBase(n, 8) + r) == (Saturated(n), r)
  {
    var digits := InBase(n, 8) + r;
    var t := "0" + InBase(n, 8) + r;
    assert t == "0" + digits && t[1..] == digits && t[1] == InBase(n, 8)[0];
    assert SkipSpace(t) == t && !Starts(t, "-") && !Starts(t, "+") && Starts(t, "0");
    ReadBefore(n, 8, r);
    assert ReadDigits(t, 8, 0) == ReadDigits(digits, 8, 0);
    assert |t| > |r|;
  }

  /** The digits of a decimal text are read in the base its first digit asks for. */
  lemma {:induction false} DecimalRead(n: nat, r: string)
    requires r == "" || (DigitValue(r[0]) >= 10 && r[0] != 'x' && r[0] != 'X')
    ensures var t := Decimal(n) + r;
            && |t| > |r| && '0' <= t[0] <= '9' && !HexStart(t)
            && ReadDigits(t, if Starts(t, "0") then 8 else 10, 0) == (n, r)
  {
    var t := Decimal(n) + r;
    assert t[0] == Decimal(n)[0];
    assert t[..1] == [t[0]];
    if n == 0 {
      assert t[1..] == r;
      ReadMore(t, 8, 0, 0);
      ReadStop(r, 8, 0);
      assert |t| >= 2 ==> t[1] == r[0];
    } else {
      DecimalIsBaseTen(n);
      ReadBefore(n, 10, r);
    }
    hide Decimal, ReadDigits, InBase;
  }

  /** And otherwise in base ten. */
  lemma {:induction false} TenBack(n: nat, r: string)
    requires r == "" || (DigitValue(r[0]) >= 10 && r[0] != 'x' && r[0] != 'X')
    ensures StrToUl(Decimal(n) + r) == (Saturated(n), r)
  {
    var t := Decimal(n) + r;
    DecimalRead(n, r);
    Prefixed(' ', t);
    hide Decimal, ReadDigits, SkipSpace, Starts, DigitValue;
  }

  /** A position read from a number that strtoul finds. */
  lemma {:induction false} NumberRead(t: string, len: nat, n: nat, r: string)
    requires 0 < len <= |t| && IsDigit(t[0]) && StrToUl(t) == (n, r) && n < 0x10000 && Follows(r)
    ensures StrToPosition(t, len) == n + 0x20000
  {
    assert ToUInt(n) == n && !HasFlag(n, DRIVER_SPEC);
  }

  /** A driver's number in base sixteen or eight is read as that number. */
  lemma {:induction false} DriverNumber(x: char, n: nat, r: string)
    requires (x == 'x' || x == 'X') && n < 0x10000 && Follows(r)
    ensures ParseOne(['0', x] + InBase(n, 16) + r) == Some((n + 0x20000, SkipToWord(r)))
    ensures ParseOne("0" + InBase(n, 8) + r) == Some((n + 0x20000, SkipToWord(r)))
  {
    HexBack(x, n, r);
    OctalBack(n, r);
    DriverWord(['0', x] + InBase(n, 16), n, r);
    DriverWord("0" + InBase(n, 8), n, r);
  }

  lemma {:induction false} DriverWord(w: string, n: nat, r: string)
    requires w != "" && IsDigit(w[0]) && (forall k :: 0 <= k < |w| ==> IsAlnum(w[k])) && Follows(r)
    requires StrToUl(w + r) == (n, r) && n < 0x10000
    ensures ParseOne(w + r) == Some((n + 0x20000, SkipToWord(r)))
  {
    WordLengthIs(w, r);
    NumberRead(w + r, |w|, n, r);
    PlainWord(w, r, n + 0x20000);
  }

  /** What follows a word that is no suffix is skipped up to the next word. */
  lemma {:induction false} PlainWord(w: string, r: string, val: Word)
    requires w != "" && WordLength(w + r) == |w| && Follows(r) && StrToPosition(w + r, |w|) == val
    ensures ParseOne(w + r) == Some((val, SkipToWord(r)))
  {
    assert (w + r)[|w|..] == r;
    hide StrToPosition, SkipToWord, WordLength;
  }

  /** "ch" in either case and a number is that number, without the driver's flag. */
  lemma {:induction false} NumberedWord(c: char, h: char, n: nat, r: string)
    requires (c == 'c' || c == 'C') && (h == 'h' || h == 'H') && n < 0x8000_0000 && Follows(r)
    ensures ParseOne([c, h] + Decimal(n) + r) == Some((n, SkipToWord(r)))
  {
    var w := [c, h] + Decimal(n);
    var t := w + r;
    assert t[2..] == Decimal(n) + r && t[0] == c && t[1] == h;
    WordLengthIs(w, r);
    NumberedIs(t);
    TenBack(n, r);
    hide StrToUl, Decimal;
    assert StrToPosition(t, |w|) == n;
    PlainWord(w, r, n);
  }

  /** A number alone is a driver's, and is refused exactly when its low 32 bits are negative as an
      int, or there are too many digits. */
  lemma {:induction false} NumberRefused(n: nat, r: string)
    requires Follows(r)
    ensures ParseOne(Decimal(n) + r) == None <==> n >= 0xFFFF_FFFF_FFFF_FFFF || n % 0x1_0000_0000 >= 0x8000_0000
  {
    var t, len := Decimal(n) + r, |Decimal(n)|;
    assert t[0] == Decimal(n)[0];
    WordLengthIs(Decimal(n), r);
    TenBack(n, r);
    assert !StartsNoCase(r, "[INV]");
    if n < 0xFFFF_FFFF_FFFF_FFFF {
      SignBit(n % 0x1_0000_0000);
    }
    hide Decimal, StrToUl, WordLength, HasFlag;
  }

  lemma {:induction false} SignBit(w: Word)
    ensures ToInt(WithFlag(w, DRIVER_SPEC)) < 0 <==> w >= 0x8000_0000
  {
    if !HasFlag(w, DRIVER_SPEC) {
      var q, m := w / 0x20000, w % 0x20000;
      assert w == q * 0x20000 + m && q % 2 == 0;
    }
  }

  /** A printed map: names in capitals, a driver's number, the suffix, and one space between. */
  lemma {:induction false} PrintedText(n: nat)
    requires n < 0x10000
    ensures MapText([4 + 0x10000, 3, n + 0x20000]) == "FR[INV] " + ("FL " + Decimal(n))
  {
    var p: seq<Word> := [4 + 0x10000, 3, n + 0x20000];
    assert NAMES[3] == "FL" && NAMES[4] == "FR";
    hide NAMES, Decimal;
    PositionIs(4 + 0x10000, 4, true, false);
    PositionIs(3, 3, false, false);
    PositionIs(n + 0x20000, n, false, true);
    hide Printable, Position, HasFlag;
    assert PositionText(p[0]) == "FR[INV]" && PositionText(p[1]) == "FL" && PositionText(p[2]) == Decimal(n);
    hide PositionText;
    TextOfMore(p);
    TextOfMore(p[1..]);
    assert p[1..][1..] == [p[2]];
  }

  lemma {:induction false} TextOfMore(positions: seq<Word>)
    requires |positions| > 1 && forall pos :: pos in positions ==> Printable(pos)
    ensures MapText(positions) == PositionText(positions[0]) + " " + MapText(positions[1..])
  {
  }

  /** A position is its number and the two flags, of 2^16 and 2^17. */
  lemma {:induction false} PositionIs(pos: Word, n: nat, inverse: bool, driver: bool)
    requires n < 0x10000 && pos == n + (if inverse then 0x10000 else 0) + (if driver then 0x20000 else 0)
    ensures Position(pos) == n && HasFlag(pos, PHASE_INVERSE) == inverse && HasFlag(pos, DRIVER_SPEC) == driver
  {
  }

  // ---------------------------------------------------------------- separators, spaces and signs

  predicate LetterOrDigit(c: char) { Letter(c) || '0' <= c <= '9' }

  /** Characters that separate words; the first is not the bracket of a suffix. */
  ghost predicate Separator(s: string) {
    (forall k :: 0 <= k < |s| ==> !LetterOrDigit(s[k])) && (s != "" ==> s[0] != '[')
  }

  lemma {:induction false} SkipSeparator(s: string, rest: string)
    requires (forall k :: 0 <= k < |s| ==> !LetterOrDigit(s[k])) && (rest == "" || LetterOrDigit(rest[0]))
    ensures SkipToWord(s + rest) == rest
  {
    if s == "" {
      assert s + rest == rest;
    } else {
      assert (s + rest)[1..] == s[1..] + rest;
      SkipSeparator(s[1..], rest);
    }
  }

  /** The positions' texts, each with what follows it. */
  function Joined(positions: seq<Word>, seps: seq<string>): string
    requires |seps| == |positions| && forall pos :: pos in positions ==> Printable(pos)
  {
    if positions == [] then "" else PositionText(positions[0]) + (seps[0] + Joined(positions[1..], seps[1..]))
  }

  lemma {:induction false} JoinedBegins(positions: seq<Word>, seps: seq<string>)
    requires |seps| == |positions| > 0 && forall pos :: pos in positions ==> Printable(pos) && pos < 0x40000
    ensures Joined(positions, seps) != "" && LetterOrDigit(Joined(positions, seps)[0])
  {
    BodyIsWord(positions[0]);
    assert PositionText(positions[0])[0] == Body(positions[0])[0];
    hide PositionText, Body, Printable;
  }

  /** A separator after each word; only the last may be empty. */
  ghost predicate Separators(seps: seq<string>) {
    (forall k :: 0 <= k < |seps| ==> Separator(seps[k])) && forall k :: 0 <= k < |seps| - 1 ==> seps[k] != ""
  }

  lemma {:induction false} OtherSeparators(seps: seq<string>)
    requires seps != [] && Separators(seps)
    ensures Separators(seps[1..]) && Separator(seps[0]) && (|seps| > 1 ==> seps[0] != "")
  {
  }

  /** Any characters but letters and digits separate the words, and may follow the last. */
  lemma {:induction false} AnySeparators(positions: seq<Word>, seps: seq<string>, ch: nat)
    requires positions != [] && forall pos :: pos in positions ==> Printable(pos) && pos < 0x40000
    requires |seps| == |positions| && Separators(seps) && ch <= 64
    ensures ParseRest(Joined(positions, seps), ch) == if ch + |positions| <= 64 then Some(positions) else None
    decreases |positions|
  {
    hide *;
    OtherSeparators(seps);
    FirstOfJoined(positions, seps);
    if |positions| > 1 {
      JoinedBegins(positions[1..], seps[1..]);
      if ch < 64 {
        AnySeparators(positions[1..], seps[1..], ch + 1);
      }
    } else {
      assert positions[1..] == [] && seps[1..] == [];
      NoneJoined();
    }
    ReadsOn(Joined(positions, seps), Joined(positions[1..], seps[1..]), positions[0], positions[1..], ch);
    assert positions == [positions[0]] + positions[1..];
  }

  /** One position read, and the others behind it. */
  lemma {:induction false} ReadsOn(t: string, rest: string, pos: Word, others: seq<Word>, ch: nat)
    requires ParseOne(t) == Some((pos, rest)) && ch <= 64 && (rest == "" <==> others == [])
    requires ch < 64 && others != [] ==>
      ParseRest(rest, ch + 1) == if ch + 1 + |others| <= 64 then Some(others) else None
    ensures ParseRest(t, ch) == if ch + 1 + |others| <= 64 then Some([pos] + others) else None
  {
    hide ParseOne, ParseRest;
    ParseStep(t, ch);
    assert others == [] ==> [pos] + others == [pos];
  }

  lemma {:induction false} NoneJoined()
    ensures Joined([], []) == ""
  {
  }

  lemma {:induction false} FirstOfJoined(positions: seq<Word>, seps: seq<string>)
    requires positions != [] && forall pos :: pos in positions ==> Printable(pos) && pos < 0x40000
    requires |seps| == |positions| && Separator(seps[0]) && (|seps| > 1 ==> seps[0] != "")
    ensures ParseOne(Joined(positions, seps)) == Some((positions[0], Joined(positions[1..], seps[1..])))
  {
    var rest := Joined(positions[1..], seps[1..]);
    if |positions| > 1 {
      JoinedBegins(positions[1..], seps[1..]);
    }
    var r := seps[0] + rest;
    assert r != "" ==> seps[0] != "" && r[0] == seps[0][0];
    assert Joined(positions, seps) == PositionText(positions[0]) + r;
    hide ParseOne, PositionText, Joined;
    PositionBack(positions[0], r);
    SkipSeparator(seps[0], rest);
  }

  predicate Blank(c: char) { c == ' ' || 9 <= c as int <= 13 }

  /** Blanks before a number are passed over; a minus sign turns it over, modulo 2^64. */
  lemma {:induction false} BlanksAndSigns(c: char, n: nat, r: string)
    requires Blank(c) && n < 0x1_0000_0000_0000_0000 && (r == "" || !LetterOrDigit(r[0]))
    ensures StrToUl([c] + (Decimal(n) + r)) == (n, r)
    ensures StrToUl("+" + (Decimal(n) + r)) == (n, r)
    ensures StrToUl("-" + (Decimal(n) + r)) == (if n == 0 then 0 else 0x1_0000_0000_0000_0000 - n, r)
  {
    assert r == "" || DigitValue(r[0]) >= 10;
    hide Decimal, ReadDigits, SkipSpace, Starts, DigitValue;
    var t := Decimal(n) + r;
    DecimalRead(n, r);
    Prefixed(c, t);
    Prefixed('+', t);
    Prefixed('-', t);
    Negated(n);
  }

  lemma {:induction false} Negated(n: nat)
    requires n < 0x1_0000_0000_0000_0000
    ensures ToULong(0 - n) == if n == 0 then 0 else 0x1_0000_0000_0000_0000 - n
  {
    ConversionsWrap(0 - n, 1);
  }

  lemma {:induction false} Prefixed(c: char, t: string)
    requires t != "" && '0' <= t[0] <= '9'
    ensures SkipSpace(t) == t && !Starts(t, "-") && !Starts(t, "+")
    ensures Blank(c) ==> SkipSpace([c] + t) == t
    ensures c == '-' || c == '+' ==> SkipSpace([c] + t) == [c] + t && ([c] + t)[1..] == t
    ensures c == '-' ==> Starts([c] + t, "-") && !Starts([c] + t, "+")
    ensures c == '+' ==> Starts([c] + t, "+") && !Starts([c] + t, "-")
  {
    assert ([c] + t)[1..] == t && ([c] + t)[..1] == [c];
  }
}
