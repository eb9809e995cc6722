/** The alarms table: the colour a task tag is drawn in, the order of the
    `HH:mm` start column, the shortened id and the weekday filter. */
module Alarms {
  import opened Outcomes
  import opened Numerals

  // ---------------------------------------------------------------------
  // JavaScript integer operators, on exact integers
  // ---------------------------------------------------------------------

  const TwoTo32: int := 4294967296
  const TwoTo31: int := 2147483648
  const TwoTo24: int := 16777216

  predicate IsInt32(x: int) {
    -TwoTo31 <= x < TwoTo31
  }

  /** ECMAScript ToInt32 on an integral number: the two's complement reading
      of its low 32 bits. */
  function ToInt32(x: int): (r: int)
    ensures IsInt32(r)
    ensures (r - x) % TwoTo32 == 0
  {
    var m := x % TwoTo32;
    if m >= TwoTo31 then m - TwoTo32 else m
  }

  /** `x << 5`. */
  function ShiftLeft5(x: int): (r: int)
    ensures IsInt32(r)
    ensures (r - 32 * x) % TwoTo32 == 0
  {
    var t := ToInt32(x);
    var r := ToInt32(t * 32);
    assert r - 32 * x == (r - 32 * t) + 32 * (t - x);
    MultipleOf32Sum(r - 32 * t, t - x);
    r
  }

  function Pow2(n: nat): (p: nat)
    ensures p >= 1
  {
    if n == 0 then 1 else 2 * Pow2(n - 1)
  }

  /** `x >> n` (sign-propagating): ToInt32, then floor division by 2^n. */
  function ShiftRight(x: int, n: nat): int
    requires n < 32
  {
    ToInt32(x) / Pow2(n)
  }

  /** `x & 0xFF`: the low eight bits of the two's complement integer. */
  function LowByte(x: int): (r: nat)
    ensures r < 256
  {
    x % 256
  }

  // ---------------------------------------------------------------------
  // Modular arithmetic helpers
  // ---------------------------------------------------------------------

  lemma MultipleOf32Sum(a: int, b: int)
    requires a % TwoTo32 == 0 && b % TwoTo32 == 0
    ensures (a + 32 * b) % TwoTo32 == 0
  {
  }

  lemma MultipleOf31Sum(a: int, b: int)
    requires a % TwoTo32 == 0 && b % TwoTo32 == 0
    ensures (a + 31 * b) % TwoTo32 == 0
  {
  }

  // ---------------------------------------------------------------------
  // The string hash
  // ---------------------------------------------------------------------

  /** One round of the hash loop: `hash = code + ((hash << 5) - hash)`.
      The subtraction and the addition are on JavaScript numbers, not on
      32-bit integers, so the new hash is not reduced. */
  function HashStep(hash: int, code: int): (r: int)
    ensures (r - (31 * hash + code)) % TwoTo32 == 0
  {
    code + (ShiftLeft5(hash) - hash)
  }

  /** The value the first loop of `stringToColour` leaves in `hash`: a left
      fold of `HashStep` over the character codes. */
  function JsHash(s: string): int {
    if s == [] then 0 else HashStep(JsHash(s[..|s| - 1]), s[|s| - 1] as int)
  }

  /** The textbook polynomial string hash `h <- c + 31 h`, on exact integers. */
  function PolyHash(s: string): int {
    if s == [] then 0 else 31 * PolyHash(s[..|s| - 1]) + s[|s| - 1] as int
  }

  /** Modulo 2^32 the loop computes the polynomial hash: the shift by five
      minus the hash is multiplication by 31. */
  lemma {:induction false} JsHashAgrees(s: string)
    ensures (JsHash(s) - PolyHash(s)) % TwoTo32 == 0
  {
    if s != [] {
      var init, c := s[..|s| - 1], s[|s| - 1] as int;
      JsHashAgrees(init);
      var h, p := JsHash(init), PolyHash(init);
      var sh := ShiftLeft5(h);
      assert JsHash(s) - PolyHash(s) == (sh - 32 * h) + 31 * (h - p);
      MultipleOf31Sum(sh - 32 * h, h - p);
    }
  }

  /** Each round moves the hash by less than 2^32, so it stays within
      |s| * 2^32; for strings of at most 2^21 characters that is within
      2^53, where JavaScript numbers hold integers exactly. */
  lemma {:induction false} JsHashBound(s: string)
    ensures -|s| * TwoTo32 <= JsHash(s) <= |s| * TwoTo32
  {
    if s != [] {
      JsHashBound(s[..|s| - 1]);
    }
  }

  lemma JsHashExact(s: string)
    requires |s| <= 2097152
    ensures -9007199254740992 <= JsHash(s) <= 9007199254740992
  {
    JsHashBound(s);
  }

  // ---------------------------------------------------------------------
  // Hexadecimal rendering
  // ---------------------------------------------------------------------

  predicate IsLowerHex(c: char) {
    '0' <= c <= '9' || 'a' <= c <= 'f'
  }

  /** The lowercase digit of `Number.prototype.toString(16)`. */
  function HexDigit(n: nat): (c: char)
    requires n < 16
    ensures IsLowerHex(c)
  {
    if n < 10 then (48 + n) as char else (87 + n) as char
  }

  function HexValue(c: char): (n: nat)
    requires IsLowerHex(c)
    ensures n < 16 && HexDigit(n) == c
  {
    if c <= '9' then c as int - 48 else c as int - 87
  }

  /** `n.toString(16)`: the shortest lowercase hexadecimal numeral. */
  function ToHex(n: nat): (s: string)
    ensures |s| >= 1
    ensures forall i :: 0 <= i < |s| ==> IsLowerHex(s[i])
  {
    if n < 16 then [HexDigit(n)] else ToHex(n / 16) + [HexDigit(n % 16)]
  }

  /** `s.substr(-2)`: the last two characters. */
  function LastTwo(s: string): (t: string)
    requires |s| >= 2
    ensures |t| == 2
  {
    s[|s| - 2..]
  }

  /** The two hexadecimal digits of a byte, high nibble first. */
  function HexByte(b: nat): (s: string)
    requires b < 256
    ensures |s| == 2 && IsLowerHex(s[0]) && IsLowerHex(s[1])
  {
    [HexDigit(b / 16), HexDigit(b % 16)]
  }

  /** `('00' + value.toString(16)).substr(-2)` is the byte as exactly two
      hexadecimal digits. */
  lemma PaddedHex(b: nat)
    requires b < 256
    ensures LastTwo("00" + ToHex(b)) == HexByte(b)
  {
    if b >= 16 {
      assert ToHex(b) == [HexDigit(b / 16)] + [HexDigit(b % 16)];
    }
  }

  /** The byte two hexadecimal digits stand for. */
  function ByteValue(s: string): (b: nat)
    requires |s| == 2 && IsLowerHex(s[0]) && IsLowerHex(s[1])
    ensures b < 256
  {
    16 * HexValue(s[0]) + HexValue(s[1])
  }

  lemma ByteValueHexByte(b: nat)
    requires b < 256
    ensures ByteValue(HexByte(b)) == b
  {
  }

  // ---------------------------------------------------------------------
  // The colour
  // ---------------------------------------------------------------------

  /** Byte `j` of a 24-bit number, least significant first. */
  function Channel(n: nat, j: nat): (b: nat)
    requires n < TwoTo24 && j < 3
    ensures b < 256
  {
    if j == 0 then n % 256 else if j == 1 then n / 256 % 256 else n / 65536
  }

  predicate IsColour(c: string) {
    |c| == 7 && c[0] == '#' && forall i :: 1 <= i < 7 ==> IsLowerHex(c[i])
  }

  /** The colour of the low 24 bits `n` of a hash: `#` and then the three
      bytes of `n`, the least significant byte first, two digits each. */
  function ColourOf(n: nat): (c: string)
    requires n < TwoTo24
    ensures IsColour(c)
  {
    "#" + HexByte(Channel(n, 0)) + HexByte(Channel(n, 1)) + HexByte(Channel(n, 2))
  }

  /** The number a colour string stands for. */
  function ColourValue(c: string): (n: nat)
    requires IsColour(c)
    ensures n < TwoTo24
  {
    ByteValue(c[1..3]) + 256 * ByteValue(c[3..5]) + 65536 * ByteValue(c[5..7])
  }

  /** Reading the colour back gives the low 24 bits of the hash. */
  lemma ColourRoundTrip(n: nat)
    requires n < TwoTo24
    ensures ColourValue(ColourOf(n)) == n
  {
    var c := ColourOf(n);
    assert c[1..3] == HexByte(Channel(n, 0));
    assert c[3..5] == HexByte(Channel(n, 1));
    assert c[5..7] == HexByte(Channel(n, 2));
    ByteValueHexByte(Channel(n, 0));
    ByteValueHexByte(Channel(n, 1));
    ByteValueHexByte(Channel(n, 2));
  }

  /** Two hashes get the same colour exactly when their low 24 bits agree. */
  lemma ColourInjective(m: nat, n: nat)
    requires m < TwoTo24 && n < TwoTo24
    ensures ColourOf(m) == ColourOf(n) <==> m == n
  {
    if ColourOf(m) == ColourOf(n) {
      ColourRoundTrip(m);
      ColourRoundTrip(n);
    }
  }

  lemma Pow2Bytes()
    ensures Pow2(0) == 1 && Pow2(8) == 256 && Pow2(16) == 65536
  {
    assert Pow2(4) == 16;
    assert Pow2(8) == 256;
    assert Pow2(12) == 4096;
  }

  lemma Low24(x: int, q: int, r: int)
    requires x == TwoTo24 * q + r && 0 <= r < TwoTo24
    ensures x % TwoTo24 == r
  {
  }

  /** The low 24 bits survive ToInt32. */
  lemma LowBitsInt32(x: int)
    ensures ToInt32(x) % TwoTo24 == x % TwoTo24
  {
    var a, m := x / TwoTo32, x % TwoTo32;
    var b, n := m / TwoTo24, m % TwoTo24;
    Low24(x, 256 * a + b, n);
    if m >= TwoTo31 {
      Low24(m - TwoTo32, b - 256, n);
    }
  }

  /** Numbers that agree modulo 2^32 agree in their low 24 bits. */
  lemma CongruentLowBits(a: int, b: int)
    requires (a - b) % TwoTo32 == 0
    ensures a % TwoTo24 == b % TwoTo24
  {
    var k := (a - b) / TwoTo32;
    assert a == b + TwoTo24 * (256 * k);
  }

  /** The bytes of a 32-bit integer `t` that agrees with `n` in the low
      24 bits are the bytes of `n`. */
  lemma BytesOfInt32(t: int, n: nat)
    requires n < TwoTo24 && t % TwoTo24 == n
    ensures t % 256 == Channel(n, 0)
    ensures t / 256 % 256 == Channel(n, 1)
    ensures t / 65536 % 256 == Channel(n, 2)
  {
    var k := t / TwoTo24;
    assert t == n + TwoTo24 * k;
    assert t / 256 == n / 256 + 65536 * k;
    assert t / 65536 == n / 65536 + 256 * k;
  }

  /** `(hash >> (j * 8)) & 0xFF` is byte `j` of the low 24 bits of the hash. */
  lemma ShiftedByte(hash: int, j: nat)
    requires j < 3
    ensures LowByte(ShiftRight(hash, j * 8)) == Channel(hash % TwoTo24, j)
  {
    LowBitsInt32(hash);
    BytesOfInt32(ToInt32(hash), hash % TwoTo24);
    Pow2Bytes();
  }

  /** Each loop round appends the next byte's two digits to the colour. */
  lemma ColourPrefix(n: nat, j: nat)
    requires n < TwoTo24 && j < 3
    ensures ColourOf(n)[..3 + 2 * j] == ColourOf(n)[..1 + 2 * j] + HexByte(Channel(n, j))
  {
    var c := ColourOf(n);
    assert c[1 + 2 * j] == HexByte(Channel(n, j))[0] && c[2 + 2 * j] == HexByte(Channel(n, j))[1];
  }

  /** `stringToColour(str)`: hash the character codes, then render the low
      three bytes of the hash, least significant first, as `#` and six
      lowercase hexadecimal digits. */
  method StringToColour(str: string) returns (colour: string)
    ensures colour == ColourOf(PolyHash(str) % TwoTo24)
    ensures IsColour(colour)
  {
    var hash := 0;
    for i := 0 to |str|
      invariant hash == JsHash(str[..i])
    {
      assert str[..i + 1][..i] == str[..i];
      hash := str[i] as int + ((ShiftLeft5(hash)) - hash);
    }
    assert str[..|str|] == str;
    JsHashAgrees(str);
    var n := PolyHash(str) % TwoTo24;
    CongruentLowBits(hash, PolyHash(str));
    colour := "#";
    for j := 0 to 3
      invariant colour == ColourOf(n)[..1 + 2 * j]
    {
      var value := LowByte(ShiftRight(hash, j * 8));
      ShiftedByte(hash, j);
      PaddedHex(value);
      ColourPrefix(n, j);
      colour := colour + LastTwo("00" + ToHex(value));
    }
    assert ColourOf(n)[..7] == ColourOf(n);
  }

  /** The empty string hashes to zero and is drawn black. */
  lemma EmptyStringColour()
    ensures ColourOf(PolyHash("") % TwoTo24) == "#000000"
  {
  }

  // ---------------------------------------------------------------------
  // The start-time column
  // ---------------------------------------------------------------------

  /** date-fns `parse(s, 'HH:mm', reference)`: two digits of hour below 24,
      a colon, two digits of minute below 60. The time of day is kept as
      minutes after midnight of the reference day; `None` is Invalid Date. */
  function ParseClock(s: string): (r: Option<nat>)
    ensures r.Some? ==> r.value < 1440
  {
    if |s| == 5 && s[2] == ':' && AllDigits(s[..2]) && AllDigits(s[3..]) then
      var hours, minutes := ValueOf(s[..2]), ValueOf(s[3..]);
      if hours < 24 && minutes < 60 then Some(60 * hours + minutes) else None
    else None
  }

  /** The `HH:mm` rendering of a time of day given in minutes. */
  function FormatClock(m: nat): (s: string)
    requires m < 1440
    ensures |s| == 5 && s[2] == ':'
  {
    Padded(m / 60, 2) + ":" + Padded(m % 60, 2)
  }

  lemma ParseFormatClock(m: nat)
    requires m < 1440
    ensures ParseClock(FormatClock(m)) == Some(m)
  {
    var s := FormatClock(m);
    assert s[..2] == Padded(m / 60, 2) && s[3..] == Padded(m % 60, 2);
    ValueOfPadded(m / 60, 2);
    ValueOfPadded(m % 60, 2);
  }

  lemma FormatParseClock(s: string)
    requires ParseClock(s).Some?
    ensures FormatClock(ParseClock(s).value) == s
  {
    var hours, minutes := ValueOf(s[..2]), ValueOf(s[3..]);
    ClockDigits(hours, minutes);
    PaddedValueOf(s[..2]);
    PaddedValueOf(s[3..]);
    assert s[..2] == Padded(hours, 2) && s[3..] == Padded(minutes, 2);
    assert FormatClock(60 * hours + minutes) == s[..2] + ":" + s[3..];
    assert s == s[..2] + ":" + s[3..];
  }

  /** Hours and minutes are the quotient and remainder of the minute of the day. */
  lemma ClockDigits(hours: int, minutes: int)
    requires 0 <= hours && 0 <= minutes < 60
    ensures (60 * hours + minutes) / 60 == hours && (60 * hours + minutes) % 60 == minutes
  {
  }

  /** date-fns `isEqual`: both dates valid and the same instant. */
  predicate IsEqual(a: Option<nat>, b: Option<nat>) {
    a.Some? && b.Some? && a.value == b.value
  }

  /** date-fns `isAfter`: both dates valid and the first one later. */
  predicate IsAfter(a: Option<nat>, b: Option<nat>) {
    a.Some? && b.Some? && a.value > b.value
  }

  /** `dateStringSorter('HH:mm')(a, b)`: 0 for equal times, 1 when `a` is
      later, -1 otherwise, invalid times included. */
  function DateStringSorter(a: string, b: string): (r: int)
    ensures r == -1 || r == 0 || r == 1
    ensures r == 0 <==> IsEqual(ParseClock(a), ParseClock(b))
    ensures r == 1 <==> IsAfter(ParseClock(a), ParseClock(b))
  {
    var aT, bT := ParseClock(a), ParseClock(b);
    if IsEqual(aT, bT) then 0 else if IsAfter(aT, bT) then 1 else -1
  }

  /** On valid times the comparator orders by time of day. */
  lemma SorterOrdersByTime(m: nat, n: nat)
    requires m < 1440 && n < 1440
    ensures DateStringSorter(FormatClock(m), FormatClock(n)) == if m < n then -1 else if m == n then 0 else 1
  {
    ParseFormatClock(m);
    ParseFormatClock(n);
  }

  /** A valid time compares equal to itself. */
  lemma SorterReflexive(a: string)
    requires ParseClock(a).Some?
    ensures DateStringSorter(a, a) == 0
  {
  }

  /** Swapping two valid times flips the sign. */
  lemma SorterAntisymmetric(a: string, b: string)
    requires ParseClock(a).Some? && ParseClock(b).Some?
    ensures DateStringSorter(b, a) == -DateStringSorter(a, b)
  {
  }

  lemma SorterTransitive(a: string, b: string, c: string)
    requires ParseClock(a).Some? && ParseClock(b).Some? && ParseClock(c).Some?
    requires DateStringSorter(a, b) <= 0 && DateStringSorter(b, c) <= 0
    ensures DateStringSorter(a, c) <= 0
  {
  }

  /** A string that does not parse sorts before every other string in both
      argument orders, so the comparator is not antisymmetric there. */
  lemma SorterInvalid(a: string, b: string)
    requires ParseClock(a).None?
    ensures DateStringSorter(a, b) == -1 && DateStringSorter(b, a) == -1
  {
  }

  // ---------------------------------------------------------------------
  // The id column and the weekday filter
  // ---------------------------------------------------------------------

  /** The Id cell: `${s.substr(0, 5)}...`. */
  function IdLabel(id: string): (cell: string)
    ensures |cell| >= 3 && cell[|cell| - 3..] == "..."
  {
    (if |id| <= 5 then id else id[..5]) + "..."
  }

  /** The label keeps the first five characters of the id, or the whole id
      when it is shorter; two ids get the same label exactly when they
      share that prefix. */
  lemma IdLabelPrefix(id: string, other: string)
    ensures var cell := IdLabel(id);
      |cell| == (if |id| <= 5 then |id| else 5) + 3 && cell[..|cell| - 3] <= id
    ensures |id| >= 5 ==> IdLabel(id)[..5] == id[..5]
    ensures IdLabel(id) == IdLabel(other) <==>
      (if |id| <= 5 then id else id[..5]) == (if |other| <= 5 then other else other[..5])
  {
    var p := if |id| <= 5 then id else id[..5];
    var q := if |other| <= 5 then other else other[..5];
    assert IdLabel(id)[..|IdLabel(id)| - 3] == p;
    if IdLabel(id) == IdLabel(other) {
      assert IdLabel(other)[..|IdLabel(other)| - 3] == q;
    }
  }

  /** The weekday column's `onFilter`: a record with no weekdays passes
      every filter value, any other passes when its weekdays include it. */
  predicate WeekdayFilter(value: int, weekdays: seq<int>) {
    if |weekdays| == 0 then true else value in weekdays
  }

  lemma WeekdayFilterAccepts(value: int, weekdays: seq<int>)
    ensures weekdays == [] ==> WeekdayFilter(value, weekdays)
    ensures weekdays != [] ==>
      (WeekdayFilter(value, weekdays) <==> exists i :: 0 <= i < |weekdays| && weekdays[i] == value)
  {
  }

  /** Only which days a record lists matters to the filter, not their order
      or repetitions. */
  lemma WeekdayFilterSetOnly(value: int, a: seq<int>, b: seq<int>)
    requires forall x :: x in a <==> x in b
    ensures WeekdayFilter(value, a) == WeekdayFilter(value, b)
  {
    if a != [] {
      var day := a[0];
      assert day in a ==> day in b;
    }
    if b != [] {
      var day := b[0];
      assert day in b ==> day in a;
    }
  }

  /** For each of the seven filter values, a record with no weekdays is
      filtered as one that lists every day of the week. */
  lemma NoWeekdaysIsEveryDay(value: int)
    requires 0 <= value < 7
    ensures WeekdayFilter(value, []) == WeekdayFilter(value, [0, 1, 2, 3, 4, 5, 6])
  {
    assert [0, 1, 2, 3, 4, 5, 6][value] == value;
  }

  /** A record whose weekdays are all among the seven filter values passes
      the filter for at least one of them, and for exactly the listed ones
      when it lists any. */
  lemma WeekdayFilterShows(weekdays: seq<int>)
    requires forall i :: 0 <= i < |weekdays| ==> 0 <= weekdays[i] < 7
    ensures exists value :: 0 <= value < 7 && WeekdayFilter(value, weekdays)
    ensures weekdays != [] ==> forall value :: WeekdayFilter(value, weekdays) ==> value in weekdays
  {
    if weekdays == [] {
      assert WeekdayFilter(0, weekdays);
    } else {
      assert WeekdayFilter(weekdays[0], weekdays);
    }
  }
}
