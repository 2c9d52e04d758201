/** The UTF-16 / UTF-8 transcoder the plugin injects into every class: `_utf8ByteLength`,
    `_writeString` and `_readString`, against UTF-16 (section 2.1 of RFC 2781) and UTF-8
    (sections 3 and 4 of RFC 3629). A JavaScript string is its sequence of 16-bit code units. */
module Utf {
  import opened Words

  datatype Result<+T> = Ok(value: T) | UnexpectedEnd

  //
  // Unicode scalar values, UTF-16 and UTF-8.
  //

  type Scalar = v: int | 0 <= v < 0xD800 || 0xE000 <= v < 0x11_0000

  predicate IsHigh(c: u16) {
    0xD800 <= c < 0xDC00
  }

  predicate IsLow(c: u16) {
    0xDC00 <= c < 0xE000
  }

  /** The scalar value of a surrogate pair. */
  function Pair(high: u16, low: u16): (v: Scalar)
    requires IsHigh(high) && IsLow(low)
    ensures Units(v) == [high, low]
  {
    var h: int, l: int := high, low;
    0x1_0000 + (h - 0xD800) * 0x400 + (l - 0xDC00)
  }

  /** The scalar value at the front of a string and the units it takes; a surrogate outside a pair
      denotes U+FFFD. */
  function First(s: seq<u16>): (r: (Scalar, nat))
    requires s != []
    ensures 1 <= r.1 <= |s|
  {
    if IsHigh(s[0]) && |s| > 1 && IsLow(s[1]) then (Pair(s[0], s[1]), 2)
    else (if IsHigh(s[0]) || IsLow(s[0]) then 0xFFFD else s[0], 1)
  }

  /** The scalar values a string denotes. */
  function Scalars(s: seq<u16>): seq<Scalar> {
    if s == [] then [] else [First(s).0] + Scalars(s[First(s).1..])
  }

  function Units(v: Scalar): (s: seq<u16>)
    ensures 1 <= |s| <= 2
  {
    if v < 0x1_0000 then [v]
    else [0xD800 + (v - 0x1_0000) / 0x400, 0xDC00 + (v - 0x1_0000) % 0x400]
  }

  function Utf16(vs: seq<Scalar>): seq<u16> {
    if vs == [] then [] else Units(vs[0]) + Utf16(vs[1..])
  }

  /** The table of section 3 of RFC 3629. */
  function Octets(v: Scalar): (b: seq<byte>)
    ensures 1 <= |b| <= 4
  {
    if v < 0x80 then [v]
    else if v < 0x800 then [0xC0 + v / 0x40, 0x80 + v % 0x40]
    else if v < 0x1_0000 then [0xE0 + v / 0x1000, 0x80 + v / 0x40 % 0x40, 0x80 + v % 0x40]
    else [0xF0 + v / 0x4_0000, 0x80 + v / 0x1000 % 0x40, 0x80 + v / 0x40 % 0x40, 0x80 + v % 0x40]
  }

  function Utf8(vs: seq<Scalar>): seq<byte> {
    if vs == [] then [] else Octets(vs[0]) + Utf8(vs[1..])
  }

  /** The encoding of a string that the generated code must produce. */
  function Encode(s: seq<u16>): seq<byte> {
    Utf8(Scalars(s))
  }

  /** The string with every lone surrogate replaced by U+FFFD. */
  function WellFormedVersion(s: seq<u16>): seq<u16> {
    Utf16(Scalars(s))
  }

  predicate Lone(s: seq<u16>, i: nat)
    requires i < |s|
  {
    || (IsHigh(s[i]) && !(i + 1 < |s| && IsLow(s[i + 1])))
    || (IsLow(s[i]) && !(i > 0 && IsHigh(s[i - 1])))
  }

  predicate WellFormed(s: seq<u16>) {
    forall i :: 0 <= i < |s| ==> !Lone(s, i)
  }

  predicate Tail(b: byte) {
    0x80 <= b < 0xC0
  }

  /** The number of octets of the UTF8-char (section 4 of RFC 3629) at the front of `b`, 0 if none. */
  function CharLength(b: seq<byte>): (n: nat)
    ensures n <= |b|
  {
    if |b| >= 1 && b[0] < 0x80 then 1
    else if |b| >= 2 && 0xC2 <= b[0] <= 0xDF && Tail(b[1]) then 2
    else if |b| >= 3 && Tail(b[2])
            && (|| (b[0] == 0xE0 && 0xA0 <= b[1] <= 0xBF)
                || (0xE1 <= b[0] <= 0xEC && Tail(b[1]))
                || (b[0] == 0xED && 0x80 <= b[1] <= 0x9F)
                || (0xEE <= b[0] <= 0xEF && Tail(b[1]))) then 3
    else if |b| >= 4 && Tail(b[2]) && Tail(b[3])
            && (|| (b[0] == 0xF0 && 0x90 <= b[1] <= 0xBF)
                || (0xF1 <= b[0] <= 0xF3 && Tail(b[1]))
                || (b[0] == 0xF4 && 0x80 <= b[1] <= 0x8F)) then 4
    else 0
  }

  predicate WellFormedUtf8(b: seq<byte>) {
    b == [] || (CharLength(b) > 0 && WellFormedUtf8(b[CharLength(b)..]))
  }

  //
  // What `_readString` computes: a lenient decoder that reads 0 past the end of the buffer.
  //

  function At(buffer: seq<byte>, i: nat): byte {
    if i < |buffer| then buffer[i] else 0
  }

  /** The low six bits of the octet at `i`. */
  function Six(buffer: seq<byte>, i: nat): (r: int)
    ensures 0 <= r < 0x40
  {
    At(buffer, i) % 0x40
  }

  function FromCharCode(x: int): u16 {
    x % 0x1_0000
  }

  /** `String.fromCharCode((t & 0x1F) << 6 | x)`, and its three- and four-octet siblings, for the
      lead octet `t` and the low six bits of the octets after it. */
  function FromTwo(t: int, x: int): (s: seq<u16>)
    requires 0 <= x < 0x40
    ensures |s| == 1
  {
    [FromCharCode(Or(t % 0x20 * 0x40, x, 0x40))]
  }

  function FromThree(t: int, x: int, y: int): (s: seq<u16>)
    requires 0 <= x < 0x40 && 0 <= y < 0x40
    ensures |s| == 1
  {
    [FromCharCode(Or(t % 0x10 * 0x1000, Or(x * 0x40, y, 0x40), 0x1000))]
  }

  function Join21(t: int, x: int, y: int, z: int): int
    requires 0 <= x < 0x40 && 0 <= y < 0x40 && 0 <= z < 0x40
  {
    Or(t % 8 * 0x4_0000, Or(x * 0x1000, Or(y * 0x40, z, 0x40), 0x1000), 0x4_0000)
  }

  function FromFour(t: int, x: int, y: int, z: int): (s: seq<u16>)
    requires 0 <= x < 0x40 && 0 <= y < 0x40 && 0 <= z < 0x40
    ensures |s| == 2
  {
    var t2 := Join21(t, x, y, z) - 0x1_0000;
    [FromCharCode(0xD800 + t2 / 0x400), FromCharCode(0xDC00 + t2 % 0x400)]
  }

  /** The units appended for the lead octet at `start`, and the number of octets taken. */
  function ReadChar(buffer: seq<byte>, start: nat): (r: (seq<u16>, nat))
    requires start < |buffer|
    ensures 1 <= r.1 <= 4 && |r.0| <= 2
  {
    var t := buffer[start];
    if t <= 0x7F then ([t], 1)
    else if t < 0xC0 then ([], 1)
    else if t < 0xE0 then (FromTwo(t, Six(buffer, start + 1)), 2)
    else if t < 0xF0 then (FromThree(t, Six(buffer, start + 1), Six(buffer, start + 2)), 3)
    else (FromFour(t, Six(buffer, start + 1), Six(buffer, start + 2), Six(buffer, start + 3)), 4)
  }

  function ReadUnits(buffer: seq<byte>, start: nat, end: nat): (s: seq<u16>)
    requires end <= |buffer|
    decreases end - start
  {
    if start >= end then []
    else
      var (units, n) := ReadChar(buffer, start);
      units + ReadUnits(buffer, start + n, end)
  }

  //
  // The generated methods.
  //

  method Utf8ByteLength(str: seq<u16>) returns (len: nat)
    ensures len == |Encode(str)|
  {
    len := 0;
    var i := 0;
    while i < |str|
      invariant 0 <= i <= |str|
      invariant len + |Encode(str[i..])| == |Encode(str)|
    {
      var c := str[i];
      EncodeStep(str[i..]);
      if c < 0x80 {
        len := len + 1;
      } else if c < 0x800 {
        len := len + 2;
      } else if c >= 0xD800 && c < 0xDC00 {
        if i + 1 < |str| {
          var c2 := str[i + 1];
          if c2 >= 0xDC00 && c2 < 0xE000 {
            assert str[i..][2..] == str[i + 2..];
            len := len + 4;
            i := i + 2;
            continue;
          }
        }
        len := len + 3;
      } else if c >= 0xDC00 && c < 0xE000 {
        len := len + 3;
      } else {
        len := len + 3;
      }
      assert str[i..][1..] == str[i + 1..];
      i := i + 1;
    }
  }

  /** Stores `octets` at `offset`; the generated code does this one `buf[offset++] = ...` at a time. */
  method Put(octets: seq<byte>, buf: array<byte>, offset: nat) returns (end: nat)
    requires offset + |octets| <= buf.Length
    modifies buf
    ensures end == offset + |octets|
    ensures buf[..] == old(buf[..])[..offset] + octets + old(buf[..])[end..]
  {
    end := offset;
    var k := 0;
    while k < |octets|
      invariant 0 <= k <= |octets| && end == offset + k
      invariant buf[..] == old(buf[..])[..offset] + octets[..k] + old(buf[..])[end..]
    {
      buf[end] := octets[k];
      end := end + 1;
      k := k + 1;
    }
  }

  /** The stores of `_writeString` for a two-, three- and four-octet character, with its shifts,
      masks and ors: they are the table of section 3 of RFC 3629. */
  function TwoOctets(c: Scalar): (octets: seq<byte>)
    requires 0x80 <= c < 0x800
    ensures octets == Octets(c)
  {
    [Or(0xC0, c / 0x40, 0x40), Or(0x80, c % 0x40, 0x40)]
  }

  function ThreeOctets(c: Scalar): (octets: seq<byte>)
    requires 0x800 <= c < 0x1_0000
    ensures octets == Octets(c)
  {
    [Or(0xE0, c / 0x1000, 0x10), Or(0x80, c / 0x40 % 0x40, 0x40), Or(0x80, c % 0x40, 0x40)]
  }

  function FourOctets(c: Scalar): (octets: seq<byte>)
    requires 0x1_0000 <= c
    ensures octets == Octets(c)
  {
    [Or(0xF0, c / 0x4_0000, 0x10), Or(0x80, c / 0x1000 % 0x40, 0x40),
     Or(0x80, c / 0x40 % 0x40, 0x40), Or(0x80, c % 0x40, 0x40)]
  }

  /** `0x10000 + (((c & 0x3ff) << 10) | (c2 & 0x3ff))` */
  function JoinPair(c: u16, c2: u16): (v: Scalar)
    requires IsHigh(c) && IsLow(c2)
    ensures v == Pair(c, c2)
  {
    var high: int, low: int := c, c2;
    0x1_0000 + Or(high % 0x400 * 0x400, low % 0x400, 0x400)
  }

  lemma EncodeStep(s: seq<u16>)
    requires s != []
    ensures Encode(s) == Octets(First(s).0) + Encode(s[First(s).1..])
  {
    assert Scalars(s)[1..] == Scalars(s[First(s).1..]);
  }

  /** Two consecutive runs of stores are one run. */
  lemma RunsJoin(start: seq<byte>, mid: seq<byte>, end: seq<byte>, offset: nat, a: seq<byte>, b: seq<byte>)
    requires offset + |a| + |b| <= |start|
    requires mid == start[..offset] + a + start[offset + |a|..]
    requires end == mid[..offset + |a|] + b + mid[offset + |a| + |b|..]
    ensures end == start[..offset] + (a + b) + start[offset + |a| + |b|..]
  {
    assert mid[..offset + |a|] == start[..offset] + a;
    assert mid[offset + |a| + |b|..] == start[offset + |a| + |b|..];
  }

  /** The body of the loop of `_writeString`: the octets stored for the character at `i`, and the
      units it consumes. */
  method CharOctets(str: seq<u16>, i: nat) returns (octets: seq<byte>, taken: nat)
    requires i < |str|
    ensures octets == Octets(First(str[i..]).0)
    ensures taken == First(str[i..]).1
  {
    var c := str[i];
    taken := 1;
    if c < 0x80 {
      octets := [c];
    } else if c < 0x800 {
      octets := TwoOctets(c);
    } else if c >= 0xD800 && c < 0xDC00 {
      var valid := false;
      if i + 1 < |str| {
        var c2 := str[i + 1];
        if c2 >= 0xDC00 && c2 < 0xE000 {
          octets := FourOctets(JoinPair(c, c2));
          taken := 2;
          valid := true;
        }
      }
      if !valid {
        octets := [0xEF, 0xBF, 0xBD];
      }
    } else if c >= 0xDC00 && c < 0xE000 {
      octets := [0xEF, 0xBF, 0xBD];
    } else {
      octets := ThreeOctets(c);
    }
  }

  lemma EncodeExtend(str: seq<u16>, i: nat, done: seq<byte>)
    requires i < |str| && done + Encode(str[i..]) == Encode(str)
    ensures var (v, n) := First(str[i..]);
      (done + Octets(v)) + Encode(str[i + n..]) == Encode(str)
  {
    var (v, n) := First(str[i..]);
    EncodeStep(str[i..]);
    assert str[i..][n..] == str[i + n..];
  }

  method WriteString(str: seq<u16>, buf: array<byte>, offset: nat) returns (written: nat)
    requires offset + |Encode(str)| <= buf.Length
    modifies buf
    ensures written == |Encode(str)|
    ensures buf[..] == old(buf[..])[..offset] + Encode(str) + old(buf[..])[offset + written..]
  {
    hide *;
    var at := offset;
    var i := 0;
    ghost var done: seq<byte> := [];
    ghost var start := buf[..];
    assert buf[..] == start[..offset] + done + start[at..];
    while i < |str|
      invariant 0 <= i <= |str|
      invariant at == offset + |done| && at <= |start| == buf.Length
      invariant done + Encode(str[i..]) == Encode(str)
      invariant buf[..] == start[..offset] + done + start[at..]
    {
      var octets, taken := CharOctets(str, i);
      EncodeExtend(str, i, done);
      ghost var mid := buf[..];
      at := Put(octets, buf, at);
      RunsJoin(start, mid, buf[..], offset, done, octets);
      done := done + octets;
      i := i + taken;
    }
    EncodeOfNothing(str, i);
    written := at - offset;
  }

  lemma EncodeOfNothing(str: seq<u16>, i: nat)
    requires i == |str|
    ensures Encode(str[i..]) == []
  {
  }

  /** The body of the loop of `_readString`: the units appended for the octet at `at`, and the octets
      consumed. A stray continuation octet appends nothing. */
  method CharUnits(buffer: array<byte>, at: nat) returns (units: seq<u16>, taken: nat)
    requires at < buffer.Length
    ensures (units, taken) == ReadChar(buffer[..], at)
  {
    hide FromTwo, FromThree, FromFour, Six;
    var t: int := buffer[at];
    units := [];
    taken := 1;
    if t <= 0x7F {
      units := [t];
    } else if t >= 0xC0 && t < 0xE0 {
      units := FromTwo(t, Six(buffer[..], at + 1));
      taken := 2;
    } else if t >= 0xE0 && t < 0xF0 {
      units := FromThree(t, Six(buffer[..], at + 1), Six(buffer[..], at + 2));
      taken := 3;
    } else if t >= 0xF0 {
      units := FromFour(t, Six(buffer[..], at + 1), Six(buffer[..], at + 2), Six(buffer[..], at + 3));
      taken := 4;
    }
  }

  method ReadString(buffer: array<byte>, start: nat, length: nat) returns (r: Result<seq<u16>>)
    ensures r == if start + length > buffer.Length then UnexpectedEnd
                 else Ok(ReadUnits(buffer[..], start, start + length))
  {
    hide ReadChar;
    var res: seq<u16> := [];
    var at := start;
    var end := start + length;
    if end > buffer.Length {
      return UnexpectedEnd;
    }
    while at < end
      invariant start <= at
      invariant res + ReadUnits(buffer[..], at, end) == ReadUnits(buffer[..], start, end)
      decreases end - at
    {
      var units, taken := CharUnits(buffer, at);
      ghost var rest := ReadUnits(buffer[..], at + taken, end);
      assert res + (units + rest) == (res + units) + rest;
      res := res + units;
      at := at + taken;
    }
    assert res + [] == res;
    r := Ok(res);
  }

  //
  // What the three methods mean together.
  //

  /** Pairing reads every high surrogate that a low one follows, so the replacement is pointwise. */
  lemma {:induction false} WellFormedVersionAt(s: seq<u16>, i: nat)
    requires i < |s|
    ensures |WellFormedVersion(s)| == |s|
    ensures WellFormedVersion(s)[i] == if Lone(s, i) then 0xFFFD else s[i]
    decreases |s|
  {
    if IsHigh(s[0]) && |s| > 1 && IsLow(s[1]) {
      var t := s[2..];
      assert Scalars(s)[1..] == Scalars(t);
      assert Units(Scalars(s)[0]) == [s[0], s[1]];
      assert WellFormedVersion(s) == [s[0], s[1]] + WellFormedVersion(t);
      if i >= 2 {
        WellFormedVersionAt(t, i - 2);
        assert Lone(s, i) == Lone(t, i - 2);
      } else if t != [] {
        WellFormedVersionAt(t, 0);
      }
    } else {
      var t := s[1..];
      assert Scalars(s)[1..] == Scalars(t);
      assert WellFormedVersion(s) == [if Lone(s, 0) then 0xFFFD else s[0]] + WellFormedVersion(t);
      if i >= 1 {
        WellFormedVersionAt(t, i - 1);
        assert Lone(s, i) == Lone(t, i - 1);
      } else if t != [] {
        WellFormedVersionAt(t, 0);
      }
    }
  }

  lemma WellFormedVersionIsIdentityOn(s: seq<u16>)
    ensures WellFormedVersion(s) == s <==> WellFormed(s)
  {
    if s != [] {
      WellFormedVersionAt(s, 0);
      forall i | 0 <= i < |s| ensures WellFormedVersion(s)[i] == if Lone(s, i) then 0xFFFD else s[i] {
        WellFormedVersionAt(s, i);
      }
    }
  }

  lemma {:induction false} Utf8IsWellFormed(vs: seq<Scalar>)
    ensures WellFormedUtf8(Utf8(vs))
  {
    if vs != [] {
      var v := vs[0];
      var b := Utf8(vs);
      assert CharLength(b) == |Octets(v)|;
      assert b[|Octets(v)|..] == Utf8(vs[1..]);
      Utf8IsWellFormed(vs[1..]);
    }
  }

  /** `_writeString` always emits well-formed UTF-8. */
  lemma EncodeIsWellFormedUtf8(s: seq<u16>)
    ensures WellFormedUtf8(Encode(s))
  {
    Utf8IsWellFormed(Scalars(s));
  }

  lemma FromTwoInverse(v: Scalar)
    requires 0x80 <= v < 0x800
    ensures FromTwo(0xC0 + v / 0x40, v % 0x40) == Units(v)
  {
  }

  lemma FromThreeInverse(v: Scalar)
    requires 0x800 <= v < 0x1_0000
    ensures FromThree(0xE0 + v / 0x1000, v / 0x40 % 0x40, v % 0x40) == Units(v)
  {
    assert v / 0x40 == v / 0x1000 * 0x40 + v / 0x40 % 0x40;
  }

  lemma Join21Inverse(v: Scalar)
    requires 0x1_0000 <= v
    ensures Join21(0xF0 + v / 0x4_0000, v / 0x1000 % 0x40, v / 0x40 % 0x40, v % 0x40) == v
  {
    assert v / 0x40 == v / 0x1000 * 0x40 + v / 0x40 % 0x40;
    assert v / 0x1000 == v / 0x4_0000 * 0x40 + v / 0x1000 % 0x40;
    assert v / 0x4_0000 < 8;
  }

  lemma FromFourInverse(v: Scalar)
    requires 0x1_0000 <= v
    ensures FromFour(0xF0 + v / 0x4_0000, v / 0x1000 % 0x40, v / 0x40 % 0x40, v % 0x40) == Units(v)
  {
    hide Join21;
    Join21Inverse(v);
  }

  lemma ReadCharOfOctets(buffer: seq<byte>, start: nat, v: Scalar)
    requires start + |Octets(v)| <= |buffer|
    requires buffer[start..start + |Octets(v)|] == Octets(v)
    ensures ReadChar(buffer, start) == (Units(v), |Octets(v)|)
  {
    hide ReadChar, FromTwo, FromThree, FromFour, Six, Units;
    var n := |Octets(v)|;
    AtSlice(buffer, start, n, 0);
    if v < 0x80 {
      ReadOneOctet(buffer, start, v);
    } else if v < 0x800 {
      AtSlice(buffer, start, n, 1);
      SixOfTail(buffer, start + 1, v % 0x40);
      FromTwoInverse(v);
      ReadTwoOctets(buffer, start, v);
    } else if v < 0x1_0000 {
      AtSlice(buffer, start, n, 1);
      AtSlice(buffer, start, n, 2);
      SixOfTail(buffer, start + 1, v / 0x40 % 0x40);
      SixOfTail(buffer, start + 2, v % 0x40);
      FromThreeInverse(v);
      ReadThreeOctets(buffer, start, v);
    } else {
      AtSlice(buffer, start, n, 1);
      AtSlice(buffer, start, n, 2);
      AtSlice(buffer, start, n, 3);
      SixOfTail(buffer, start + 1, v / 0x1000 % 0x40);
      SixOfTail(buffer, start + 2, v / 0x40 % 0x40);
      SixOfTail(buffer, start + 3, v % 0x40);
      FromFourInverse(v);
      ReadFourOctets(buffer, start, v);
    }
  }

  lemma ReadOneOctet(buffer: seq<byte>, start: nat, v: Scalar)
    requires start < |buffer| && v < 0x80 && At(buffer, start) == v
    ensures ReadChar(buffer, start) == (Units(v), 1)
  {
  }

  lemma ReadTwoOctets(buffer: seq<byte>, start: nat, v: Scalar)
    requires start < |buffer| && 0x80 <= v < 0x800
    requires At(buffer, start) == 0xC0 + v / 0x40 && Six(buffer, start + 1) == v % 0x40
    requires FromTwo(0xC0 + v / 0x40, v % 0x40) == Units(v)
    ensures ReadChar(buffer, start) == (Units(v), 2)
  {
    hide FromTwo, Six, Units;
  }

  lemma ReadThreeOctets(buffer: seq<byte>, start: nat, v: Scalar)
    requires start < |buffer| && 0x800 <= v < 0x1_0000
    requires At(buffer, start) == 0xE0 + v / 0x1000
    requires Six(buffer, start + 1) == v / 0x40 % 0x40 && Six(buffer, start + 2) == v % 0x40
    requires FromThree(0xE0 + v / 0x1000, v / 0x40 % 0x40, v % 0x40) == Units(v)
    ensures ReadChar(buffer, start) == (Units(v), 3)
  {
    hide FromThree, Six, Units;
  }

  lemma ReadFourOctets(buffer: seq<byte>, start: nat, v: Scalar)
    requires start < |buffer| && 0x1_0000 <= v
    requires At(buffer, start) == 0xF0 + v / 0x4_0000 && Six(buffer, start + 1) == v / 0x1000 % 0x40
    requires Six(buffer, start + 2) == v / 0x40 % 0x40 && Six(buffer, start + 3) == v % 0x40
    requires FromFour(0xF0 + v / 0x4_0000, v / 0x1000 % 0x40, v / 0x40 % 0x40, v % 0x40) == Units(v)
    ensures ReadChar(buffer, start) == (Units(v), 4)
  {
    hide FromFour, Six, Units;
  }

  lemma AtSlice(buffer: seq<byte>, start: nat, n: nat, k: nat)
    requires k < n && start + n <= |buffer|
    ensures At(buffer, start + k) == buffer[start..start + n][k]
  {
  }

  lemma SixOfTail(buffer: seq<byte>, i: nat, x: nat)
    requires x < 0x40 && At(buffer, i) == 0x80 + x
    ensures Six(buffer, i) == x
  {
  }

  lemma {:induction false} ReadOfUtf8(buffer: seq<byte>, start: nat, vs: seq<Scalar>)
    requires start + |Utf8(vs)| <= |buffer|
    requires buffer[start..start + |Utf8(vs)|] == Utf8(vs)
    ensures ReadUnits(buffer, start, start + |Utf8(vs)|) == Utf16(vs)
    decreases |vs|
  {
    hide Octets, ReadChar, Units;
    if vs != [] {
      var o := Octets(vs[0]);
      var here := buffer[start..start + |Utf8(vs)|];
      assert buffer[start..start + |o|] == here[..|o|] == o;
      ReadCharOfOctets(buffer, start, vs[0]);
      assert buffer[start + |o|..start + |Utf8(vs)|] == here[|o|..] == Utf8(vs[1..]);
      ReadOfUtf8(buffer, start + |o|, vs[1..]);
    }
  }

  /** Reading back what was written gives the string, each lone surrogate replaced by U+FFFD. */
  lemma ReadOfWrite(buffer: seq<byte>, start: nat, s: seq<u16>)
    requires start + |Encode(s)| <= |buffer|
    requires buffer[start..start + |Encode(s)|] == Encode(s)
    ensures ReadUnits(buffer, start, start + |Encode(s)|) == WellFormedVersion(s)
  {
    ReadOfUtf8(buffer, start, Scalars(s));
  }

  lemma {:induction false} Utf16RoundTrip(vs: seq<Scalar>)
    ensures Scalars(Utf16(vs)) == vs
  {
    if vs != [] {
      var u := Units(vs[0]);
      var s := Utf16(vs);
      assert s[|u|..] == Utf16(vs[1..]);
      Utf16RoundTrip(vs[1..]);
    }
  }

  /** Every UTF8-char is the encoding of a scalar value. */
  lemma CharIsOctets(b: seq<byte>) returns (v: Scalar)
    requires CharLength(b) > 0
    ensures Octets(v) == b[..CharLength(b)]
  {
    var n := CharLength(b);
    var b0: int := b[0];
    if n == 1 {
      v := b0;
    } else if n == 2 {
      v := (b0 - 0xC0) * 0x40 + (b[1] - 0x80);
    } else if n == 3 {
      v := ThreeIsOctets(b);
    } else {
      v := FourIsOctets(b);
    }
  }

  lemma ThreeIsOctets(b: seq<byte>) returns (v: Scalar)
    requires CharLength(b) == 3
    ensures Octets(v) == b[..3]
  {
    var b0: int, x1: int, x2: int := b[0], b[1] - 0x80, b[2] - 0x80;
    v := (b0 - 0xE0) * 0x1000 + x1 * 0x40 + x2;
    Digits(b0 - 0xE0, x1, x2);
  }

  lemma FourIsOctets(b: seq<byte>) returns (v: Scalar)
    requires CharLength(b) == 4
    ensures Octets(v) == b[..4]
  {
    var b0: int, x1: int, x2: int, x3: int := b[0], b[1] - 0x80, b[2] - 0x80, b[3] - 0x80;
    v := (b0 - 0xF0) * 0x4_0000 + x1 * 0x1000 + x2 * 0x40 + x3;
    Digits((b0 - 0xF0) * 0x40 + x1, x2, x3);
    assert v / 0x4_0000 == v / 0x1000 / 0x40;
  }

  lemma Digits(x: nat, y: nat, z: nat)
    requires y < 0x40 && z < 0x40
    ensures var v := x * 0x1000 + y * 0x40 + z; v / 0x1000 == x && v / 0x40 % 0x40 == y && v % 0x40 == z
  {
    assert (x * 0x1000 + y * 0x40 + z) / 0x40 == x * 0x40 + y;
  }

  lemma {:induction false} Utf8IsOnto(b: seq<byte>) returns (vs: seq<Scalar>)
    requires WellFormedUtf8(b)
    ensures Utf8(vs) == b
  {
    hide Octets;
    if b == [] {
      vs := [];
    } else {
      var n := CharLength(b);
      var rest := Utf8IsOnto(b[n..]);
      var v := CharIsOctets(b);
      vs := [v] + rest;
      assert b == b[..n] + b[n..];
    }
  }

  /** The other direction: on well-formed UTF-8, writing what was read restores the octets. */
  lemma WriteOfRead(b: seq<byte>)
    requires WellFormedUtf8(b)
    ensures Encode(ReadUnits(b, 0, |b|)) == b
    ensures WellFormed(ReadUnits(b, 0, |b|))
  {
    var vs := Utf8IsOnto(b);
    assert b[0..|b|] == b;
    ReadOfUtf8(b, 0, vs);
    Utf16RoundTrip(vs);
    WellFormedVersionIsIdentityOn(Utf16(vs));
  }

  //
  // Octets that are not UTF-8.
  //

  /** A continuation octet where a lead is expected is dropped. */
  lemma StrayTailIsDropped(buffer: seq<byte>, start: nat, end: nat)
    requires start < end <= |buffer| && 0x80 <= buffer[start] <= 0xBF
    ensures ReadUnits(buffer, start, end) == ReadUnits(buffer, start + 1, end)
  {
  }

  /** The low six bits of the octet `k` after a lead, whatever its high bits are. */
  lemma SixIs(buffer: seq<byte>, i: nat)
    ensures Six(buffer, i) == if i < |buffer| then buffer[i] % 64 else 0
  {
  }

  /** Any other lead takes the octets its high bits announce, whatever they are and even past the end of the
      text: overlong forms, surrogates and values above U+10FFFF are computed like the rest, on 16 bits. */
  lemma LeadIsTrusted(buffer: seq<byte>, start: nat, end: nat)
    requires start < end <= |buffer| && !(0x80 <= buffer[start] <= 0xBF)
    ensures var t: int := buffer[start];
      var x, y, z := Six(buffer, start + 1), Six(buffer, start + 2), Six(buffer, start + 3);
      ReadUnits(buffer, start, end)
      == if t < 0x80 then [t] + ReadUnits(buffer, start + 1, end)
         else if t <= 0xDF then [(t - 0xC0) * 64 + x] + ReadUnits(buffer, start + 2, end)
         else if t <= 0xEF then [(t - 0xE0) * 4096 + x * 64 + y] + ReadUnits(buffer, start + 3, end)
         else
           var v := t % 8 * 262144 + x * 4096 + y * 64 + z - 0x1_0000;
           [(0xD800 + v / 1024) % 0x1_0000, 0xDC00 + v % 1024] + ReadUnits(buffer, start + 4, end)
  {
    hide Six, FromTwo, FromThree, FromFour, ReadUnits;
    ReadStep(buffer, start, end);
    var t := buffer[start];
    var x, y, z := Six(buffer, start + 1), Six(buffer, start + 2), Six(buffer, start + 3);
    if 0xC0 <= t < 0xE0 {
      TwoIs(t, x);
    } else if 0xE0 <= t < 0xF0 {
      ThreeIs(t, x, y);
    } else if 0xF0 <= t {
      FourIs(t, x, y, z);
    }
  }

  lemma ReadStep(buffer: seq<byte>, start: nat, end: nat)
    requires start < end <= |buffer|
    ensures var (units, n) := ReadChar(buffer, start);
      ReadUnits(buffer, start, end) == units + ReadUnits(buffer, start + n, end)
  {
    hide ReadChar;
  }

  lemma TwoIs(t: byte, x: int)
    requires 0xC0 <= t < 0xE0 && 0 <= x < 0x40
    ensures FromTwo(t, x) == [(t - 0xC0) * 64 + x]
  {
  }

  lemma ThreeIs(t: byte, x: int, y: int)
    requires 0xE0 <= t < 0xF0 && 0 <= x < 0x40 && 0 <= y < 0x40
    ensures FromThree(t, x, y) == [(t - 0xE0) * 4096 + x * 64 + y]
  {
  }

  lemma FourIs(t: byte, x: int, y: int, z: int)
    requires 0 <= x < 0x40 && 0 <= y < 0x40 && 0 <= z < 0x40
    ensures var v := t % 8 * 262144 + x * 4096 + y * 64 + z - 0x1_0000;
      FromFour(t, x, y, z) == [(0xD800 + v / 1024) % 0x1_0000, 0xDC00 + v % 1024]
  {
    hide Join21, FromCharCode;
    Join21Is(t, x, y, z);
    SurrogatesOf(Join21(t, x, y, z) - 0x1_0000);
  }

  lemma SurrogatesOf(v: int)
    ensures FromCharCode(0xD800 + v / 0x400) == (0xD800 + v / 1024) % 0x1_0000
    ensures FromCharCode(0xDC00 + v % 0x400) == 0xDC00 + v % 1024
  {
  }

  lemma Join21Is(t: byte, x: int, y: int, z: int)
    requires 0 <= x < 0x40 && 0 <= y < 0x40 && 0 <= z < 0x40
    ensures Join21(t, x, y, z) == t % 8 * 262144 + x * 4096 + y * 64 + z
  {
  }

  /** A string whose last octet is a four-octet lead, after ASCII only: that octet yields a whole pair. */
  predicate EndsInLead(buffer: seq<byte>, start: nat, end: nat) {
    start < end <= |buffer| && buffer[end - 1] >= 0xF0 && forall k :: start <= k < end - 1 ==> buffer[k] < 0x80
  }

  /** The decoder produces at most one code unit more than the octets it was given, and exactly when it
      does. */
  lemma {:induction false} ReadUnitsLength(buffer: seq<byte>, start: nat, end: nat)
    requires start <= end <= |buffer|
    ensures |ReadUnits(buffer, start, end)| <= end - start + 1
    ensures |ReadUnits(buffer, start, end)| > end - start <==> EndsInLead(buffer, start, end)
    decreases end - start
  {
    hide FromTwo, FromThree, Six, EndsInLead;
    if start == end {
      EmptyEndsNowhere(buffer, start);
    } else {
      EndsInLeadStep(buffer, start, end);
      var next := start + ReadChar(buffer, start).1;
      if next <= end {
        ReadUnitsLength(buffer, next, end);
      }
    }
  }

  lemma EndsInLeadStep(buffer: seq<byte>, start: nat, end: nat)
    requires start < end <= |buffer|
    ensures EndsInLead(buffer, start, end)
       <==> if start + 1 == end then buffer[start] >= 0xF0
            else buffer[start] < 0x80 && EndsInLead(buffer, start + 1, end)
  {
  }

  lemma EmptyEndsNowhere(buffer: seq<byte>, start: nat)
    ensures !EndsInLead(buffer, start, start)
  {
  }

  predicate Ascii(s: seq<u16>) {
    forall i :: 0 <= i < |s| ==> s[i] < 0x80
  }

  /** One octet for each unit exactly when the string is ASCII, otherwise more. */
  lemma {:induction false} EncodeLength(s: seq<u16>)
    ensures |Encode(s)| >= |s|
    ensures |Encode(s)| == |s| <==> Ascii(s)
    decreases |s|
  {
    hide Encode, Pair;
    if s == [] {
      assert s[0..] == s;
      EncodeOfNothing(s, 0);
    } else {
      var (v, n) := First(s);
      EncodeStep(s);
      EncodeLength(s[n..]);
      assert forall i :: n <= i < |s| ==> s[i] == s[n..][i - n];
      assert forall i :: 0 <= i < |s[n..]| ==> s[n..][i] == s[i + n];
      assert n == 2 ==> s[0] >= 0x80 && |Octets(v)| == 4 by {
        if n == 2 { assert v == Pair(s[0], s[1]); PairIsLarge(s[0], s[1]); }
      }
    }
  }

  /** At most three octets for each unit. */
  lemma {:induction false} EncodeIsShort(s: seq<u16>)
    ensures |Encode(s)| <= 3 * |s|
    decreases |s|
  {
    hide Encode, Pair;
    if s == [] {
      assert s[0..] == s;
      EncodeOfNothing(s, 0);
    } else {
      var (v, n) := First(s);
      EncodeStep(s);
      EncodeIsShort(s[n..]);
    }
  }

  lemma PairIsLarge(high: u16, low: u16)
    requires IsHigh(high) && IsLow(low)
    ensures Pair(high, low) >= 0x1_0000
  {
  }
}
