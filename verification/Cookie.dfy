/** The byte scanner for Cookie headers, against splitting and trimming (section 4.2.1 of RFC 6265). */
module Cookie {
  import opened Words
  import opened Wrappers

  const SPACE: byte := 0x20
  const EQUALS: byte := 0x3D
  const SEMICOLON: byte := 0x3B

  /** Where `scanCookies` found a key and its value. */
  datatype Span = Span(keyStart: nat, keyEnd: nat, valStart: nat, valEnd: nat)

  type Pair = (seq<byte>, seq<byte>)

  //
  // Splitting and trimming.
  //

  /** The first index of `c`, or the length. */
  function IndexOf(s: seq<byte>, c: byte): (k: nat)
    ensures k <= |s|
    ensures forall i :: 0 <= i < k ==> s[i] != c
    ensures k < |s| ==> s[k] == c
  {
    if s == [] || s[0] == c then 0 else 1 + IndexOf(s[1..], c)
  }

  function TrimLeft(s: seq<byte>): seq<byte> {
    if s != [] && s[0] == SPACE then TrimLeft(s[1..]) else s
  }

  function TrimRight(s: seq<byte>): seq<byte> {
    if s != [] && s[|s| - 1] == SPACE then TrimRight(s[..|s| - 1]) else s
  }

  function Trim(s: seq<byte>): seq<byte> {
    TrimRight(TrimLeft(s))
  }

  predicate Blank(s: seq<byte>) {
    forall i :: 0 <= i < |s| ==> s[i] == SPACE
  }

  function Split(s: seq<byte>): (r: seq<seq<byte>>)
    ensures r != []
    decreases |s|
  {
    var k := IndexOf(s, SEMICOLON);
    if k == |s| then [s] else [s[..k]] + Split(s[k + 1..])
  }

  function DropBlankLast(segments: seq<seq<byte>>): seq<seq<byte>>
    requires segments != []
  {
    if Blank(segments[|segments| - 1]) then segments[..|segments| - 1] else segments
  }

  /** A segment is cut at its first '='; without one the whole segment is the key. */
  function PairOf(segment: seq<byte>): Pair {
    var e := IndexOf(segment, EQUALS);
    (Trim(segment[..e]), if e < |segment| then Trim(segment[e + 1..]) else [])
  }

  function PairsOf(segments: seq<seq<byte>>): seq<Pair> {
    if segments == [] then [] else [PairOf(segments[0])] + PairsOf(segments[1..])
  }

  /** The simple specification: split on ';', drop a blank last segment, cut and trim each segment. */
  function Pairs(s: seq<byte>): seq<Pair> {
    PairsOf(DropBlankLast(Split(s)))
  }

  lemma DropInTail(first: seq<byte>, rest: seq<seq<byte>>)
    requires rest != []
    ensures PairsOf(DropBlankLast([first] + rest)) == [PairOf(first)] + PairsOf(DropBlankLast(rest))
  {
    hide PairOf, Blank;
    var all := [first] + rest;
    assert DropBlankLast(all) == [first] + DropBlankLast(rest);
    assert DropBlankLast(all)[1..] == DropBlankLast(rest);
  }

  lemma PairsStep(s: seq<byte>)
    ensures var k := IndexOf(s, SEMICOLON);
      Pairs(s) == if k < |s| then [PairOf(s[..k])] + Pairs(s[k + 1..]) else if Blank(s) then [] else [PairOf(s)]
  {
    hide PairOf, Blank, IndexOf;
    var k := IndexOf(s, SEMICOLON);
    if k < |s| {
      DropInTail(s[..k], Split(s[k + 1..]));
    } else {
      assert Split(s) == [s] && [s][..0] == [] && [s][1..] == [];
      assert PairsOf([s]) == [PairOf(s)] + PairsOf([]) == [PairOf(s)];
      assert DropBlankLast([s]) == if Blank(s) then [] else [s];
    }
  }

  lemma {:induction false} TrimLeftIs(s: seq<byte>, lo: nat)
    requires lo <= |s| && Blank(s[..lo]) && (lo < |s| ==> s[lo] != SPACE)
    ensures TrimLeft(s) == s[lo..]
    decreases lo
  {
    if lo > 0 {
      assert s[..lo][0] == SPACE;
      assert s[1..][..lo - 1] == s[..lo][1..];
      TrimLeftIs(s[1..], lo - 1);
    }
  }

  lemma {:induction false} TrimRightIs(s: seq<byte>, hi: nat)
    requires hi <= |s| && Blank(s[hi..]) && (hi > 0 ==> s[hi - 1] != SPACE)
    ensures TrimRight(s) == s[..hi]
    decreases |s|
  {
    if hi < |s| {
      assert s[hi..][|s| - 1 - hi] == SPACE;
      assert s[..|s| - 1][hi..] == s[hi..][..|s| - 1 - hi];
      assert s[..|s| - 1][..hi] == s[..hi];
      TrimRightIs(s[..|s| - 1], hi);
    }
  }

  /** Trimming from both ends at once, by indices of a larger buffer. */
  lemma TrimIs(b: seq<byte>, from: nat, lo: nat, hi: nat, to: nat)
    requires from <= lo <= hi <= to <= |b|
    requires forall i :: from <= i < lo ==> b[i] == SPACE
    requires lo < to ==> b[lo] != SPACE
    requires forall i :: hi <= i < to ==> b[i] == SPACE
    requires lo < hi ==> b[hi - 1] != SPACE
    ensures Trim(b[from..to]) == b[lo..hi]
  {
    var s := b[from..to];
    TrimLeftIs(s, lo - from);
    assert s[lo - from..] == b[lo..to];
    TrimRightIs(b[lo..to], hi - lo);
    assert b[lo..to][..hi - lo] == b[lo..hi];
  }

  //
  // The scanner.
  //

  function Content(b: seq<byte>, p: Span): Pair
    requires InRange(b, p)
  {
    (b[p.keyStart..p.keyEnd], b[p.valStart..p.valEnd])
  }

  predicate InRange(b: seq<byte>, p: Span) {
    p.keyStart <= p.keyEnd <= |b| && p.valStart <= p.valEnd <= |b|
  }

  predicate AllInRange(b: seq<byte>, ps: seq<Span>) {
    forall p :: p in ps ==> InRange(b, p)
  }

  function Contents(b: seq<byte>, ps: seq<Span>): (r: seq<Pair>)
    requires AllInRange(b, ps)
    ensures |r| == |ps|
  {
    seq(|ps|, i requires 0 <= i < |ps| => assert ps[i] in ps; Content(b, ps[i]))
  }

  predicate Spaces(b: seq<byte>, from: nat, to: nat) {
    forall k :: from <= k < to && k < |b| ==> b[k] == 0x20
  }

  /** `lo` to `hi` is `from` to `to` without the spaces at either end; of spaces only, the end is left. */
  predicate Tight(b: seq<byte>, from: nat, lo: nat, hi: nat, to: nat) {
    && from <= lo <= hi <= to <= |b|
    && Spaces(b, from, lo) && (lo < to ==> b[lo] != 0x20)
    && Spaces(b, hi, to) && (lo < hi ==> b[hi - 1] != 0x20)
  }

  /** Where the pointers of the segment from `from` to `to` are. Without '=', the value is empty and stands
      at the end of the key. */
  predicate SpanIs(b: seq<byte>, from: nat, to: nat, p: Span)
    requires from <= to <= |b|
  {
    var cut := from + IndexOf(b[from..to], 0x3D);
    && Tight(b, from, p.keyStart, p.keyEnd, cut)
    && if cut == to then p.valStart == p.keyEnd && p.valEnd == p.keyEnd
       else Tight(b, cut + 1, p.valStart, p.valEnd, to)
  }

  /** The end of the segment that starts at `from`. */
  function SegmentEnd(b: seq<byte>, from: nat): (k: nat)
    requires from <= |b|
    ensures from <= k <= |b|
  {
    from + IndexOf(b[from..], 0x3B)
  }

  /** `ps` are the pointers of the segments up to `end`, one each, in order. */
  ghost predicate Located(b: seq<byte>, ps: seq<Span>, end: nat)
    decreases |ps|, 1
  {
    if ps == [] then end == 0 else exists from: nat :: LastStarts(b, ps, from, end)
  }

  ghost predicate LastStarts(b: seq<byte>, ps: seq<Span>, from: nat, end: nat)
    requires ps != []
    decreases |ps|, 0
  {
    Located(b, ps[..|ps| - 1], from) && IsNext(b, from, ps[|ps| - 1], end)
  }

  ghost predicate IsNext(b: seq<byte>, from: nat, p: Span, end: nat) {
    && from <= |b| && !Blank(b[from..])
    && var k := SegmentEnd(b, from);
       SpanIs(b, from, k, p) && end == if k < |b| then k + 1 else k
  }

  lemma LocatedPush(b: seq<byte>, ps: seq<Span>, from: nat, p: Span, end: nat)
    requires Located(b, ps, from) && IsNext(b, from, p, end)
    ensures Located(b, ps + [p], end)
  {
    hide IsNext;
    assert (ps + [p])[..|ps|] == ps;
    assert LastStarts(b, ps + [p], from, end);
  }

  method SkipSpaces(buffer: array<byte>, start: nat) returns (i: nat)
    requires start <= buffer.Length
    ensures start <= i <= buffer.Length
    ensures forall k :: start <= k < i ==> buffer[k] == SPACE
    ensures i < buffer.Length ==> buffer[i] != SPACE
  {
    i := start;
    while i < buffer.Length && buffer[i] == SPACE
      invariant start <= i <= buffer.Length
      invariant forall k :: start <= k < i ==> buffer[k] == SPACE
    {
      i := i + 1;
    }
  }

  /** Scans for ';', and for '=' too while a key is being read. */
  method ScanTo(buffer: array<byte>, start: nat, stopAtEquals: bool) returns (i: nat)
    requires start <= buffer.Length
    ensures start <= i <= buffer.Length
    ensures forall k :: start <= k < i ==> buffer[k] != SEMICOLON && (stopAtEquals ==> buffer[k] != EQUALS)
    ensures i < buffer.Length ==> buffer[i] == SEMICOLON || (stopAtEquals && buffer[i] == EQUALS)
  {
    i := start;
    while i < buffer.Length && !(stopAtEquals && buffer[i] == EQUALS) && buffer[i] != SEMICOLON
      invariant start <= i <= buffer.Length
      invariant forall k :: start <= k < i ==> buffer[k] != SEMICOLON && (stopAtEquals ==> buffer[k] != EQUALS)
    {
      i := i + 1;
    }
  }

  method TrimEnd(buffer: array<byte>, start: nat, end: nat) returns (e: nat)
    requires start <= end <= buffer.Length
    ensures start <= e <= end
    ensures forall k :: e <= k < end ==> buffer[k] == SPACE
    ensures start < e ==> buffer[e - 1] != SPACE
  {
    e := end;
    while e > start && buffer[e - 1] == SPACE
      invariant start <= e <= end
      invariant forall k :: e <= k < end ==> buffer[k] == SPACE
    {
      e := e - 1;
    }
  }

  /** The first ';' at or after `from` is at `k`, or there is none and `k` is the length. */
  lemma IndexIs(b: seq<byte>, from: nat, k: nat, c: byte)
    requires from <= k <= |b| && (k < |b| ==> b[k] == c)
    requires forall i :: from <= i < k ==> b[i] != c
    ensures IndexOf(b[from..], c) == k - from
  {
    var s := b[from..];
    assert forall i :: 0 <= i < |s| ==> s[i] == b[from + i];
    var e := IndexOf(s, c);
    assert e < |s| ==> b[from + e] == c;
    assert k < |b| ==> s[k - from] == c;
  }

  /** `scanCookies`: what the pointers enclose, and where each of them is. */
  method ScanCookies(buffer: array<byte>) returns (results: seq<Span>)
    ensures AllInRange(buffer[..], results)
    ensures Contents(buffer[..], results) == Pairs(buffer[..])
    ensures exists end: nat :: end <= buffer.Length && Located(buffer[..], results, end) && Blank(buffer[..][end..])
  {
    hide Pairs, PairOf, Trim, IndexOf, Located, IsNext, SpanIs;
    LocatedNothing(buffer[..]);
    results := [];
    var len := buffer.Length;
    var i := 0;
    ghost var b := buffer[..];
    assert b[0..] == b && Contents(b, []) == [];
    while i < len
      invariant 0 <= i <= len
      invariant AllInRange(b, results)
      invariant Contents(b, results) + Pairs(b[i..]) == Pairs(b)
      invariant Located(b, results, i)
    {
      var segment := i;
      i := SkipSpaces(buffer, i);
      if i >= len {
        BlankTail(b, segment);
        assert Contents(b, results) + [] == Contents(b, results);
        assert Located(b, results, segment) && Blank(b[segment..]);
        return;
      }
      var p;
      p, i := ScanPair(buffer, segment, i);
      ghost var k := i;
      results := results + [p];
      if i < len && buffer[i] == SEMICOLON {
        i := i + 1;
      }
      NextIs(b, segment, k, i, p);
      LocatedPush(b, results[..|results| - 1], segment, p, i);
      SegmentDone(b, segment, k, i, p, results[..|results| - 1], results);
    }
    EmptyTail(b, i);
    assert Contents(b, results) + [] == Contents(b, results);
    assert Blank(b[i..]);
  }

  lemma LocatedNothing(b: seq<byte>)
    ensures Located(b, [], 0)
  {
  }

  lemma NextIs(b: seq<byte>, segment: nat, k: nat, i: nat, p: Span)
    requires segment <= k <= |b| && (k < |b| ==> b[k] == SEMICOLON) && i == (if k < |b| then k + 1 else k)
    requires forall j :: segment <= j < k ==> b[j] != SEMICOLON
    requires exists j :: segment <= j < |b| && b[j] != SPACE
    requires SpanIs(b, segment, k, p)
    ensures IsNext(b, segment, p, i)
  {
    hide IndexOf, SpanIs;
    IndexIs(b, segment, k, SEMICOLON);
    var j :| segment <= j < |b| && b[j] != SPACE;
    assert b[segment..][j - segment] != SPACE;
  }

  lemma EmptyTail(b: seq<byte>, i: nat)
    requires i == |b|
    ensures Pairs(b[i..]) == []
  {
    PairsStep(b[i..]);
  }

  lemma BlankTail(b: seq<byte>, segment: nat)
    requires segment <= |b| && forall k :: segment <= k < |b| ==> b[k] == SPACE
    ensures Pairs(b[segment..]) == []
  {
    IndexIs(b, segment, |b|, SEMICOLON);
    PairsStep(b[segment..]);
  }

  lemma ContentsPush(b: seq<byte>, before: seq<Span>, p: Span)
    requires AllInRange(b, before) && InRange(b, p)
    ensures AllInRange(b, before + [p]) && Contents(b, before + [p]) == Contents(b, before) + [Content(b, p)]
  {
    hide Content;
  }

  /** After a segment, whose end is `k`: its pair is appended and `i` is past the ';'. */
  lemma SegmentDone(b: seq<byte>, segment: nat, k: nat, i: nat, p: Span, before: seq<Span>, after: seq<Span>)
    requires segment <= k <= |b| && (k < |b| ==> b[k] == SEMICOLON) && i == (if k < |b| then k + 1 else k)
    requires forall j :: segment <= j < k ==> b[j] != SEMICOLON
    requires exists j :: segment <= j < |b| && b[j] != SPACE
    requires AllInRange(b, before) && InRange(b, p) && after == before + [p]
    requires Content(b, p) == PairOf(b[segment..k])
    requires Contents(b, before) + Pairs(b[segment..]) == Pairs(b)
    ensures AllInRange(b, after) && Contents(b, after) + Pairs(b[i..]) == Pairs(b)
  {
    hide PairOf, Content, Pairs, IndexOf, Contents, AllInRange, InRange;
    var rest := b[segment..];
    IndexIs(b, segment, k, SEMICOLON);
    PairsStep(rest);
    ContentsPush(b, before, p);
    if k < |b| {
      assert rest[..k - segment] == b[segment..k] && rest[k - segment + 1..] == b[i..];
    } else {
      var j :| segment <= j < |b| && b[j] != SPACE;
      assert rest[j - segment] != SPACE;
      assert rest == b[segment..k];
      EmptyTail(b, i);
    }
    assert Contents(b, before) + ([Content(b, p)] + Pairs(b[i..]))
        == (Contents(b, before) + [Content(b, p)]) + Pairs(b[i..]);
  }

  /** The body of the scanner's loop: the pair of the segment that starts at `segment`, whose key starts
      at `keyStart`, and the end of the segment. */
  method ScanPair(buffer: array<byte>, ghost segment: nat, keyStart: nat) returns (p: Span, i: nat)
    requires segment <= keyStart < buffer.Length && buffer[keyStart] != SPACE
    requires forall k :: segment <= k < keyStart ==> buffer[k] == SPACE
    ensures segment <= i <= buffer.Length && (i < buffer.Length ==> buffer[i] == SEMICOLON)
    ensures forall j :: segment <= j < i ==> buffer[j] != SEMICOLON
    ensures InRange(buffer[..], p) && Content(buffer[..], p) == PairOf(buffer[..][segment..i])
    ensures SpanIs(buffer[..], segment, i, p)
  {
    hide Trim, PairOf, IndexOf;
    ghost var b := buffer[..];
    i := ScanTo(buffer, keyStart, true);
    ghost var cut := i;
    var keyEnd := TrimEnd(buffer, keyStart, i);
    TrimIs(b, segment, keyStart, keyEnd, cut);
    var valStart, valEnd := keyEnd, keyEnd;
    if i < buffer.Length && buffer[i] == EQUALS {
      valStart, valEnd, i := ScanValue(buffer, i + 1);
    } else {
      assert b[valStart..valEnd] == [];
    }
    p := Span(keyStart, keyEnd, valStart, valEnd);
    PairIs(b, segment, cut, i);
    IndexWithin(b, segment, cut, i);
  }

  /** The value after '=', up to the ';' that ends it. */
  method ScanValue(buffer: array<byte>, start: nat) returns (valStart: nat, valEnd: nat, i: nat)
    requires start <= buffer.Length
    ensures start <= valStart <= valEnd <= i <= buffer.Length
    ensures i < buffer.Length ==> buffer[i] == SEMICOLON
    ensures forall j :: start <= j < i ==> buffer[j] != SEMICOLON
    ensures buffer[valStart..valEnd] == Trim(buffer[start..i]) && Tight(buffer[..], start, valStart, valEnd, i)
  {
    hide Trim;
    i := SkipSpaces(buffer, start);
    valStart := i;
    i := ScanTo(buffer, i, false);
    valEnd := TrimEnd(buffer, valStart, i);
    TrimIs(buffer[..], start, valStart, valEnd, i);
    assert buffer[..][start..i] == buffer[start..i] && buffer[..][valStart..valEnd] == buffer[valStart..valEnd];
  }

  /** The pair of a segment of a larger buffer whose first '=' is at `cut`. */
  lemma PairIs(b: seq<byte>, segment: nat, cut: nat, end: nat)
    requires segment <= cut <= end <= |b| && (cut < end ==> b[cut] == EQUALS)
    requires forall i :: segment <= i < cut ==> b[i] != EQUALS
    ensures PairOf(b[segment..end])
         == (Trim(b[segment..cut]), if cut < end then Trim(b[cut + 1..end]) else [])
  {
    hide Trim, IndexOf;
    var s := b[segment..end];
    IndexWithin(b, segment, cut, end);
    assert s[..cut - segment] == b[segment..cut];
    if cut < end {
      assert s[cut - segment + 1..] == b[cut + 1..end];
    }
  }

  lemma IndexWithin(b: seq<byte>, from: nat, k: nat, to: nat)
    requires from <= k <= to <= |b| && (k < to ==> b[k] == EQUALS)
    requires forall i :: from <= i < k ==> b[i] != EQUALS
    ensures IndexOf(b[from..to], EQUALS) == k - from
  {
    IndexIs(b[..to], from, k, EQUALS);
    assert b[..to][from..] == b[from..to];
  }

  //
  // getCookie
  //

  function FirstMatch(ps: seq<Pair>, key: seq<byte>): Option<seq<byte>> {
    if ps == [] then None
    else if ps[0].0 == key then Some(ps[0].1)
    else FirstMatch(ps[1..], key)
  }

  method SameBytes(buffer: array<byte>, start: nat, key: seq<byte>) returns (isMatch: bool)
    requires start + |key| <= buffer.Length
    ensures isMatch <==> buffer[..][start..start + |key|] == key
  {
    var j := 0;
    while j < |key|
      invariant 0 <= j <= |key|
      invariant forall k :: 0 <= k < j ==> buffer[start + k] == key[k]
    {
      if buffer[start + j] != key[j] {
        assert buffer[..][start..start + |key|][j] != key[j];
        return false;
      }
      j := j + 1;
    }
    return true;
  }

  /** `getCookie`, returning the bytes of the value. */
  method GetCookie(headerBuffer: array<byte>, keyBuf: seq<byte>) returns (r: Option<seq<byte>>)
    ensures r == FirstMatch(Pairs(headerBuffer[..]), keyBuf)
  {
    hide Pairs;
    var pointers := ScanCookies(headerBuffer);
    ghost var b := headerBuffer[..];
    ghost var ps := Contents(b, pointers);
    var i := 0;
    while i < |pointers|
      invariant 0 <= i <= |pointers|
      invariant FirstMatch(ps[i..], keyBuf) == FirstMatch(ps, keyBuf)
    {
      var p := pointers[i];
      assert InRange(b, p) && ps[i] == Content(b, p);
      assert ps[i..][1..] == ps[i + 1..];
      if p.keyEnd - p.keyStart == |keyBuf| {
        var isMatch := SameBytes(headerBuffer, p.keyStart, keyBuf);
        if isMatch {
          if p.valStart == p.valEnd {
            assert b[p.valStart..p.valEnd] == [];
            return Some([]);
          }
          return Some(headerBuffer[p.valStart..p.valEnd]);
        }
      }
      i := i + 1;
    }
    r := None;
  }

  //
  // Round trip.
  //

  /** Neither end is a space. */
  predicate Trimmed(s: seq<byte>) {
    s != [] ==> s[0] != SPACE && s[|s| - 1] != SPACE
  }

  predicate Clean(p: Pair) {
    && Trimmed(p.0) && EQUALS !in p.0 && SEMICOLON !in p.0
    && Trimmed(p.1) && SEMICOLON !in p.1
  }

  function Serialise(p: Pair): seq<byte> {
    p.0 + [EQUALS] + p.1
  }

  /** The header a client sends: `name=value` joined by "; ". */
  function Join(ps: seq<Pair>): seq<byte> {
    if ps == [] then []
    else if |ps| == 1 then Serialise(ps[0])
    else Serialise(ps[0]) + [SEMICOLON, SPACE] + Join(ps[1..])
  }

  lemma TrimPadded(lead: seq<byte>, s: seq<byte>)
    requires Trimmed(s) && (lead == [] || lead == [SPACE])
    ensures Trim(lead + s) == s
  {
    var t := lead + s;
    TrimLeftIs(t, |lead|);
    assert t[|lead|..] == s;
    TrimRightIs(s, |s|);
    assert s[..|s|] == s;
  }

  lemma PairOfSerialised(p: Pair, lead: seq<byte>)
    requires Clean(p) && (lead == [] || lead == [SPACE])
    ensures PairOf(lead + Serialise(p)) == p
  {
    hide Trim, Trimmed;
    var s := lead + Serialise(p);
    var e := |lead| + |p.0|;
    assert s[..e] == lead + p.0 && s[e + 1..] == p.1 && [] + p.1 == p.1;
    assert forall i :: 0 <= i < e ==> s[i] == (lead + p.0)[i];
    PairIs(s, 0, e, |s|);
    assert s[0..|s|] == s && s[0..e] == s[..e] && s[e + 1..|s|] == s[e + 1..];
    TrimPadded(lead, p.0);
    TrimPadded([], p.1);
  }

  lemma PairsCons(first: seq<byte>, rest: seq<byte>)
    requires SEMICOLON !in first
    ensures Pairs(first + [SEMICOLON] + rest) == [PairOf(first)] + Pairs(rest)
  {
    hide Pairs, PairOf, IndexOf;
    var s, k := first + [SEMICOLON] + rest, |first|;
    assert s[0..] == s && s[..k] == first && s[k + 1..] == rest;
    IndexIs(s, 0, k, SEMICOLON);
    PairsStep(s);
  }

  lemma PairsLast(first: seq<byte>)
    requires SEMICOLON !in first && !Blank(first)
    ensures Pairs(first) == [PairOf(first)]
  {
    hide Pairs, PairOf, IndexOf;
    assert first[0..] == first;
    IndexIs(first, 0, |first|, SEMICOLON);
    PairsStep(first);
  }

  /** Scanning a header that a client built from clean pairs returns those pairs. */
  lemma {:induction false} PairsOfJoin(ps: seq<Pair>, lead: seq<byte>)
    requires forall p :: p in ps ==> Clean(p)
    requires lead == [] || lead == [SPACE]
    ensures Pairs(lead + Join(ps)) == ps
    decreases |ps|
  {
    hide Pairs, PairOf, Trimmed;
    if ps == [] {
      assert lead + Join(ps) == lead && lead[0..] == lead;
      BlankTail(lead, 0);
    } else {
      var first := lead + Serialise(ps[0]);
      assert Clean(ps[0]) && SEMICOLON !in first;
      PairOfSerialised(ps[0], lead);
      if |ps| == 1 {
        assert lead + Join(ps) == first && first[|lead| + |ps[0].0|] == EQUALS;
        PairsLast(first);
        assert ps == [ps[0]];
      } else {
        var rest := [SPACE] + Join(ps[1..]);
        assert lead + Join(ps) == first + [SEMICOLON] + rest;
        PairsCons(first, rest);
        PairsOfJoin(ps[1..], [SPACE]);
      }
    }
  }
}
