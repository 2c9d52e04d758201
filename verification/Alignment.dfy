/** The output of `toCBOR` read by the generic decoder, whatever the keys: a reading that once starts too
    late, at a key that is not short and ASCII, never falls back into step, so it is never the class's
    keys and values. */
module Alignment {
  import opened Words
  import opened Wrappers
  import opened CborPlugin
  import opened CborCode
  import opened CborCodec
  import opened CborRoundTrip
  import opened Rfc8949
  import Utf

  //
  // Integers, byte by byte.
  //

  /** The initial byte at `p` and those up to `e` give the argument `w`, in one of the five forms. */
  predicate ArgumentForm(b: seq<byte>, p: nat, e: nat, w: nat) {
    && p < e <= |b|
    && (|| (e == p + 1 && b[p] % 0x20 < 24 && w == b[p] % 0x20)
        || (e == p + 2 && b[p] % 0x20 == 24 && w == b[p + 1])
        || (e == p + 3 && b[p] % 0x20 == 25 && w == b[p + 1] as int * 256 + b[p + 2])
        || (e == p + 5 && b[p] % 0x20 == 26 && w == Word(b, p + 1))
        || (e == p + 9 && b[p] % 0x20 == 27 && w == Word(b, p + 5)
            && b[p + 1] == 0 && b[p + 2] == 0 && b[p + 3] == 0 && b[p + 4] == 0))
  }

  predicate IntForm(b: seq<byte>, p: nat, e: nat, negative: bool, w: nat) {
    ArgumentForm(b, p, e, w) && b[p] / 0x20 == if negative then 1 else 0
  }

  lemma WordBytes(b: seq<byte>, i: nat, c: seq<byte>, j: nat)
    requires i + 4 <= |b| && j + 4 <= |c| && Word(b, i) == Word(c, j)
    ensures b[i] == c[j] && b[i + 1] == c[j + 1] && b[i + 2] == c[j + 2] && b[i + 3] == c[j + 3]
  {
  }

  lemma BigEndianEight(b: seq<byte>, i: nat)
    requires i + 8 <= |b|
    ensures BigEndian(b[i..i + 8]) == Word(b, i) * WORD + Word(b, i + 4)
  {
    WordIsNumber(b, i);
    hide BigEndian;
    LastByte(b, i, 7);
    LastByte(b, i, 6);
    LastByte(b, i, 5);
    LastByte(b, i, 4);
  }

  lemma LastByte(b: seq<byte>, i: nat, n: nat)
    requires i + n < |b|
    ensures BigEndian(b[i..i + n + 1]) == BigEndian(b[i..i + n]) * 256 + b[i + n]
  {
    var s := b[i..i + n + 1];
    assert s[..n] == b[i..i + n] && s[n] == b[i + n];
  }

  lemma ArgumentHasForm(b: seq<byte>, p: nat, w: nat, e: nat)
    requires p < |b| && Argument(b, p) == Some((w, e)) && w < WORD
    ensures ArgumentForm(b, p, e, w)
  {
    hide BigEndian, Word;
    if b[p] % 0x20 == 25 {
      assert b[p + 1..p + 3] == [b[p + 1], b[p + 2]];
      NumberOfTwo(b[p + 1], b[p + 2]);
    } else if b[p] % 0x20 == 26 {
      WordIsNumber(b, p + 1);
    } else if b[p] % 0x20 == 27 {
      BigEndianEight(b, p + 1);
      HighWordIsZero(b, p + 1);
    }
  }

  lemma LongArgument(b: seq<byte>, p: nat)
    requires p < |b| && Argument(b, p).Some? && Argument(b, p).value.0 >= WORD
    ensures Argument(b, p).value.1 == p + 9
  {
    hide BigEndian, Word;
    if b[p] % 0x20 == 25 {
      assert b[p + 1..p + 3] == [b[p + 1], b[p + 2]];
      NumberOfTwo(b[p + 1], b[p + 2]);
    } else if b[p] % 0x20 == 26 {
      WordIsNumber(b, p + 1);
    }
  }

  lemma IntegerForm(b: seq<byte>, p: nat, item: Item, e: nat)
    requires ItemAt(b, p) == Some((item, e)) && (item.Unsigned? || item.Negative?) && item.n < WORD
    ensures IntForm(b, p, e, item.Negative?, item.n)
  {
    hide Argument, ItemsAt, Utf.WellFormedUtf8, ArgumentForm;
    ArgumentHasForm(b, p, item.n, e);
  }

  lemma HighWordIsZero(b: seq<byte>, i: nat)
    requires i + 8 <= |b| && Word(b, i) * WORD + Word(b, i + 4) < WORD
    ensures b[i] == 0 && b[i + 1] == 0 && b[i + 2] == 0 && b[i + 3] == 0
  {
  }

  /** A five-byte integer at `p`. */
  predicate FiveAt(b: seq<byte>, p: nat) {
    p + 5 <= |b| && (b[p] == 0x1A || b[p] == 0x3A)
  }

  /** ... that is less than 24, so that its last byte alone is an integer too. */
  predicate Small(b: seq<byte>, p: nat) {
    p + 5 <= |b| && b[p] == 0x1A && b[p + 1] == 0 && b[p + 2] == 0 && b[p + 3] == 0 && b[p + 4] < 24
  }

  predicate Zero(b: seq<byte>, p: nat) {
    Small(b, p) && b[p + 4] == 0
  }

  /** ... all of whose bytes are the tag, so that it looks the same from its second byte on. */
  predicate AllTags(b: seq<byte>, p: nat) {
    p + 5 <= |b| && b[p] == 0x1A && b[p + 1] == 0x1A && b[p + 2] == 0x1A && b[p + 3] == 0x1A && b[p + 4] == 0x1A
  }

  /** Reading the integer at `i` from further on ends further on, unless it is small and read from its own
      middle. */
  lemma IntegerOutruns(b: seq<byte>, i: nat, p: nat, e: nat)
    requires FiveAt(b, i) && p > i && IntForm(b, p, e, b[i] == 0x3A, Word(b, i + 1))
    ensures e > i + 5 || (Small(b, i) && p < i + 5)
  {
  }

  /** A reading of the integer at `i` from further on, that ends just after the next tag. */
  lemma EndsAfterTag(b: seq<byte>, i: nat, p: nat)
    requires FiveAt(b, i) && p > i && i + 5 < |b| && b[i + 5] == 0x1A
    requires IntForm(b, p, i + 6, b[i] == 0x3A, Word(b, i + 1))
    ensures AllTags(b, i) && p == i + 1
  {
    if p == i + 1 {
      WordBytes(b, i + 1, b, i + 2);
    }
  }

  /** ... or inside a next small integer: then it is a zero in a single byte. */
  lemma EndsInSmall(b: seq<byte>, i: nat, p: nat, e: nat)
    requires FiveAt(b, i) && p > i && Small(b, i + 5) && i + 6 < e < i + 10
    requires IntForm(b, p, e, b[i] == 0x3A, Word(b, i + 1))
    ensures Zero(b, i) && e == p + 1
  {
    if e == p + 5 {
      WordBytes(b, i + 1, b, p + 1);
    }
  }

  /** ... or inside a small integer that a zero precedes. */
  lemma EndsBehindZero(b: seq<byte>, i: nat, p: nat, m: nat, e: nat)
    requires FiveAt(b, i) && p > i && i + 5 < m && Zero(b, m - 5) && Small(b, m) && m < e < m + 5
    requires IntForm(b, p, e, b[i] == 0x3A, Word(b, i + 1))
    ensures Zero(b, i) && e == p + 1 && e > m + 1
  {
  }

  //
  // Arrays.
  //

  /** The offset `p` is inside a small integer, and only zeros are before it among the `n` from `i` on. */
  predicate InSmall(b: seq<byte>, i: nat, n: nat, p: nat)
    decreases n
  {
    n > 0 && ((Small(b, i) && i < p < i + 5) || (Zero(b, i) && InSmall(b, i + 5, n - 1, p)))
  }

  /** The offsets from which reading could fall back into step. */
  predicate Recovers(b: seq<byte>, i: nat, n: nat, p: nat) {
    InSmall(b, i, n, p) || (n > 0 && AllTags(b, i) && p == i + 1)
  }

  lemma {:induction false} InSmallAt(b: seq<byte>, i: nat, n: nat, p: nat) returns (m: nat)
    requires InSmall(b, i, n, p)
    ensures i <= m < p < m + 5 && Small(b, m) && (m > i ==> m >= i + 5 && Zero(b, m - 5))
    ensures p > m + 1 ==> InSmall(b, i, n, p - 1)
    decreases n
  {
    if Small(b, i) && i < p < i + 5 {
      m := i;
    } else {
      m := InSmallAt(b, i + 5, n - 1, p);
    }
  }

  /** One element read too late leaves the next one read too late, and out of reach of recovery. */
  lemma ElementOutruns(b: seq<byte>, i: nat, n: nat, p: nat, e: nat)
    requires n > 0 && FiveAt(b, i) && p > i && !Recovers(b, i, n, p)
    requires IntForm(b, p, e, b[i] == 0x3A, Word(b, i + 1))
    ensures e > i + 5 && !Recovers(b, i + 5, n - 1, e)
  {
    hide IntForm, Small, Zero, AllTags, Word, InSmall;
    IntegerOutruns(b, i, p, e);
    InSmallHere(b, i, n, p);
    if InSmall(b, i + 5, n - 1, e) {
      var m := InSmallAt(b, i + 5, n - 1, e);
      SmallTag(b, m);
      if m == i + 5 {
        if e == i + 6 {
          EndsAfterTag(b, i, p);
        } else {
          EndsInSmall(b, i, p, e);
        }
      } else {
        EndsBehindZero(b, i, p, m, e);
      }
    }
    if n > 1 && AllTags(b, i + 5) && e == i + 6 {
      FirstTag(b, i + 5);
      EndsAfterTag(b, i, p);
    }
  }

  lemma InSmallHere(b: seq<byte>, i: nat, n: nat, p: nat)
    requires n > 0
    ensures InSmall(b, i, n, p) <==> (Small(b, i) && i < p < i + 5) || (Zero(b, i) && InSmall(b, i + 5, n - 1, p))
  {
  }

  lemma SmallTag(b: seq<byte>, i: nat)
    requires Small(b, i)
    ensures i + 5 <= |b| && b[i] == 0x1A
  {
  }

  lemma FirstTag(b: seq<byte>, i: nat)
    requires AllTags(b, i)
    ensures i + 5 <= |b| && b[i] == 0x1A
  {
  }

  /** Where an integer was written, and where the same one is read. */
  lemma SameInteger(b: seq<byte>, i: nat, n: int, p: nat, e: nat)
    requires Holds(b, i, IntBytes(n)) && ItemAt(b, p) == Some((IntItem(n), e))
    ensures FiveAt(b, i) && IntForm(b, p, e, b[i] == 0x3A, Word(b, i + 1))
  {
    hide ItemAt, Word;
    HoldsAt(b, i, IntBytes(n), 0);
    IntItemAt(b, i, n);
    IntegerForm(b, i, IntItem(n), i + 5);
    IntegerForm(b, p, IntItem(n), e);
  }

  lemma {:induction false} ElementsOutrun(b: seq<byte>, i: nat, elems: seq<int>, p: nat, e: nat)
    requires Holds(b, i, ElemBytes(elems)) && p > i && !Recovers(b, i, |elems|, p)
    requires ItemsAt(b, p, |elems|) == Some((ElemItems(elems), e))
    ensures e > i + 5 * |elems|
    decreases |elems|
  {
    hide IntBytes, IntItem, ItemAt, Holds, Recovers, IntForm, FiveAt, Word;
    if elems != [] {
      HoldsSplit(b, i, IntBytes(elems[0]), ElemBytes(elems[1..]));
      var next := FirstElement(b, p, elems, e);
      SameInteger(b, i, elems[0], p, next);
      ElementOutruns(b, i, |elems|, p, next);
      ElementsOutrun(b, i + 5, elems[1..], next, e);
    }
  }

  lemma FirstElement(b: seq<byte>, p: nat, elems: seq<int>, e: nat) returns (next: nat)
    requires elems != [] && ItemsAt(b, p, |elems|) == Some((ElemItems(elems), e))
    ensures ItemAt(b, p) == Some((IntItem(elems[0]), next)) && next > p
    ensures ItemsAt(b, next, |elems| - 1) == Some((ElemItems(elems[1..]), e))
  {
    hide ItemAt, IntItem;
    next := ItemAt(b, p).value.1;
    var rest := ItemsAt(b, next, |elems| - 1).value.0;
    var all := [ItemAt(b, p).value.0] + rest;
    assert all == [IntItem(elems[0])] + ElemItems(elems[1..]);
    assert all[0] == IntItem(elems[0]) && all[1..] == rest == ElemItems(elems[1..]);
  }

  /** One of the four bytes is no character of a tag or a small integer. */
  predicate Heavy(b: seq<byte>, i: nat) {
    i + 5 <= |b| && (b[i + 1] >= 0x80 || b[i + 2] >= 0x80 || b[i + 3] >= 0x80 || b[i + 4] >= 0x80)
  }

  lemma HeavyNeverRecovers(b: seq<byte>, i: nat, n: nat, p: nat)
    requires Heavy(b, i)
    ensures !Recovers(b, i, n, p)
  {
  }

  /** Reading that starts behind the `q`-th element, which is heavy. */
  lemma {:induction false} ElementsOutrunFrom(b: seq<byte>, i: nat, elems: seq<int>, q: nat, p: nat, e: nat)
    requires Holds(b, i, ElemBytes(elems)) && q < |elems| && Heavy(b, i + 5 * q) && p > i + 5 * q
    requires ItemsAt(b, p, |elems|) == Some((ElemItems(elems), e))
    ensures e > i + 5 * |elems|
    decreases |elems|
  {
    hide IntBytes, IntItem, ItemAt, ItemsAt, Holds, Recovers, Heavy, ElemItems;
    if q == 0 {
      HeavyNeverRecovers(b, i, |elems|, p);
      ElementsOutrun(b, i, elems, p, e);
    } else {
      HoldsSplit(b, i, IntBytes(elems[0]), ElemBytes(elems[1..]));
      var next := FirstElement(b, p, elems, e);
      ElementsOutrunFrom(b, i + 5, elems[1..], q - 1, next, e);
    }
  }

  lemma {:induction false} ElementAt(b: seq<byte>, i: nat, elems: seq<int>, q: nat)
    requires Holds(b, i, ElemBytes(elems)) && q < |elems|
    ensures FiveAt(b, i + 5 * q)
    decreases q
  {
    hide Holds, IntBytes;
    HoldsSplit(b, i, IntBytes(elems[0]), ElemBytes(elems[1..]));
    if q == 0 {
      HeldInteger(b, i, elems[0]);
    } else {
      ElementAt(b, i + 5, elems[1..], q - 1);
    }
  }

  lemma HeldInteger(b: seq<byte>, i: nat, n: int)
    requires Holds(b, i, IntBytes(n))
    ensures FiveAt(b, i)
  {
    HoldsAt(b, i, IntBytes(n), 0);
  }

  /** The head `toCBOR` writes is the shortest. */
  lemma HeadIsShortest(b: seq<byte>, p: nat, e: nat, base: byte, n: u32)
    requires base % 0x20 == 0 && ArgumentForm(b, p, e, n)
    ensures e >= p + |Head(base, n)|
  {
    hide Big32;
  }

  /** Inside the head of an array, the same length can be read again only with help of the first element. */
  lemma HeadInHead(b: seq<byte>, a: nat, n: u32, s: nat, e: nat)
    requires Holds(b, a, Head(0x80, n)) && a < s < a + |Head(0x80, n)| && FiveAt(b, a + |Head(0x80, n)|)
    requires ArgumentForm(b, s, e, n) && b[s] / 0x20 == 4
    ensures Heavy(b, a + |Head(0x80, n)|)
  {
    hide Holds, Word, ArgumentForm, Heavy;
    var head := Head(0x80, n);
    if n <= 0xFF {
      HoldsAt(b, a, head, 1);
      ByteInHead(b, a, n, e);
    } else if n <= 0xFFFF {
      HoldsAt(b, a, head, 1);
      HoldsAt(b, a, head, 2);
      HalfInHead(b, a, n, s, e);
    } else {
      HoldsSplit(b, a, [Or(0x80, 26, 0x20)], Big32(n));
      WordOfBig32(b, a + 1, n);
      WordInHead(b, a, n, s, e);
    }
  }

  lemma ByteInHead(b: seq<byte>, a: nat, n: byte, e: nat)
    requires FiveAt(b, a + 2) && b[a + 1] == n && ArgumentForm(b, a + 1, e, n)
    ensures b[a + 1] / 0x20 != 4
  {
  }

  lemma HalfInHead(b: seq<byte>, a: nat, n: u16, s: nat, e: nat)
    requires FiveAt(b, a + 3) && a < s < a + 3 && n > 0xFF && b[a + 1] == n / 256 && b[a + 2] == n % 256
    requires ArgumentForm(b, s, e, n) && b[s] / 0x20 == 4
    ensures Heavy(b, a + 3)
  {
  }

  lemma WordInHead(b: seq<byte>, a: nat, n: u32, s: nat, e: nat)
    requires FiveAt(b, a + 5) && a < s < a + 5 && n > 0xFFFF && Word(b, a + 1) == n
    requires ArgumentForm(b, s, e, n) && b[s] / 0x20 == 4
    ensures Heavy(b, a + 5)
  {
    hide Word, ArgumentForm;
    FormOfWord(b, s, e, n);
    if e == s + 5 {
      WordBytes(b, a + 1, b, s + 1);
    }
  }

  lemma FormOfWord(b: seq<byte>, p: nat, e: nat, w: nat)
    requires ArgumentForm(b, p, e, w) && w > 0xFFFF
    ensures e <= |b| && (e == p + 5 || e == p + 9)
    ensures e == p + 5 ==> w == Word(b, p + 1)
    ensures e == p + 9 ==> b[p + 1] == 0 && b[p + 2] == 0 && b[p + 3] == 0 && b[p + 4] == 0
  {
    hide Word;
  }

  lemma ArrayOutruns(b: seq<byte>, a: nat, elems: seq<int>, s: nat, e: nat)
    requires |elems| < WORD && Holds(b, a, ArrayBytes(elems)) && s > a
    requires ItemAt(b, s) == Some((Items(ElemItems(elems)), e))
    ensures e > a + |ArrayBytes(elems)|
  {
    hide Holds, Head, ItemAt, ItemsAt, Argument, ArgumentForm, ElemItems, ElemBytes, Heavy;
    var n := |elems|;
    var head := Head(0x80, n);
    var first := a + |head|;
    HoldsSplit(b, a, head, ElemBytes(elems));
    HasArgument(b, s);
    ArrayItemIs(b, s);
    var start := Argument(b, s).value.1;
    ArgumentHasForm(b, s, n, start);
    HeadIsShortest(b, s, start, 0x80, n);
    if s < first {
      HeadHasElements(b, a, n, s);
      ElementAt(b, first, elems, 0);
      HeadInHead(b, a, n, s, start);
      ElementsOutrunFrom(b, first, elems, 0, start, e);
    } else if s < first + 5 * n {
      var q := (s - first) / 5;
      ElementAt(b, first, elems, q);
      HeadInElement(b, first + 5 * q, s);
      ElementsOutrunFrom(b, first, elems, q, start, e);
    }
  }

  lemma HeadHasElements(b: seq<byte>, a: nat, n: u32, s: nat)
    requires a < s < a + |Head(0x80, n)|
    ensures n > 0
  {
  }

  lemma HeadInElement(b: seq<byte>, i: nat, s: nat)
    requires FiveAt(b, i) && i <= s < i + 5 && b[s] / 0x20 == 4
    ensures s > i && Heavy(b, i)
  {
  }

  //
  // Values.
  //

  /** A text item has its octets at the end. */
  lemma TextEnds(b: seq<byte>, s: nat, octets: seq<byte>, e: nat)
    requires ItemAt(b, s) == Some((Text(octets), e))
    ensures s < |b| && b[s] / 0x20 == 3 && Argument(b, s).Some?
    ensures var (n, next) := Argument(b, s).value; n == |octets| && e == next + n && Holds(b, next, octets)
  {
    hide ItemAt, Argument;
    HasArgument(b, s);
    TextItemIs(b, s);
  }

  lemma TextOutruns(b: seq<byte>, a: nat, str: seq<u16>, s: nat, e: nat)
    requires |Utf.Encode(str)| < WORD && s > a && ItemAt(b, s) == Some((Text(Utf.Encode(str)), e))
    ensures e > a + |TextBytes(str)|
  {
    hide ItemAt, Argument, Head, Utf.Encode, ArgumentForm;
    var octets := Utf.Encode(str);
    TextEnds(b, s, octets, e);
    var next := Argument(b, s).value.1;
    ArgumentHasForm(b, s, |octets|, next);
    HeadIsShortest(b, s, next, 0x60, |octets|);
  }

  lemma NumberOutruns(b: seq<byte>, a: nat, n: int, s: nat, e: nat)
    requires Holds(b, a, IntBytes(n)) && s > a && ItemAt(b, s) == Some((IntItem(n), e))
    ensures e > a + 5 || (Small(b, a) && a < e <= a + 5)
  {
    hide IntBytes, IntItem, ItemAt, IntForm, FiveAt, Small, Holds;
    SameInteger(b, a, n, s, e);
    IntegerOutruns(b, a, s, e);
  }

  /** A value read too late ends too late, but for a small number read from its own middle. */
  lemma ValueOutruns(p: Property, obj: Object, b: seq<byte>, a: nat, s: nat, e: nat)
    requires Serialised(p) && FieldTyped(p, obj) && Holds(b, a, ValueBytes(p, obj)) && s > a
    requires ItemAt(b, s) == Some((ValueItem(obj[p.key.name]), e))
    ensures e > a + |ValueBytes(p, obj)| || (Small(b, a) && s < a + 5)
  {
    hide ItemAt, Holds, IntItem, ElemItems, Utf.Encode, Head, ArrayBytes, TextBytes, Small;
    var v := obj[p.key.name];
    match p.kind
    case Boolean =>
    case Number => NumberOutruns(b, a, IntOf(v), s, e);
    case String => TextOutruns(b, a, v.s, s, e);
    case Array => ArrayOutruns(b, a, v.elems, s, e);
  }

  //
  // Keys.
  //

  /** A key read too late ends too late, and so does one that is not short and ASCII. */
  lemma KeyOutruns(name: Name, b: seq<byte>, a: nat, r: nat, e: nat)
    requires Holds(b, a, KeyBytes(name)) && r >= a && ItemAt(b, r) == Some((Text(Utf.Encode(name)), e))
    ensures e >= a + |KeyBytes(name)|
    ensures e > a + |KeyBytes(name)| || (r == a && |name| <= 23 && Utf.Ascii(name))
  {
    hide ItemAt, Argument, Utf.Encode, Utf.Ascii, Holds;
    var octets := Utf.Encode(name);
    TextEnds(b, r, octets, e);
    Utf.EncodeLength(name);
    if r == a {
      HoldsAt(b, a, KeyBytes(name), 0);
      if b[a] % 0x20 < 24 {
        ArgumentSmall(b, a);
      } else {
        ArgumentLow(b, a);
      }
    }
  }

  /** Any key is read back as itself, and no further, exactly when it is short and ASCII. */
  lemma KeyInPlaceIff(name: Name, b: seq<byte>, a: nat)
    requires Holds(b, a, KeyBytes(name))
    ensures ItemAt(b, a) == Some((Text(Utf.Encode(name)), a + |KeyBytes(name)|))
       <==> |name| <= 23 && Utf.Ascii(name)
  {
    hide ItemAt, Utf.Encode, Utf.Ascii, Holds, KeyBytes;
    if |name| <= 23 && Utf.Ascii(name) {
      KeyItemAt(name, b, a);
    } else if ItemAt(b, a) == Some((Text(Utf.Encode(name)), a + |KeyBytes(name)|)) {
      KeyOutruns(name, b, a, a, a + |KeyBytes(name)|);
    }
  }

  predicate Low(octets: seq<byte>) {
    forall k :: 0 <= k < |octets| ==> octets[k] < 0x80
  }

  function Last<T>(s: seq<T>, m: nat): seq<T>
    requires m <= |s|
  {
    s[|s| - m..]
  }

  /** The last `m` octets of an encoding, if they are ASCII, are the last `m` units of the string. */
  lemma {:induction false} AsciiTail(s: seq<u16>, m: nat)
    requires m <= |Utf.Encode(s)| && Low(Last(Utf.Encode(s), m))
    ensures m <= |s| && Last(s, m) == Last(Utf.Encode(s), m)
    decreases |s|
  {
    hide Utf.Encode, Utf.First, Utf.Octets, Low, Last;
    if s == [] {
      NoOctets(s);
      LastOfAll(s, Utf.Encode(s));
    } else {
      var (v, n) := Utf.First(s);
      var rest := s[n..];
      Utf.EncodeStep(s);
      var tail := Utf.Encode(rest);
      if m <= |tail| {
        LastOfConcat(Utf.Octets(v), tail, m);
        AsciiTail(rest, m);
        LastOfDrop(s, n, m);
      } else {
        WholeTail(s, Utf.Octets(v), tail, m);
        AsciiTail(rest, |tail|);
        Utf.EncodeLength(rest);
        LastOfAll(rest, tail);
        LowOctet(s, v, n);
        assert s == [s[0]] + rest;
        LastOfAll(s, Utf.Encode(s));
      }
    }
  }

  lemma LastOfAll(a: seq<u16>, b: seq<byte>)
    ensures Last(a, |a|) == a && Last(b, |b|) == b
  {
  }

  lemma LastOfDrop(s: seq<u16>, n: nat, m: nat)
    requires n + m <= |s|
    ensures Last(s[n..], m) == Last(s, m)
  {
  }

  lemma NoOctets(s: seq<u16>)
    requires s == []
    ensures Utf.Encode(s) == []
  {
  }

  lemma LastOfConcat(a: seq<byte>, b: seq<byte>, m: nat)
    requires m <= |b|
    ensures Last(a + b, m) == Last(b, m)
  {
  }

  lemma WholeTail(s: seq<u16>, first: seq<byte>, tail: seq<byte>, m: nat)
    requires |tail| < m <= |first + tail| && Low(Last(first + tail, m))
    ensures first[|first| - 1] < 0x80 && Low(Last(tail, |tail|))
  {
    var last := Last(first + tail, m);
    assert last[m - |tail| - 1] == first[|first| - 1];
    assert forall k :: 0 <= k < |tail| ==> tail[k] == last[m - |tail| + k];
  }

  lemma LowOctet(s: seq<u16>, v: Utf.Scalar, n: nat)
    requires s != [] && Utf.First(s) == (v, n) && Utf.Octets(v)[|Utf.Octets(v)| - 1] < 0x80
    ensures n == 1 && v == s[0] && Utf.Octets(v) == [s[0]]
  {
    if n == 2 {
      Utf.PairIsLarge(s[0], s[1]);
    }
  }

  /** The `j`-th octet from the end of a key that ends with the first `d` bytes of a small integer. */
  function Pattern(d: nat, j: nat): byte
    requires d > 0
  {
    if j % d == d - 1 then 0x1A else 0
  }

  predicate Patterned(octets: seq<byte>, d: nat, m: nat)
    requires d > 0
  {
    forall j :: 0 <= |octets| - m <= j < |octets| ==> octets[j] == Pattern(d, |octets| - 1 - j)
  }

  lemma PatternRepeats(d: nat, j: nat)
    requires 1 <= d <= 4
    ensures Pattern(d, j + d) == Pattern(d, j)
  {
    assert (j + d) % d == j % d;
  }

  /** Such a key repeats itself: its octets are read `d` bytes behind where it was written. */
  lemma {:induction false} KeyRepeats(name: Name, b: seq<byte>, a: nat, d: nat, m: nat)
    requires Holds(b, a, KeyBytes(name)) && 1 <= d <= 4 && Small(b, a + 1 + |name|)
    requires var octets, e := Utf.Encode(name), a + 1 + |name| + d;
      m <= |octets| && a + |octets| < e && Holds(b, e - |octets|, octets)
    ensures Patterned(Utf.Encode(name), d, m)
    decreases m
  {
    hide Utf.Encode, Holds, Pattern, KeyBytes;
    if m > 0 {
      KeyRepeats(name, b, a, d, m - 1);
      var octets, value := Utf.Encode(name), a + 1 + |name|;
      var j := m - 1;
      HoldsAt(b, value + d - |octets|, octets, |octets| - m);
      if j < d {
        PatternStarts(d, j);
      } else {
        var k := m - d;
        PatternIsLow(octets, d, m - 1, k);
        AsciiTail(name, k);
        assert Last(name, k)[0] == name[|name| - k] && Last(octets, k)[0] == octets[|octets| - k];
        KeyByte(name, b, a, |name| - k);
        PatternRepeats(d, j - d);
      }
    }
  }

  lemma PatternStarts(d: nat, j: nat)
    requires j < d
    ensures Pattern(d, j) == if j == d - 1 then 0x1A else 0
  {
  }

  lemma PatternIsLow(octets: seq<byte>, d: nat, m: nat, k: nat)
    requires d > 0 && Patterned(octets, d, m) && k <= m <= |octets|
    ensures Low(Last(octets, k))
  {
  }

  lemma KeyByte(name: Name, b: seq<byte>, a: nat, k: nat)
    requires Holds(b, a, KeyBytes(name)) && k < |name|
    ensures a + 1 + k < |b| && b[a + 1 + k] == name[k] % 256
  {
    HoldsAt(b, a, KeyBytes(name), 1 + k);
  }

  /** No key, read in place or too late, ends inside a small integer written after it. */
  lemma KeyNeverEndsInSmall(name: Name, b: seq<byte>, a: nat, r: nat, d: nat)
    requires Holds(b, a, KeyBytes(name)) && r >= a && 1 <= d <= 4 && Small(b, a + 1 + |name|)
    ensures ItemAt(b, r) != Some((Text(Utf.Encode(name)), a + 1 + |name| + d))
  {
    hide ItemAt, Argument, Utf.Encode, Holds, Pattern, KeyBytes, ArgumentForm;
    var octets, value := Utf.Encode(name), a + 1 + |name|;
    if ItemAt(b, r) == Some((Text(octets), value + d)) {
      TextEnds(b, r, octets, value + d);
      var next := Argument(b, r).value.1;
      KeyRepeats(name, b, a, d, |octets|);
      PatternIsLow(octets, d, |octets|, |octets|);
      AsciiTail(name, |octets|);
      Utf.EncodeLength(name);
      assert Last(octets, |octets|) == octets && Last(name, |name|) == name;
      if |octets| >= WORD {
        LongArgument(b, r);
      } else {
        ArgumentHasForm(b, r, |octets|, next);
        HeadOfRepeatingKey(name, b, a, r, d);
      }
    }
  }

  /** There is no place for the head of such a key: not inside it or behind it, ... */
  lemma HeadOfRepeatingKey(name: Name, b: seq<byte>, a: nat, r: nat, d: nat)
    requires Holds(b, a, KeyBytes(name)) && a <= r && 1 <= d <= 4 && Small(b, a + 1 + |name|)
    requires forall k :: 0 <= k < |name| ==> name[k] == Pattern(d, |name| - 1 - k)
    requires |name| < WORD && ArgumentForm(b, r, a + 1 + d, |name|)
    ensures b[r] / 0x20 != 3
  {
    hide Holds, KeyBytes, Pattern, ArgumentForm;
    assert r < a + 1 + d by { FormIsForward(b, r, a + 1 + d, |name|); }
    if r == a {
      LengthOfRepeatingKey(name, b, a, d);
    } else if r <= a + |name| {
      KeyByte(name, b, a, r - a - 1);
      PatternIs(d, |name| - (r - a));
    }
  }

  lemma FormIsForward(b: seq<byte>, p: nat, e: nat, w: nat)
    requires ArgumentForm(b, p, e, w)
    ensures p < e
  {
  }

  /** ... and not in place, where its first characters would be its length. */
  lemma LengthOfRepeatingKey(name: Name, b: seq<byte>, a: nat, d: nat)
    requires Holds(b, a, KeyBytes(name)) && 1 <= d <= 4
    requires forall k :: 0 <= k < |name| ==> name[k] == Pattern(d, |name| - 1 - k)
    requires |name| < WORD && ArgumentForm(b, a, a + 1 + d, |name|)
    ensures b[a] / 0x20 != 3
  {
    hide Holds, KeyBytes, Pattern, Word;
    FirstByte(name, b, a);
    if |name| >= 24 {
      LastByteOfLength(name, d);
      if d == 1 {
        KeyByte(name, b, a, 0);
      } else if d == 2 {
        KeyByte(name, b, a, 1);
      } else if d == 4 {
        KeyByte(name, b, a, 3);
        LowByteOfWord(b, a + 1);
      }
    }
  }

  lemma LowByteOfWord(b: seq<byte>, i: nat)
    requires i + 4 <= |b|
    ensures Word(b, i) % 256 == b[i + 3]
  {
  }

  lemma FirstByte(name: Name, b: seq<byte>, a: nat)
    requires Holds(b, a, KeyBytes(name))
    ensures a < |b| && b[a] == (0x60 + |name|) % 256
  {
    HoldsAt(b, a, KeyBytes(name), 0);
  }

  lemma PatternIs(d: nat, j: nat)
    requires d > 0
    ensures Pattern(d, j) == 0 || Pattern(d, j) == 0x1A
  {
  }

  /** The character that would be the low byte of a length in one, two or four bytes. */
  lemma LastByteOfLength(name: Name, d: nat)
    requires |name| >= 24 && 1 <= d <= 4
    requires forall k :: 0 <= k < |name| ==> name[k] == Pattern(d, |name| - 1 - k)
    ensures d == 1 ==> name[0] == 26
    ensures d == 2 ==> name[1] == 0 || name[1] == 26
    ensures d == 4 && |name| % 256 == 26 ==> name[3] == 0
  {
  }

  //
  // The whole map.
  //

  /** The items of one property, read in place or too late: they end in place only when they were read in
      place and the key is short and ASCII. */
  lemma FieldOutruns(p: Property, obj: Object, b: seq<byte>, a: nat, r: nat, s: nat, e: nat)
    requires Serialised(p) && FieldTyped(p, obj) && Holds(b, a, FieldBytes(p, obj)) && r >= a
    requires ItemAt(b, r) == Some((Text(Utf.Encode(p.key.name)), s))
    requires ItemAt(b, s) == Some((ValueItem(obj[p.key.name]), e))
    ensures e >= a + |FieldBytes(p, obj)|
    ensures e == a + |FieldBytes(p, obj)| ==> r == a && |p.key.name| <= 23 && Utf.Ascii(p.key.name)
  {
    hide ItemAt, Holds, KeyBytes, ValueBytes, ValueItem, Utf.Encode, Utf.Ascii, Small;
    var name := p.key.name;
    var value := a + |KeyBytes(name)|;
    HoldsSplit(b, a, KeyBytes(name), ValueBytes(p, obj));
    KeyOutruns(name, b, a, r, s);
    KeyLength(name);
    if s > value {
      ValueOutruns(p, obj, b, value, s, e);
      if Small(b, value) && s < value + 5 {
        KeyNeverEndsInSmall(name, b, a, r, s - value);
      }
    } else {
      ValueItemAt(p, obj, b, value);
    }
  }

  lemma KeyLength(name: Name)
    ensures |KeyBytes(name)| == 1 + |name|
  {
  }

  /** Reading all items in place or too late ends in place only when every key is short and ASCII. */
  lemma {:induction false} FieldsOutrun(ps: seq<Property>, obj: Object, b: seq<byte>, a: nat, r: nat, e: nat)
    requires Typed(ps, obj) && Supported(ps) && Holds(b, a, FieldsBytes(ps, obj)) && r >= a
    requires ItemsAt(b, r, |AllItems(ps, obj)|) == Some((AllItems(ps, obj), e))
    ensures e >= a + |FieldsBytes(ps, obj)|
    ensures e == a + |FieldsBytes(ps, obj)| ==> r == a && ShortKeys(ps) && AsciiKeys(ps)
    decreases |ps|
  {
    hide ItemAt, ItemsAt, Holds, FieldBytes, ValueItem, Utf.Encode, Utf.Ascii;
    if ps == [] {
      NoItems(b, r);
    } else {
      var p, rest := ps[0], ps[1..];
      assert FieldTyped(p, obj) && Serialised(p) && ps == [p] + rest;
      var name := p.key.name;
      HoldsSplit(b, a, FieldBytes(p, obj), FieldsBytes(rest, obj));
      var key, value := Text(Utf.Encode(name)), ValueItem(obj[name]);
      assert FieldItems(p, obj) == [key] + [value];
      var s, next := FirstTwo(b, r, key, value, AllItems(rest, obj), e);
      FieldOutruns(p, obj, b, a, r, s, next);
      FieldsOutrun(rest, obj, b, a + |FieldBytes(p, obj)|, next, e);
    }
  }

  lemma FirstTwo(b: seq<byte>, r: nat, key: Item, value: Item, rest: seq<Item>, e: nat) returns (s: nat, next: nat)
    requires ItemsAt(b, r, 2 + |rest|) == Some(([key] + [value] + rest, e))
    ensures ItemAt(b, r) == Some((key, s)) && ItemAt(b, s) == Some((value, next))
    ensures ItemsAt(b, next, |rest|) == Some((rest, e))
  {
    hide ItemAt;
    var all := [key] + [value] + rest;
    s := ItemAt(b, r).value.1;
    next := ItemAt(b, s).value.1;
    var after := ItemsAt(b, next, |rest|).value.0;
    var one, two := ItemAt(b, r).value.0, ItemAt(b, s).value.0;
    assert ItemsAt(b, s, 1 + |rest|).value.0 == [two] + after;
    assert all == [one] + ([two] + after);
    assert all[0] == one && all[1] == two && all[2..] == rest;
    assert ([one] + ([two] + after))[2..] == after;
  }

  /** The compiled encoder against the standard, for every class and object: a generic decoder reads the
      output of `toCBOR` as one map with the class's keys and values in order, and nothing after it, exactly
      when every property is supported and every key is ASCII and has at most 23 characters. */
  lemma GenericDecoding(ps: Properties, obj: Object)
    requires Typed(ps, obj)
    ensures ItemAt(Encoding(ps, obj), 0) == Some((Pairs(AllItems(ps, obj)), |Encoding(ps, obj)|))
       <==> Supported(ps) && ShortKeys(ps) && AsciiKeys(ps)
  {
    hide Head, ItemAt, ItemsAt, Holds, FieldsBytes, AllItems, Typed, ShortKeys, AsciiKeys, Supported;
    var b, head := Encoding(ps, obj), Head(0xA0, |ps|);
    Whole(b);
    HoldsSplit(b, 0, head, FieldsBytes(ps, obj));
    MapItemAt(b, |ps|);
    CountIffSupported(ps, obj);
    var r := ItemsAt(b, |head|, 2 * |ps|);
    if Supported(ps) && ShortKeys(ps) && AsciiKeys(ps) {
      AllItemsAt(ps, obj, b, |head|);
    } else if r == Some((AllItems(ps, obj), |b|)) {
      FieldsOutrun(ps, obj, b, |head|, |head|, |b|);
    }
  }
}
