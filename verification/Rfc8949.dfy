/** A generic decoder for the definite-length data items of section 3 of RFC 8949, and what it reads
    in the output of a compiled `toCBOR`. */
module Rfc8949 {
  import opened Words
  import opened Wrappers
  import opened CborPlugin
  import opened CborCode
  import opened CborCodec
  import opened CborRoundTrip
  import Utf

  /** A data item. A map is the list of its keys and values, alternating; `Negative(n)` is -1-n. */
  datatype Item =
    | Unsigned(n: nat)
    | Negative(n: nat)
    | Bytes(octets: seq<byte>)
    | Text(octets: seq<byte>)
    | Items(items: seq<Item>)
    | Pairs(items: seq<Item>)
    | Tagged(tag: nat, item: Item)
    | Simple(n: nat)
    | Float(octets: seq<byte>)

  /** The argument of the initial byte at `i` (section 3): its value and the offset after it. Additional
      information 28 to 30 is reserved and 31 marks indefinite lengths. */
  function Argument(b: seq<byte>, i: nat): (r: Option<(nat, nat)>)
    requires i < |b|
    ensures r.Some? ==> i < r.value.1 <= |b|
  {
    var info := b[i] % 0x20;
    if info < 24 then Some((info, i + 1))
    else if info == 24 && i + 1 < |b| then Some((b[i + 1], i + 2))
    else if info == 25 && i + 2 < |b| then Some((BigEndian(b[i + 1..i + 3]), i + 3))
    else if info == 26 && i + 4 < |b| then Some((BigEndian(b[i + 1..i + 5]), i + 5))
    else if info == 27 && i + 8 < |b| then Some((BigEndian(b[i + 1..i + 9]), i + 9))
    else None
  }

  /** Bytes in network byte order. */
  function BigEndian(b: seq<byte>): nat {
    if b == [] then 0 else BigEndian(b[..|b| - 1]) * 256 + b[|b| - 1]
  }

  /** The well-formed data item at `i`, and the offset after it. Texts must be valid UTF-8. */
  function ItemAt(b: seq<byte>, i: nat): (r: Option<(Item, nat)>)
    ensures r.Some? ==> i < r.value.1 <= |b|
    decreases |b| - i, 0, 0
  {
    if i >= |b| || Argument(b, i).None? then None
    else
      var (n, next) := Argument(b, i).value;
      match b[i] / 0x20
      case 0 => Some((Unsigned(n), next))
      case 1 => Some((Negative(n), next))
      case 2 => if next + n <= |b| then Some((Bytes(b[next..next + n]), next + n)) else None
      case 3 =>
        if next + n <= |b| && Utf.WellFormedUtf8(b[next..next + n]) then Some((Text(b[next..next + n]), next + n))
        else None
      case 4 =>
        var r := ItemsAt(b, next, n);
        if r.Some? then Some((Items(r.value.0), r.value.1)) else None
      case 5 =>
        var r := ItemsAt(b, next, 2 * n);
        if r.Some? then Some((Pairs(r.value.0), r.value.1)) else None
      case 6 =>
        var r := ItemAt(b, next);
        if r.Some? then Some((Tagged(n, r.value.0), r.value.1)) else None
      case _ =>
        if b[i] % 0x20 < 24 then Some((Simple(n), next))
        else if b[i] % 0x20 == 24 then (if n < 32 then None else Some((Simple(n), next)))
        else Some((Float(b[i + 1..next]), next))
  }

  /** `n` consecutive items. */
  function ItemsAt(b: seq<byte>, i: nat, n: nat): (r: Option<(seq<Item>, nat)>)
    ensures r.Some? ==> |r.value.0| == n && i <= r.value.1 && (n > 0 ==> r.value.1 <= |b|)
    decreases |b| - i, 1, n
  {
    if n == 0 then Some(([], i))
    else
      var first := ItemAt(b, i);
      if first.None? then None
      else
        var rest := ItemsAt(b, first.value.1, n - 1);
        if rest.None? then None else Some(([first.value.0] + rest.value.0, rest.value.1))
  }

  lemma TextItemIs(b: seq<byte>, i: nat)
    requires ItemAt(b, i).Some?
    ensures ItemAt(b, i).value.0.Text? <==> b[i] / 0x20 == 3
    ensures b[i] / 0x20 == 3 ==>
      var (n, next) := Argument(b, i).value;
      && next + n <= |b| && Utf.WellFormedUtf8(b[next..next + n])
      && ItemAt(b, i).value == (Text(b[next..next + n]), next + n)
  {
    hide Argument, ItemsAt, Utf.WellFormedUtf8;
  }

  lemma ArrayItemIs(b: seq<byte>, i: nat)
    requires ItemAt(b, i).Some?
    ensures ItemAt(b, i).value.0.Items? <==> b[i] / 0x20 == 4
    ensures b[i] / 0x20 == 4 ==>
      var (n, next) := Argument(b, i).value;
      && ItemsAt(b, next, n).Some?
      && ItemAt(b, i).value == (Items(ItemsAt(b, next, n).value.0), ItemsAt(b, next, n).value.1)
  {
    hide Argument, ItemsAt, Utf.WellFormedUtf8;
  }

  lemma HasArgument(b: seq<byte>, i: nat)
    requires ItemAt(b, i).Some?
    ensures i < |b| && Argument(b, i).Some?
  {
  }

  //
  // The items of an encoding.
  //

  function IntItem(n: int): Item {
    if n >= 0 then Unsigned(n % WORD) else Negative((-n - 1) % WORD)
  }

  function ElemItems(elems: seq<int>): (r: seq<Item>)
    ensures |r| == |elems|
  {
    if elems == [] then [] else [IntItem(elems[0])] + ElemItems(elems[1..])
  }

  function ValueItem(v: Value): Item {
    match v
    case Bool(b) => Simple(if b then 21 else 20)
    case Num(n) => IntItem(n)
    case NonInteger => IntItem(0)
    case Str(s) => Text(Utf.Encode(s))
    case Arr(elems) => Items(ElemItems(elems))
    case Hole => Items([])
  }

  /** The items a property contributes: a computed key none, an unsupported type its key alone. */
  function FieldItems(p: Property, obj: Object): seq<Item>
    requires FieldTyped(p, obj)
  {
    if p.key.Computed? then []
    else if p.kind == Unsupported then [Text(Utf.Encode(p.key.name))]
    else [Text(Utf.Encode(p.key.name)), ValueItem(obj[p.key.name])]
  }

  ghost function AllItems(ps: seq<Property>, obj: Object): seq<Item>
    requires Typed(ps, obj)
  {
    if ps == [] then []
    else
      assert FieldTyped(ps[0], obj);
      FieldItems(ps[0], obj) + AllItems(ps[1..], obj)
  }

  /** The plugin assumes keys of at most 23 characters. */
  ghost predicate ShortKeys(ps: seq<Property>) {
    forall p :: p in ps && p.key.Literal? ==> |p.key.name| <= 23
  }

  /** It writes one octet per character. */
  ghost predicate AsciiKeys(ps: seq<Property>) {
    forall p :: p in ps && p.key.Literal? ==> Utf.Ascii(p.key.name)
  }

  /** ASCII without control characters. */
  predicate Printable(name: Name) {
    forall i :: 0 <= i < |name| ==> 0x20 <= name[i] < 0x80
  }

  lemma NumberOfBig32(n: u32)
    ensures BigEndian(Big32(n)) == n
  {
    var b := Big32(n);
    var b3, b2, b1 := b[..3], b[..2], b[..1];
    assert b3[..2] == b2 && b2[..1] == b1 && b1[..0] == [];
    assert BigEndian(b1) == n / 0x100_0000;
    assert BigEndian(b2) == BigEndian(b1) * 256 + n / 0x1_0000 % 256;
    assert BigEndian(b3) == BigEndian(b2) * 256 + n / 256 % 256;
    assert n / 0x1_0000 == n / 0x100_0000 * 256 + n / 0x1_0000 % 256;
    assert n / 256 == n / 0x1_0000 * 256 + n / 256 % 256;
  }

  lemma NumberOfTwo(x: byte, y: byte)
    ensures BigEndian([x, y]) == x as int * 256 + y
  {
    assert [x, y][..1] == [x] && [x][..0] == [];
    assert BigEndian([x]) == x;
  }

  lemma WordIsNumber(b: seq<byte>, i: nat)
    requires i + 4 <= |b|
    ensures Word(b, i) == BigEndian(b[i..i + 4])
  {
    var w := b[i..i + 4];
    var w3, w2, w1 := w[..3], w[..2], w[..1];
    assert w3[..2] == w2 && w2[..1] == w1 && w1[..0] == [];
    assert BigEndian(w1) == b[i];
    assert BigEndian(w2) == BigEndian(w1) * 256 + b[i + 1];
    assert BigEndian(w3) == BigEndian(w2) * 256 + b[i + 2];
  }

  lemma ArgumentOfHead(b: seq<byte>, i: nat, base: byte, n: u32)
    requires base % 0x20 == 0 && Holds(b, i, Head(base, n))
    ensures i < |b| && b[i] / 0x20 == base / 0x20 && Argument(b, i) == Some((n, i + |Head(base, n)|))
  {
    hide BigEndian, Big32;
    var head := Head(base, n);
    HoldsAt(b, i, head, 0);
    if n < 24 {
    } else if n <= 0xFF {
      HoldsAt(b, i, head, 1);
    } else if n <= 0xFFFF {
      assert b[i + 1..i + 3] == b[i..i + 3][1..] == [n / 256, n % 256];
      NumberOfTwo(n / 256, n % 256);
    } else {
      assert b[i + 1..i + 5] == b[i..i + 5][1..] == Big32(n);
      NumberOfBig32(n);
    }
  }

  lemma IntItemAt(b: seq<byte>, i: nat, n: int)
    requires Holds(b, i, IntBytes(n))
    ensures ItemAt(b, i) == Some((IntItem(n), i + 5))
  {
    hide BigEndian, Big32;
    var word := if n >= 0 then n % WORD else (-n - 1) % WORD;
    HoldsAt(b, i, IntBytes(n), 0);
    assert b[i + 1..i + 5] == b[i..i + 5][1..] == Big32(word);
    NumberOfBig32(word);
  }

  lemma {:induction false} ElemItemsAt(b: seq<byte>, i: nat, elems: seq<int>)
    requires Holds(b, i, ElemBytes(elems))
    ensures ItemsAt(b, i, |elems|) == Some((ElemItems(elems), i + |ElemBytes(elems)|))
    decreases |elems|
  {
    hide IntBytes, IntItem, ItemAt, Holds;
    if elems != [] {
      HoldsSplit(b, i, IntBytes(elems[0]), ElemBytes(elems[1..]));
      IntItemAt(b, i, elems[0]);
      ElemItemsAt(b, i + 5, elems[1..]);
    }
  }

  lemma TextItemAt(b: seq<byte>, i: nat, head: seq<byte>, octets: seq<byte>)
    requires |octets| < WORD && head == Head(0x60, |octets|) && Holds(b, i, head + octets)
    requires Utf.WellFormedUtf8(octets)
    ensures ItemAt(b, i) == Some((Text(octets), i + |head| + |octets|))
  {
    hide Head, Argument, Utf.WellFormedUtf8, ItemAt;
    HoldsSplit(b, i, head, octets);
    ArgumentOfHead(b, i, 0x60, |octets|);
    TextAt(b, i, |octets|, i + |head|);
  }

  lemma TextAt(b: seq<byte>, i: nat, n: nat, next: nat)
    requires i < |b| && b[i] / 0x20 == 3 && Argument(b, i) == Some((n, next))
    requires next + n <= |b| && Utf.WellFormedUtf8(b[next..next + n])
    ensures ItemAt(b, i) == Some((Text(b[next..next + n]), next + n))
  {
    hide Argument, Utf.WellFormedUtf8, ItemsAt;
  }

  lemma ArrayItemAt(b: seq<byte>, i: nat, elems: seq<int>)
    requires |elems| < WORD && Holds(b, i, ArrayBytes(elems))
    ensures ItemAt(b, i) == Some((Items(ElemItems(elems)), i + |ArrayBytes(elems)|))
  {
    hide Head, Argument, ElemBytes, ElemItems, ItemsAt, Holds;
    var head := Head(0x80, |elems|);
    HoldsSplit(b, i, head, ElemBytes(elems));
    ArgumentOfHead(b, i, 0x80, |elems|);
    ElemItemsAt(b, i + |head|, elems);
  }

  lemma BoolItemAt(b: seq<byte>, i: nat, value: bool)
    requires Holds(b, i, [if value then 0xF5 else 0xF4])
    ensures ItemAt(b, i) == Some((ValueItem(Bool(value)), i + 1))
  {
    HoldsAt(b, i, [if value then 0xF5 else 0xF4], 0);
  }

  lemma ValueItemAt(p: Property, obj: Object, b: seq<byte>, i: nat)
    requires Serialised(p) && FieldTyped(p, obj) && Holds(b, i, ValueBytes(p, obj))
    ensures ItemAt(b, i) == Some((ValueItem(obj[p.key.name]), i + |ValueBytes(p, obj)|))
  {
    hide Utf.Encode, Utf.WellFormedUtf8, IntBytes, IntItem, ArrayBytes, ElemItems, ItemAt, Head, Holds;
    var v := obj[p.key.name];
    match p.kind
    case Boolean => BoolItemAt(b, i, v.b);
    case Number => IntItemAt(b, i, IntOf(v));
    case String =>
      Utf.EncodeIsWellFormedUtf8(v.s);
      TextItemAt(b, i, Head(0x60, |Utf.Encode(v.s)|), Utf.Encode(v.s));
    case Array => ArrayItemAt(b, i, v.elems);
  }

  /** For ASCII characters, one octet each is UTF-8. */
  lemma {:induction false} AsciiIsUtf8(name: Name)
    requires Utf.Ascii(name)
    ensures KeyChars(name) == Utf.Encode(name)
    decreases |name|
  {
    hide Utf.Encode;
    if name == [] {
      Utf.EncodeOfNothing(name, 0);
      assert name[0..] == name;
    } else {
      var rest := name[1..];
      Utf.EncodeStep(name);
      assert Utf.First(name) == (name[0], 1) && Utf.Octets(name[0]) == [name[0]];
      assert forall i :: 0 <= i < |rest| ==> rest[i] == name[i + 1];
      AsciiIsUtf8(rest);
      assert KeyChars(name) == [name[0]] + KeyChars(rest);
    }
  }

  /** A key is read as itself exactly when it is short and ASCII. */
  lemma KeyItemAt(name: Name, b: seq<byte>, i: nat)
    requires (|name| <= 23 || Printable(name)) && Holds(b, i, KeyBytes(name))
    ensures |name| <= 23 && Utf.Ascii(name) ==>
      ItemAt(b, i) == Some((Text(Utf.Encode(name)), i + |KeyBytes(name)|))
    ensures !(|name| <= 23 && Utf.Ascii(name)) ==>
      ItemAt(b, i).None? || ItemAt(b, i).value.0 != Text(Utf.Encode(name))
  {
    hide ItemAt, Utf.Encode, Utf.Ascii, Utf.WellFormedUtf8, Printable, Holds;
    if |name| > 23 {
      LongKeyIsNeverRead(name, b, i);
    } else {
      var octets := KeyChars(name);
      Utf.EncodeLength(name);
      assert KeyBytes(name) == Head(0x60, |name|) + octets;
      if Utf.Ascii(name) {
        AsciiIsUtf8(name);
        Utf.EncodeIsWellFormedUtf8(name);
        TextItemAt(b, i, Head(0x60, |name|), octets);
      } else {
        ShortText(b, i, Head(0x60, |name|), octets);
      }
    }
  }

  lemma NumberLow(b: seq<byte>)
    requires b != []
    ensures BigEndian(b) % 256 == b[|b| - 1]
  {
  }

  /** A length outside the initial byte has the last byte before `next` as its low byte. */
  lemma ArgumentLow(b: seq<byte>, i: nat)
    requires i < |b| && Argument(b, i).Some? && b[i] % 0x20 >= 24
    ensures var (n, next) := Argument(b, i).value; next <= i + 9 && n % 256 == b[next - 1] && i + 1 < next <= |b|
  {
    hide BigEndian;
    var info := b[i] % 0x20;
    if info == 25 {
      NumberLow(b[i + 1..i + 3]);
    } else if info == 26 {
      NumberLow(b[i + 1..i + 5]);
    } else if info == 27 {
      NumberLow(b[i + 1..i + 9]);
    }
  }

  /** No printable key of 24 or more characters is ever read as itself: the low byte of the length read
      would be below 0x20, and it is a character of the key. */
  lemma LongKeyIsNeverRead(name: Name, b: seq<byte>, i: nat)
    requires |name| >= 24 && Printable(name) && Holds(b, i, KeyBytes(name))
    ensures ItemAt(b, i).None? || ItemAt(b, i).value.0 != Text(Utf.Encode(name))
  {
    hide Utf.Encode, Utf.WellFormedUtf8, Argument, ItemsAt, Holds;
    var key := KeyBytes(name);
    HoldsAt(b, i, key, 0);
    Utf.EncodeLength(name);
    if Argument(b, i).Some? && b[i] / 0x20 == 3 {
      var (n, next) := Argument(b, i).value;
      assert |name| % 256 == b[i] % 0x20;
      if b[i] % 0x20 < 24 {
        assert n == b[i] % 0x20 by { ArgumentSmall(b, i); }
        assert n < |name|;
      } else {
        ArgumentLow(b, i);
        HoldsAt(b, i, key, next - 1 - i);
        assert n % 256 == name[next - 2 - i] >= 0x20;
        assert n != |name|;
      }
    }
  }

  lemma ArgumentSmall(b: seq<byte>, i: nat)
    requires i < |b| && b[i] % 0x20 < 24
    ensures Argument(b, i) == Some((b[i] % 0x20, i + 1))
  {
  }

  lemma ShortText(b: seq<byte>, i: nat, head: seq<byte>, octets: seq<byte>)
    requires |octets| < WORD && head == Head(0x60, |octets|) && Holds(b, i, head + octets)
    ensures ItemAt(b, i).None? || ItemAt(b, i).value.0 == Text(octets)
  {
    hide Head, Argument, Utf.WellFormedUtf8, ItemsAt;
    HoldsSplit(b, i, head, octets);
    ArgumentOfHead(b, i, 0x60, |octets|);
  }

  /** The item lists of consecutive parts concatenate. */
  lemma {:induction false} ItemsAtAppend(b: seq<byte>, i: nat, m: nat, n: nat)
    requires ItemsAt(b, i, m).Some?
    ensures ItemsAt(b, i, m + n)
         == var (first, next) := ItemsAt(b, i, m).value;
            var rest := ItemsAt(b, next, n);
            if rest.None? then None else Some((first + rest.value.0, rest.value.1))
    decreases m
  {
    hide ItemAt;
    if m == 0 {
      var rest := ItemsAt(b, i, n);
      assert rest.Some? ==> [] + rest.value.0 == rest.value.0;
    } else {
      var (item, next) := ItemAt(b, i).value;
      ItemsAtAppend(b, next, m - 1, n);
      var (first, after) := ItemsAt(b, next, m - 1).value;
      var rest := ItemsAt(b, after, n);
      assert rest.Some? ==> [item] + (first + rest.value.0) == ([item] + first) + rest.value.0;
    }
  }

  lemma OneItem(b: seq<byte>, i: nat)
    requires ItemAt(b, i).Some?
    ensures ItemsAt(b, i, 1) == Some(([ItemAt(b, i).value.0], ItemAt(b, i).value.1))
  {
    hide ItemAt;
    var (item, next) := ItemAt(b, i).value;
    NoItems(b, next);
    assert [item] + [] == [item];
  }

  lemma FieldItemsAt(p: Property, obj: Object, b: seq<byte>, i: nat)
    requires FieldTyped(p, obj) && ShortKeys([p]) && AsciiKeys([p]) && Holds(b, i, FieldBytes(p, obj))
    ensures ItemsAt(b, i, |FieldItems(p, obj)|) == Some((FieldItems(p, obj), i + |FieldBytes(p, obj)|))
  {
    hide Holds, KeyBytes, ValueBytes, ValueItem, ItemAt, Utf.Encode, Utf.Ascii;
    if p.key.Literal? {
      var name := p.key.name;
      assert p in [p];
      HoldsSplit(b, i, KeyBytes(name), ValueBytes(p, obj));
      KeyItemAt(name, b, i);
      if p.kind == Unsupported {
        NoValue(p, obj);
        OneItem(b, i);
      } else {
        ValueItemAt(p, obj, b, i + |KeyBytes(name)|);
        OneItem(b, i);
        OneItem(b, i + |KeyBytes(name)|);
        ItemsAtAppend(b, i, 1, 1);
        var key, value := Text(Utf.Encode(name)), ValueItem(obj[name]);
        assert [key] + [value] == [key, value];
      }
    }
  }

  lemma NoValue(p: Property, obj: Object)
    requires p.key.Literal? && p.kind == Unsupported
    ensures ValueBytes(p, obj) == []
  {
  }

  lemma {:induction false} AllItemsAt(ps: seq<Property>, obj: Object, b: seq<byte>, i: nat)
    requires Typed(ps, obj) && ShortKeys(ps) && AsciiKeys(ps) && Holds(b, i, FieldsBytes(ps, obj))
    ensures ItemsAt(b, i, |AllItems(ps, obj)|) == Some((AllItems(ps, obj), i + |FieldsBytes(ps, obj)|))
    decreases |ps|
  {
    hide Holds, ItemAt, ItemsAt, FieldBytes, FieldItems, Utf.Ascii;
    if ps == [] {
      NoItems(b, i);
    } else {
      var p := ps[0];
      assert FieldTyped(p, obj) && ShortKeys([p]) && AsciiKeys([p]);
      HoldsSplit(b, i, FieldBytes(p, obj), FieldsBytes(ps[1..], obj));
      FieldItemsAt(p, obj, b, i);
      AllItemsAt(ps[1..], obj, b, i + |FieldBytes(p, obj)|);
      ItemsAtAppend(b, i, |FieldItems(p, obj)|, |AllItems(ps[1..], obj)|);
    }
  }

  lemma NoItems(b: seq<byte>, i: nat)
    ensures ItemsAt(b, i, 0) == Some(([], i))
  {
  }

  lemma {:induction false} ItemCount(ps: seq<Property>, obj: Object)
    requires Typed(ps, obj)
    ensures |AllItems(ps, obj)| <= 2 * |ps|
    ensures |AllItems(ps, obj)| == 2 * |ps| <==> forall p :: p in ps ==> Serialised(p)
  {
    hide ValueItem;
    if ps != [] {
      assert FieldTyped(ps[0], obj);
      assert ps == [ps[0]] + ps[1..];
      ItemCount(ps[1..], obj);
    }
  }

  /** A class is fully supported: every property has a literal key and a supported type. */
  ghost predicate Supported(ps: seq<Property>) {
    forall p :: p in ps ==> Serialised(p)
  }

  lemma NothingAfterEnd(b: seq<byte>, n: nat)
    ensures ItemsAt(b, |b|, n).Some? <==> n == 0
  {
  }

  lemma MapItemAt(b: seq<byte>, n: u32)
    requires Holds(b, 0, Head(0xA0, n))
    ensures ItemAt(b, 0)
         == var r := ItemsAt(b, |Head(0xA0, n)|, 2 * n);
            if r.Some? then Some((Pairs(r.value.0), r.value.1)) else None
  {
    hide Head, Argument, ItemsAt;
    ArgumentOfHead(b, 0, 0xA0, n);
  }

  lemma CountIffSupported(ps: seq<Property>, obj: Object)
    requires Typed(ps, obj)
    ensures |AllItems(ps, obj)| <= 2 * |ps|
    ensures |AllItems(ps, obj)| == 2 * |ps| <==> Supported(ps)
  {
    ItemCount(ps, obj);
  }

  /** With a computed key or an unsupported type among ASCII keys, it finds no well-formed item at all. */
  lemma UnsupportedIsMalformed(ps: Properties, obj: Object)
    requires Typed(ps, obj) && ShortKeys(ps) && AsciiKeys(ps) && !Supported(ps)
    ensures ItemAt(Encoding(ps, obj), 0) == None
  {
    hide Head, ItemAt, ItemsAt, Holds, FieldsBytes, AllItems, Typed, ShortKeys, AsciiKeys, Supported;
    var b, head := Encoding(ps, obj), Head(0xA0, |ps|);
    Whole(b);
    HoldsSplit(b, 0, head, FieldsBytes(ps, obj));
    MapItemAt(b, |ps|);
    AllItemsAt(ps, obj, b, |head|);
    CountIffSupported(ps, obj);
    var m := |AllItems(ps, obj)|;
    ItemsAtAppend(b, |head|, m, 2 * |ps| - m);
    NothingAfterEnd(b, 2 * |ps| - m);
  }

  /** An input: after a key of 24 characters, head 0x78, a generic decoder takes the first character for a
      length. */
  lemma LongKeyIsMisread()
    ensures var name: Name := seq(24, _ => 97); var p := Property(Literal(name), Boolean, None, None, None);
      Typed([p], map[name := Bool(true)]) && ItemAt(Encoding([p], map[name := Bool(true)]), 0) == None
  {
    var name: Name := seq(24, _ => 97);
    var p := Property(Literal(name), Boolean, None, None, None);
    var obj: Object := map[name := Bool(true)];
    assert FieldTyped(p, obj);
    var b := Encoding([p], obj);
    assert [p][1..] == [] && FieldsBytes([p][1..], obj) == [];
    assert FieldsBytes([p], obj) == FieldBytes(p, obj) + [] == KeyBytes(name) + [0xF5];
    assert Head(0xA0, 1) == [0xA1];
    assert b == [0xA1] + (KeyBytes(name) + [0xF5]);
    assert b[0] == 0xA1 && b[1] == 0x78 && b[2] == 97 && |b| == 27;
    assert ItemAt(b, 1) == None;
    assert ItemsAt(b, 1, 2) == None;
  }

  lemma Whole(b: seq<byte>)
    ensures Holds(b, 0, b)
  {
  }
}
