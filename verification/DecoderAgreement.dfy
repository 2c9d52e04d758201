/** `fromCBOR` and the generic decoder of `Rfc8949` side by side: what each makes of the other's input. */
module DecoderAgreement {
  import opened Words
  import opened Wrappers
  import opened CborPlugin
  import opened CborCode
  import opened CborCodec
  import opened CborRoundTrip
  import opened CborValidation
  import opened Rfc8949
  import opened Alignment
  import Utf

  /** What a generic consumer takes an item for. */
  ghost predicate Denotes(item: Item, v: Value) {
    match item
    case Simple(n) => (n == 20 && v == Bool(false)) || (n == 21 && v == Bool(true))
    case Unsigned(n) => v == Num(n)
    case Negative(n) => v == Num(-1 - n)
    case Text(octets) => v.Str? && exists vs :: Utf.Utf8(vs) == octets && Utf.Utf16(vs) == v.s
    case Items(items) => v.Arr? && AllDenote(items, v.elems)
    case _ => false
  }

  predicate DenotesInt(item: Item, n: int) {
    (item.Unsigned? && n == item.n) || (item.Negative? && n == -1 - item.n)
  }

  ghost predicate AllDenote(items: seq<Item>, elems: seq<int>) {
    |items| == |elems| && forall i :: 0 <= i < |items| ==> DenotesInt(items[i], elems[i])
  }

  lemma {:induction false} ElemsDenote(elems: seq<int>, i: nat)
    requires i < |elems|
    ensures DenotesInt(ElemItems(elems)[i], Wraps(elems)[i])
  {
    if i > 0 {
      ElemsDenote(elems[1..], i - 1);
    }
  }

  lemma ValueDenotes(v: Value)
    requires !v.NonInteger? && !v.Hole?
    ensures Denotes(ValueItem(v), Canonical(v))
  {
    match v
    case Str(s) => assert Utf.Utf8(Utf.Scalars(s)) == Utf.Encode(s);
    case Arr(elems) =>
      forall i | 0 <= i < |elems| ensures DenotesInt(ElemItems(elems)[i], Wraps(elems)[i]) {
        ElemsDenote(elems, i);
      }
    case _ =>
  }

  //
  // The output of toCBOR.
  //

  /** The items of the encoder's own output mean the values `fromCBOR` assigns. */
  lemma {:induction false} ItemsDenoteFields(ps: seq<Property>, obj: Object, i: nat)
    requires Typed(ps, obj) && Supported(ps) && Unencodable(ps, obj).None? && i < |ps|
    ensures Serialised(ps[i]) && |AllItems(ps, obj)| == 2 * |ps|
    ensures var name := ps[i].key.name; var back := AllAssigned(ps, obj, map[]);
      && AllItems(ps, obj)[2 * i] == Text(Utf.Encode(name))
      && name in back && Denotes(AllItems(ps, obj)[2 * i + 1], back[name])
  {
    hide AllItems, Denotes, Canonical, AllAssigned, Unencodable;
    ItemsOfProperty(ps, obj, i);
    AllAssignedIs(ps, obj, map[]);
    var p := ps[i];
    assert p in ps && FieldTyped(p, obj);
    assert p.key.name in Names(ps);
    EncodableIs(ps, obj, i);
    ValueDenotes(obj[p.key.name]);
  }

  lemma {:induction false} EncodableIs(ps: seq<Property>, obj: Object, i: nat)
    requires Typed(ps, obj) && Unencodable(ps, obj).None? && i < |ps| && Serialised(ps[i])
    ensures FieldTyped(ps[i], obj) && !obj[ps[i].key.name].NonInteger? && !obj[ps[i].key.name].Hole?
  {
    assert FieldTyped(ps[0], obj);
    if i > 0 {
      EncodableIs(ps[1..], obj, i - 1);
    }
  }

  lemma {:induction false} ItemsOfProperty(ps: seq<Property>, obj: Object, i: nat)
    requires Typed(ps, obj) && Supported(ps) && i < |ps|
    ensures Serialised(ps[i]) && FieldTyped(ps[i], obj) && |AllItems(ps, obj)| == 2 * |ps|
    ensures AllItems(ps, obj)[2 * i..2 * i + 2] == FieldItems(ps[i], obj)
  {
    hide ValueItem, Utf.Encode;
    ItemCount(ps, obj);
    assert FieldTyped(ps[0], obj) && Serialised(ps[0]);
    if i > 0 {
      ItemsOfProperty(ps[1..], obj, i - 1);
      assert AllItems(ps, obj)[2 * i..2 * i + 2] == AllItems(ps[1..], obj)[2 * (i - 1)..2 * (i - 1) + 2];
    }
  }

  /** Meaning is preserved: when no bound is broken, both decoders accept the output of `toCBOR`, and what
      `fromCBOR` puts in the field of the i-th property is what the i-th value means to the generic one. */
  lemma OutputMeansTheSame(ps: Properties, obj: Object, i: nat)
    requires Typed(ps, obj) && Supported(ps) && Unencodable(ps, obj).None? && FirstViolation(ps, obj).None?
    requires ShortKeys(ps) && AsciiKeys(ps) && i < |ps|
    ensures Serialised(ps[i])
    ensures var b := Encoding(ps, obj); var name := ps[i].key.name;
      && Decode(ps, b).Ok? && ItemAt(b, 0).Some?
      && var back := Decode(ps, b).value; var (item, end) := ItemAt(b, 0).value;
      && end == back.offset == |b|
      && item.Pairs? && |item.items| == 2 * |ps|
      && item.items[2 * i] == Text(Utf.Encode(name))
      && name in back.obj && Denotes(item.items[2 * i + 1], back.obj[name])
  {
    hide AllItems, Denotes, AllAssigned, Unencodable, FirstViolation, Encoding, Decode, ItemAt, Supported, ShortKeys;
    hide AsciiKeys, Typed;
    var b := Encoding(ps, obj);
    RoundTrip(ps, obj, []);
    assert b + [] == b;
    GenericDecoding(ps, obj);
    ItemsDenoteFields(ps, obj, i);
  }

  //
  // Numbers: the code writes and reads five bytes, the standard has shorter forms.
  //

  /** The shortest form of an integer (section 4.1 of RFC 8949). */
  function ShortestInt(n: int): seq<byte>
    requires -WORD <= n < WORD
  {
    if n >= 0 then Head(0, n) else Head(0x20, -n - 1)
  }

  /** A number is written in its shortest form exactly when it has more than 16 bits. */
  lemma NumberIsShortestIff(n: int)
    requires -WORD <= n < WORD
    ensures IntBytes(n) == ShortestInt(n) <==> n >= 0x1_0000 || n < -0x1_0000
  {
    hide Big32;
  }

  predicate IsInteger(item: Item) {
    item.Unsigned? || item.Negative?
  }

  /** Of the integers the standard allows, `fromCBOR` reads exactly those in five bytes, as what they are. */
  lemma IntegerIsReadIff(b: seq<byte>, i: nat)
    requires ItemAt(b, i).Some?
    ensures ReadInt(b, i).Some? <==> IsInteger(ItemAt(b, i).value.0) && b[i] % 0x20 == 26
    ensures ReadInt(b, i).Some? ==>
      DenotesInt(ItemAt(b, i).value.0, ReadInt(b, i).value) && ItemAt(b, i).value.1 == i + 5
  {
    hide BigEndian, Word, ItemsAt, Utf.WellFormedUtf8;
    if b[i] == 0x1A || b[i] == 0x3A {
      WordIsNumber(b, i + 1);
    }
  }

  /** An input: the standard's four bytes for a 5 under the key "a". */
  lemma ShortNumberIsRefused()
    ensures var p := Property(Literal([97]), Kind.Number, None, None, None); var b := [0xA1, 0x61, 97, 0x05];
      && ItemAt(b, 0) == Some((Pairs([Text([97]), Unsigned(5)]), 4))
      && Decode([p], b) == Err(ExpectedInt32([97]))
  {
    var p := Property(Literal([97]), Kind.Number, None, None, None);
    var b: seq<byte> := [0xA1, 0x61, 97, 0x05];
    assert ItemAt(b, 3) == Some((Unsigned(5), 4));
    assert b[2..3] == [97];
    assert Utf.WellFormedUtf8([97]) by {
      assert Utf.CharLength([97]) == 1;
      assert [97 as byte][1..] == [];
    }
    assert ItemAt(b, 1) == Some((Text([97]), 3));
    OneItem(b, 1);
    OneItem(b, 3);
    ItemsAtAppend(b, 1, 1, 1);
    assert [Text([97])] + [Unsigned(5)] == [Text([97]), Unsigned(5)];
    assert ItemsAt(b, 1, 2) == Some(([Text([97]), Unsigned(5)], 4));
    assert Decode([p], b) == DecodeFields([p], b, State(map[], 1));
    assert DecodeField(p, b, State(map[], 1)) == Err(ExpectedInt32([97]));
  }

  //
  // Any bytes.
  //

  lemma LengthAgrees(b: seq<byte>, i: nat, base: byte)
    requires (base == 0x60 || base == 0x80) && i < |b| && Argument(b, i).Some?
    ensures b[i] / 0x20 == base / 0x20 && b[i] % 0x20 != 27 ==>
      Argument(b, i).value.0 < WORD && ReadLength(b, i, base) == Length(Argument(b, i).value.0, Argument(b, i).value.1)
    ensures !(b[i] / 0x20 == base / 0x20 && b[i] % 0x20 != 27) ==> ReadLength(b, i, base) == BadTag
  {
    hide BigEndian, Word;
    if b[i] == base + 25 {
      assert b[i + 1..i + 3] == [b[i + 1], b[i + 2]];
      NumberOfTwo(b[i + 1], b[i + 2]);
    } else if b[i] == base + 26 {
      WordIsNumber(b, i + 1);
    }
  }

  /** All `n` items from `i` on are integers in five bytes. */
  ghost predicate FiveByteInts(b: seq<byte>, i: nat, n: nat)
    decreases n
  {
    n == 0 ||
    (&& ItemAt(b, i).Some? && IsInteger(ItemAt(b, i).value.0) && b[i] % 0x20 == 26
     && FiveByteInts(b, i + 5, n - 1))
  }

  lemma {:induction false} ElementsAgree(b: seq<byte>, i: nat, n: nat)
    requires ItemsAt(b, i, n).Some?
    ensures ReadElems(b, i, n).Some? <==> FiveByteInts(b, i, n)
    ensures ReadElems(b, i, n).Some? ==>
      AllDenote(ItemsAt(b, i, n).value.0, ReadElems(b, i, n).value) && ItemsAt(b, i, n).value.1 == i + 5 * n
    decreases n
  {
    hide ItemAt, ReadInt, DenotesInt, IsInteger;
    if n > 0 {
      IntegerIsReadIff(b, i);
      if ReadInt(b, i).Some? {
        ElementsAgree(b, i + 5, n - 1);
      }
    }
  }

  function IntegerOf(item: Item): int {
    if item.Unsigned? then item.n else if item.Negative? then -1 - item.n else 0
  }

  predicate WithinBounds(n: int, p: Property) {
    (p.min.Some? ==> p.min.value <= n) && (p.max.Some? ==> n <= p.max.value)
  }

  /** What `fromCBOR` demands of the value at `at`, put in the terms of the standard: a Boolean, an integer
      in five bytes within its bounds, a text of at most `maxLength` octets or an array of such integers,
      whose lengths are not in eight bytes. */
  ghost predicate Accepts(p: Property, b: seq<byte>, at: nat)
    requires ItemAt(b, at).Some?
  {
    var item := ItemAt(b, at).value.0;
    match p.kind
    case Boolean => item == Simple(20) || item == Simple(21)
    case Number => IsInteger(item) && b[at] % 0x20 == 26 && WithinBounds(IntegerOf(item), p)
    case String =>
      item.Text? && b[at] % 0x20 != 27 && (p.maxLength.Some? ==> |item.octets| <= p.maxLength.value)
    case Array =>
      item.Items? && b[at] % 0x20 != 27 && FiveByteInts(b, Argument(b, at).value.1, |item.items|)
    case Unsupported => true
  }

  /** A field on any bytes: where a well-formed item is, `fromCBOR` accepts it exactly when `Accepts` says,
      takes it for what it denotes, and ends where it ends. */
  lemma FieldAgrees(p: Property, b: seq<byte>, st: State)
    requires Serialised(p) && ItemAt(b, st.offset + 1 + |p.key.name|).Some?
    ensures var at := st.offset + 1 + |p.key.name|; var r := DecodeField(p, b, st);
      && (r.Ok? <==> Accepts(p, b, at))
      && (r.Ok? ==>
            && r.value.offset == ItemAt(b, at).value.1
            && p.key.name in r.value.obj && Denotes(ItemAt(b, at).value.0, r.value.obj[p.key.name]))
  {
    hide ItemAt, ReadInt, ReadLength, ReadElems, Utf.ReadUnits, FiveByteInts;
    var name := p.key.name;
    var at := State(st.obj, st.offset + 1 + |name|);
    match p.kind
    case Boolean => BooleanAgrees(b, at.offset);
    case Number => IntegerIsReadIff(b, at.offset);
    case String => TextAgrees(p, b, at);
    case Array => ArrayAgrees(p, b, at);
  }

  lemma BooleanAgrees(b: seq<byte>, i: nat)
    requires ItemAt(b, i).Some?
    ensures b[i] == 0xF5 <==> ItemAt(b, i).value.0 == Simple(21)
    ensures b[i] == 0xF4 <==> ItemAt(b, i).value.0 == Simple(20)
    ensures b[i] == 0xF4 || b[i] == 0xF5 ==> ItemAt(b, i).value.1 == i + 1
  {
    hide BigEndian, ItemsAt, Utf.WellFormedUtf8;
  }

  lemma TextAgrees(p: Property, b: seq<byte>, at: State)
    requires p.kind == String && Serialised(p) && ItemAt(b, at.offset).Some?
    ensures var r := ExecText(p.key.name, p.maxLength, b, at);
      && (r.Ok? <==> Accepts(p, b, at.offset))
      && (r.Ok? ==>
            && r.value.offset == ItemAt(b, at.offset).value.1
            && p.key.name in r.value.obj && Denotes(ItemAt(b, at.offset).value.0, r.value.obj[p.key.name]))
  {
    hide ItemAt, ReadLength, Argument, Utf.ReadUnits, Utf.WellFormedUtf8, Utf.Utf8, Utf.Utf16;
    HasArgument(b, at.offset);
    TextItemIs(b, at.offset);
    LengthAgrees(b, at.offset, 0x60);
    if b[at.offset] / 0x20 == 3 {
      var (n, next) := Argument(b, at.offset).value;
      var vs := Utf.Utf8IsOnto(b[next..next + n]);
      Utf.ReadOfUtf8(b, next, vs);
      assert Utf.ReadUnits(b, next, next + n) == Utf.Utf16(vs);
    }
  }

  lemma ArrayAgrees(p: Property, b: seq<byte>, at: State)
    requires p.kind == Array && Serialised(p) && ItemAt(b, at.offset).Some?
    ensures var r := ExecArray(p.key.name, b, at);
      && (r.Ok? <==> Accepts(p, b, at.offset))
      && (r.Ok? ==>
            && r.value.offset == ItemAt(b, at.offset).value.1
            && p.key.name in r.value.obj && Denotes(ItemAt(b, at.offset).value.0, r.value.obj[p.key.name]))
  {
    hide ItemAt, ItemsAt, ReadLength, Argument, ReadElems, FiveByteInts, DenotesInt;
    HasArgument(b, at.offset);
    ArrayItemIs(b, at.offset);
    LengthAgrees(b, at.offset, 0x80);
    if b[at.offset] / 0x20 == 4 {
      var (n, next) := Argument(b, at.offset).value;
      ElementsAgree(b, next, n);
    }
  }

  //
  // Whole maps, whoever wrote them.
  //

  /** From `i` on are the keys of the class, in order and in their shortest form, each followed by some
      well-formed item. */
  ghost predicate KeysInPlace(ps: seq<Property>, b: seq<byte>, i: nat)
    decreases |ps|
  {
    ps == [] ||
    (Serialised(ps[0]) &&
     var name := ps[0].key.name; var at := i + 1 + |name|;
     && ItemAt(b, i) == Some((Text(Utf.Encode(name)), at))
     && ItemAt(b, at).Some? && KeysInPlace(ps[1..], b, ItemAt(b, at).value.1))
  }

  ghost predicate AllAccepted(ps: seq<Property>, b: seq<byte>, i: nat)
    requires KeysInPlace(ps, b, i)
    decreases |ps|
  {
    ps == [] ||
    (var at := i + 1 + |ps[0].key.name|;
     Accepts(ps[0], b, at) && AllAccepted(ps[1..], b, ItemAt(b, at).value.1))
  }

  /** Each field of `obj` is what the value item of the last property of its key means. */
  ghost predicate FieldsDenote(ps: seq<Property>, items: seq<Item>, obj: Object) {
    |items| == 2 * |ps| && forall i: nat :: LastOfKey(ps, i) ==>
      ps[i].key.name in obj && Denotes(items[2 * i + 1], obj[ps[i].key.name])
  }

  lemma TwoItems(b: seq<byte>, i: nat, at: nat, next: nat, n: nat)
    requires ItemAt(b, i).Some? && ItemAt(b, i).value.1 == at
    requires ItemAt(b, at).Some? && ItemAt(b, at).value.1 == next && ItemsAt(b, next, n).Some?
    ensures ItemsAt(b, i, 2 + n)
         == Some(([ItemAt(b, i).value.0, ItemAt(b, at).value.0] + ItemsAt(b, next, n).value.0,
                  ItemsAt(b, next, n).value.1))
  {
    hide ItemAt, ItemsAt;
    OneItem(b, i);
    OneItem(b, at);
    ItemsAtAppend(b, i, 1, 1);
    ItemsAtAppend(b, i, 2, n);
    var key, value := ItemAt(b, i).value.0, ItemAt(b, at).value.0;
    assert [key] + [value] == [key, value];
  }

  lemma {:induction false} FieldsAgree(ps: seq<Property>, b: seq<byte>, st: State)
    requires KeysInPlace(ps, b, st.offset)
    ensures ItemsAt(b, st.offset, 2 * |ps|).Some?
    ensures DecodeFields(ps, b, st).Ok? <==> AllAccepted(ps, b, st.offset)
    ensures DecodeFields(ps, b, st).Ok? ==>
      && DecodeFields(ps, b, st).value.offset == ItemsAt(b, st.offset, 2 * |ps|).value.1
      && FieldsDenote(ps, ItemsAt(b, st.offset, 2 * |ps|).value.0, DecodeFields(ps, b, st).value.obj)
    decreases |ps|
  {
    hide ItemAt, ItemsAt, DecodeField, Denotes, Accepts, Utf.Encode, FieldsDenote, Names, LastOfKey;
    if ps == [] {
      NoItems(b, st.offset);
      NoneDenote(st.obj);
    } else {
      var p, rest := ps[0], ps[1..];
      var at := st.offset + 1 + |p.key.name|;
      var next := ItemAt(b, at).value.1;
      FieldAgrees(p, b, st);
      var r := DecodeField(p, b, st);
      var after := if r.Ok? then r.value else State(st.obj, next);
      FieldsAgree(rest, b, after);
      TwoItems(b, st.offset, at, next, 2 * |rest|);
      assert 2 + 2 * |rest| == 2 * |ps|;
      if DecodeFields(ps, b, st).Ok? {
        FieldsAssign(rest, b, after);
        FirstDenotes(p, rest, ItemAt(b, st.offset).value.0, ItemAt(b, at).value.0,
                     ItemsAt(b, next, 2 * |rest|).value.0, after.obj, DecodeFields(rest, b, after).value.obj);
        assert ps == [p] + rest;
      }
    }
  }

  lemma NoneDenote(obj: Object)
    ensures FieldsDenote([], [], obj)
  {
  }

  lemma LastOfCons(p: Property, rest: seq<Property>, i: nat)
    requires LastOfKey([p] + rest, i)
    ensures if i == 0 then p.key.name !in Names(rest) else LastOfKey(rest, i - 1)
  {
    var ps := [p] + rest;
    assert forall j :: 0 <= j < |rest| ==> ps[j + 1] == rest[j];
    if i == 0 {
      forall q | q in rest && Serialised(q) ensures q.key.name != p.key.name {
        var j :| 0 <= j < |rest| && rest[j] == q;
        assert ps[j + 1] == q;
      }
    }
  }

  lemma FirstDenotes(p: Property, rest: seq<Property>, key: Item, value: Item, items: seq<Item>,
                     one: Object, obj: Object)
    requires Serialised(p) && p.key.name in one && Denotes(value, one[p.key.name])
    requires FieldsDenote(rest, items, obj)
    requires forall k :: k in one && k !in Names(rest) ==> k in obj && obj[k] == one[k]
    ensures FieldsDenote([p] + rest, [key, value] + items, obj)
  {
    hide Denotes, LastOfKey, Names;
    var ps, all := [p] + rest, [key, value] + items;
    forall i: nat | LastOfKey(ps, i)
      ensures i < |ps| && ps[i].key.Literal?
      ensures ps[i].key.name in obj && Denotes(all[2 * i + 1], obj[ps[i].key.name])
    {
      LastOfCons(p, rest, i);
      LastIsSerialised(ps, i);
      if i > 0 {
        assert ps[i] == rest[i - 1] && all[2 * i + 1] == items[2 * (i - 1) + 1];
      }
    }
  }

  lemma LastIsSerialised(ps: seq<Property>, i: nat)
    requires LastOfKey(ps, i)
    ensures i < |ps| && Serialised(ps[i])
  {
  }

  /** The two decoders on any map with the class's keys in place, whoever wrote it and whatever its values
      are: `fromCBOR` accepts it exactly when it accepts every value, and then both end at the same offset
      and every field means what the generic decoder's item under its key means. */
  lemma DecodersAgree(ps: Properties, b: seq<byte>)
    requires Holds(b, 0, Head(0xA0, |ps|)) && KeysInPlace(ps, b, |Head(0xA0, |ps|)|)
    ensures ItemAt(b, 0).Some? && ItemAt(b, 0).value.0.Pairs?
    ensures Decode(ps, b).Ok? <==> AllAccepted(ps, b, |Head(0xA0, |ps|)|)
    ensures Decode(ps, b).Ok? ==>
      && Decode(ps, b).value.offset == ItemAt(b, 0).value.1
      && FieldsDenote(ps, ItemAt(b, 0).value.0.items, Decode(ps, b).value.obj)
  {
    hide Head, ItemAt, ItemsAt, DecodeFields, KeysInPlace, AllAccepted, FieldsDenote, Holds;
    MapItemAt(b, |ps|);
    FieldsAgree(ps, b, State(map[], |Head(0xA0, |ps|)|));
  }
}
