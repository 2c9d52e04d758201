/** What `fromCBOR` guarantees about the objects it returns, on any bytes. */
module CborValidation {
  import opened Words
  import opened Wrappers
  import opened CborPlugin
  import opened CborCode
  import opened CborCodec
  import opened CborRoundTrip
  import Utf

  //
  // Where a field was read.
  //

  /** The property that decides the field of its key: no later serialised one has the same key. */
  ghost predicate LastOfKey(ps: seq<Property>, i: nat) {
    && i < |ps| && Serialised(ps[i])
    && forall j :: i < j < |ps| && Serialised(ps[j]) ==> ps[j].key.name != ps[i].key.name
  }

  /** `obj` and `_offset` before anything but the map header. */
  function Start(ps: Properties): State {
    State(map[], |Head(0xA0, |ps|)|)
  }

  /** `_offset` before the value of property `i`: past the fields before it and past its key. */
  function ValueOffset(ps: Properties, i: nat, buf: seq<byte>): Option<nat>
    requires i < |ps| && ps[i].key.Literal?
  {
    var before := DecodeFields(ps[..i], buf, Start(ps));
    if before.Ok? then Some(before.value.offset + 1 + |ps[i].key.name|) else None
  }

  lemma {:induction false} DecodeSplit(ps: seq<Property>, qs: seq<Property>, buf: seq<byte>, st: State)
    ensures DecodeFields(ps + qs, buf, st)
         == var r := DecodeFields(ps, buf, st); if r.Err? then r else DecodeFields(qs, buf, r.value)
    decreases |ps|
  {
    hide DecodeField;
    if ps == [] {
      assert ps + qs == qs;
    } else {
      assert (ps + qs)[1..] == ps[1..] + qs;
      var r := DecodeField(ps[0], buf, st);
      if r.Ok? {
        DecodeSplit(ps[1..], qs, buf, r.value);
      }
    }
  }

  lemma FieldAssigns(p: Property, buf: seq<byte>, st: State)
    requires DecodeField(p, buf, st).Ok?
    ensures var obj := DecodeField(p, buf, st).value.obj;
      if Serialised(p) then p.key.name in obj && obj == st.obj[p.key.name := obj[p.key.name]] else obj == st.obj
  {
    hide ReadLength, ReadElems, ReadInt, Utf.ReadUnits;
  }

  /** The decoded object has the serialised keys, and a key that no property has keeps its value. */
  lemma {:induction false} FieldsAssign(ps: seq<Property>, buf: seq<byte>, st: State)
    requires DecodeFields(ps, buf, st).Ok?
    ensures var obj := DecodeFields(ps, buf, st).value.obj;
      obj.Keys == st.obj.Keys + Names(ps) && forall k :: k in st.obj && k !in Names(ps) ==> obj[k] == st.obj[k]
    decreases |ps|
  {
    hide DecodeField;
    if ps != [] {
      var p := ps[0];
      FieldAssigns(p, buf, st);
      FieldsAssign(ps[1..], buf, DecodeField(p, buf, st).value);
      assert ps == [p] + ps[1..];
      assert Names(ps) == Names(ps[1..]) + (if Serialised(p) then {p.key.name} else {});
    }
  }

  /** What the last property of a key read is what the object has. */
  lemma FieldOf(ps: Properties, i: nat, buf: seq<byte>)
    requires Decode(ps, buf).Ok? && LastOfKey(ps, i)
    ensures var before := DecodeFields(ps[..i], buf, Start(ps)); var obj := Decode(ps, buf).value.obj;
      before.Ok? && var r := DecodeField(ps[i], buf, before.value);
      r.Ok? && var name := ps[i].key.name; name in r.value.obj && name in obj && obj[name] == r.value.obj[name]
    ensures var r := DecodeField(ps[i], buf, DecodeFields(ps[..i], buf, Start(ps)).value);
      DecodeFields(ps[i + 1..], buf, r.value).Ok?
  {
    hide DecodeField, DecodeFields, Head;
    var rest := ps[i + 1..];
    assert ps == ps[..i] + ([ps[i]] + rest);
    DecodeSplit(ps[..i], [ps[i]] + rest, buf, Start(ps));
    var before := DecodeFields(ps[..i], buf, Start(ps)).value;
    DecodeSplit([ps[i]], rest, buf, before);
    DecodeSingle(ps[i], buf, before);
    FieldAssigns(ps[i], buf, before);
    FieldsAssign(rest, buf, DecodeField(ps[i], buf, before).value);
    forall q | q in rest && Serialised(q) ensures q.key.name != ps[i].key.name {
      var j :| 0 <= j < |rest| && rest[j] == q;
      assert ps[i + 1 + j] == q;
    }
  }

  lemma DecodeSingle(p: Property, buf: seq<byte>, st: State)
    ensures DecodeFields([p], buf, st) == DecodeField(p, buf, st)
  {
    hide DecodeField;
    assert [p][1..] == [];
  }

  //
  // Soundness of types and of the decorators' constraints.
  //

  /** `s` is what `_readString` makes of at most `limit` octets of the buffer. */
  ghost predicate ReadFrom(s: seq<u16>, buf: seq<byte>, limit: Option<nat>) {
    exists start: nat, end: nat ::
      start <= end <= |buf| && s == Utf.ReadUnits(buf, start, end) && (limit.Some? ==> end - start <= limit.value)
  }

  ghost predicate Meets(p: Property, v: Value, buf: seq<byte>) {
    match p.kind
    case Boolean => v.Bool?
    case Number =>
      && v.Num? && -WORD <= v.n < WORD
      && (p.min.Some? ==> p.min.value <= v.n) && (p.max.Some? ==> v.n <= p.max.value)
    case String => v.Str? && ReadFrom(v.s, buf, p.maxLength)
    case Array => v.Arr? && forall i :: 0 <= i < |v.elems| ==> -WORD <= v.elems[i] < WORD
    case Unsupported => true
  }

  /** The array's head 0x98 is the last byte of the buffer, so its length byte is missing. */
  predicate LengthIsMissing(p: Property, buf: seq<byte>, at: nat) {
    p.kind == Array && at + 1 == |buf| && buf[at] == 0x98
  }

  lemma {:induction false} ElemsAreWords(buf: seq<byte>, i: nat, n: nat)
    requires ReadElems(buf, i, n).Some?
    ensures forall k :: 0 <= k < n ==> -WORD <= ReadElems(buf, i, n).value[k] < WORD
    decreases n
  {
    hide Word;
    if n > 0 {
      ElemsAreWords(buf, i + 5, n - 1);
    }
  }

  lemma FieldMeets(p: Property, buf: seq<byte>, st: State)
    requires Serialised(p) && DecodeField(p, buf, st).Ok?
    ensures var r := DecodeField(p, buf, st).value; var name := p.key.name; var at := st.offset + 1 + |name|;
      && name in r.obj
      && (if LengthIsMissing(p, buf, at) then r.obj[name] == Hole && r.offset > |buf| else Meets(p, r.obj[name], buf))
  {
    hide ReadElems, ReadInt, Utf.ReadUnits;
    var at := st.offset + 1 + |p.key.name|;
    match p.kind
    case Boolean =>
    case Number => IntIsWord(buf, at);
    case String =>
      match ReadLength(buf, at, 0x60) {
        case Length(n, next) => assert next <= next + n <= |buf|;
        case Missing(_) => ReadNothing(buf);
        case BadTag =>
      }
    case Array =>
      match ReadLength(buf, at, 0x80) {
        case Length(n, next) => ElemsAreWords(buf, next, n);
        case Missing(_) =>
        case BadTag =>
      }
  }

  lemma IntIsWord(buf: seq<byte>, i: nat)
    ensures ReadInt(buf, i).Some? ==> -WORD <= ReadInt(buf, i).value < WORD
  {
    hide Word;
  }

  lemma ReadNothing(buf: seq<byte>)
    ensures Utf.ReadUnits(buf, 0, 0) == []
  {
  }

  /** The byte at `at` is one of `low` to `high`. */
  predicate ByteBetween(buf: seq<byte>, at: nat, low: byte, high: byte) {
    at < |buf| && low <= buf[at] <= high
  }

  /** The length a text or array head at `at` gives, in plain arithmetic; bytes past the end read as 0. */
  function LengthAt(buf: seq<byte>, at: nat, base: byte): Length
    requires base <= 0x80 && ByteBetween(buf, at, base, base + 26)
  {
    match buf[at] - base
    case 24 => if at + 1 < |buf| then Length(buf[at + 1], at + 2) else Missing(at + 2)
    case 25 => Length(Utf.At(buf, at + 1) as int * 256 + Utf.At(buf, at + 2), at + 3)
    case 26 => Length(WordAt(buf, at + 1), at + 5)
    case n => Length(n, at + 1)
  }

  lemma LengthIs(buf: seq<byte>, at: nat, base: byte)
    requires base <= 0x80
    ensures ReadLength(buf, at, base)
         == if ByteBetween(buf, at, base, base + 26) then LengthAt(buf, at, base) else BadTag
  {
    WordIs(buf, at + 1);
    hide Word, WordAt;
  }

  /** Four bytes, most significant first, with 0 for those past the end. */
  function WordAt(buf: seq<byte>, i: nat): u32 {
    var a: int, b: int, c: int, d: int := Utf.At(buf, i), Utf.At(buf, i + 1), Utf.At(buf, i + 2), Utf.At(buf, i + 3);
    ((a * 256 + b) * 256 + c) * 256 + d
  }

  lemma WordIs(buf: seq<byte>, i: nat)
    ensures Word(buf, i) == WordAt(buf, i)
  {
  }

  /** Every outcome of a Boolean or number field on any bytes: which tags are refused, what is read, and
      which numbers break a bound. */
  lemma ScalarOutcome(p: Property, buf: seq<byte>, st: State)
    requires Serialised(p) && (p.kind == Boolean || p.kind == Number)
    ensures var name := p.key.name; var at := st.offset + 1 + |name|; var r := DecodeField(p, buf, st);
      if p.kind == Boolean then
        if ByteBetween(buf, at, 0xF4, 0xF5) then r == Ok(State(st.obj[name := Bool(buf[at] == 0xF5)], at + 1))
        else r == Err(ExpectedBoolean(name))
      else if ByteBetween(buf, at, 0x1A, 0x1A) || ByteBetween(buf, at, 0x3A, 0x3A) then
        var w: int := WordAt(buf, at + 1);
        var n := if buf[at] == 0x1A then w else -w - 1;
        if (p.min.Some? ==> p.min.value <= n) && (p.max.Some? ==> n <= p.max.value)
        then r == Ok(State(st.obj[name := Num(n)], at + 5))
        else r == Err(BoundaryCheck(name))
      else r == Err(ExpectedInt32(name))
  {
    WordIs(buf, st.offset + 1 + |p.key.name| + 1);
    hide Word, WordAt;
  }

  /** Every outcome of a string field on any bytes. A length over maxLength is refused before the buffer is
      found too short. */
  lemma TextOutcome(p: Property, buf: seq<byte>, st: State)
    requires Serialised(p) && p.kind == String
    ensures var name := p.key.name; var at := st.offset + 1 + |name|; var r := DecodeField(p, buf, st);
      if !ByteBetween(buf, at, 0x60, 0x7A) then r == Err(ExpectedString(name))
      else match LengthAt(buf, at, 0x60)
      case Missing(next) => r == Ok(State(st.obj[name := Str([])], next))
      case Length(n, next) =>
        if p.maxLength.Some? && p.maxLength.value < n then r == Err(StringTooLong(name))
        else if |buf| < next + n then r == Err(UnexpectedEnd)
        else r == Ok(State(st.obj[name := Str(Utf.ReadUnits(buf, next, next + n))], next + n))
  {
    LengthIs(buf, st.offset + 1 + |p.key.name|, 0x60);
    hide ReadLength, Utf.ReadUnits, WordAt;
  }

  /** Every outcome of an array field on any bytes: it is refused at the first element without a tag. */
  lemma ArrayOutcome(p: Property, buf: seq<byte>, st: State)
    requires Serialised(p) && p.kind == Array
    ensures var name := p.key.name; var at := st.offset + 1 + |name|; var r := DecodeField(p, buf, st);
      if !ByteBetween(buf, at, 0x80, 0x9A) then r == Err(ExpectedArray(name))
      else match LengthAt(buf, at, 0x80)
      case Missing(next) => r == Ok(State(st.obj[name := Hole], next))
      case Length(n, next) =>
        if forall k :: 0 <= k < n ==> HasIntTag(buf, next, k)
        then r.Ok? && r.value.offset == next + 5 * n && ElemsRead(r.value, name, buf, next, n)
        else r == Err(ExpectedElement(name))
  {
    var at := st.offset + 1 + |p.key.name|;
    LengthIs(buf, at, 0x80);
    hide ReadLength, ReadElems, HasIntTag, ElemAt, WordAt;
    match ReadLength(buf, at, 0x80)
    case Length(n, next) => ElemsOutcome(buf, next, n);
    case _ =>
  }

  predicate HasIntTag(buf: seq<byte>, i: nat, k: nat) {
    ByteBetween(buf, i + 5 * k, 0x1A, 0x1A) || ByteBetween(buf, i + 5 * k, 0x3A, 0x3A)
  }

  /** The `k`-th of the five-byte integers from `i` on. */
  function ElemAt(buf: seq<byte>, i: nat, k: nat): int {
    var w: int := WordAt(buf, i + 5 * k + 1);
    if ByteBetween(buf, i + 5 * k, 0x1A, 0x1A) then w else -w - 1
  }

  ghost predicate ElemsRead(st: State, name: Name, buf: seq<byte>, i: nat, n: nat) {
    && name in st.obj && st.obj[name].Arr? && |st.obj[name].elems| == n
    && forall k :: 0 <= k < n ==> st.obj[name].elems[k] == ElemAt(buf, i, k)
  }

  lemma ElemShift(buf: seq<byte>, i: nat, k: nat)
    ensures HasIntTag(buf, i, k + 1) == HasIntTag(buf, i + 5, k) && ElemAt(buf, i, k + 1) == ElemAt(buf, i + 5, k)
  {
    assert i + 5 * (k + 1) == i + 5 + 5 * k;
  }

  lemma {:induction false} ElemsOutcome(buf: seq<byte>, i: nat, n: nat)
    ensures ReadElems(buf, i, n).Some? <==> forall k :: 0 <= k < n ==> HasIntTag(buf, i, k)
    ensures ReadElems(buf, i, n).Some? ==>
      forall k :: 0 <= k < n ==> ReadElems(buf, i, n).value[k] == ElemAt(buf, i, k)
    decreases n
  {
    hide HasIntTag, ElemAt, ReadInt;
    if n > 0 {
      FirstElem(buf, i);
      ElemsOutcome(buf, i + 5, n - 1);
      if ReadElems(buf, i + 5, n - 1).Some? {
        forall k | 1 <= k < n ensures HasIntTag(buf, i, k) && ElemAt(buf, i, k) == ElemAt(buf, i + 5, k - 1) {
          ElemShift(buf, i, k - 1);
        }
      } else {
        var k :| 0 <= k < n - 1 && !HasIntTag(buf, i + 5, k);
        ElemShift(buf, i, k);
      }
    }
  }

  lemma FirstElem(buf: seq<byte>, i: nat)
    ensures ReadInt(buf, i) == if HasIntTag(buf, i, 0) then Some(ElemAt(buf, i, 0)) else None
  {
    WordIs(buf, i + 1);
    hide Word, WordAt;
  }

  /** Whatever bytes it is given, an object `fromCBOR` returns has exactly the serialised fields. Each is
      of the type its key was last declared with, within the bounds, a string from at most maxLength
      octets; only an array whose length byte is missing comes back as `[undefined]`. */
  lemma DecodedObjectsAreValid(ps: Properties, buf: seq<byte>)
    requires Decode(ps, buf).Ok?
    ensures var obj := Decode(ps, buf).value.obj;
      && obj.Keys == Names(ps)
      && forall i: nat :: LastOfKey(ps, i) ==>
           var at := ValueOffset(ps, i, buf); var v := obj[ps[i].key.name];
           at.Some? && if LengthIsMissing(ps[i], buf, at.value) then v == Hole else Meets(ps[i], v, buf)
  {
    hide DecodeFields, DecodeField, Meets, Head;
    FieldsAssign(ps, buf, Start(ps));
    forall i: nat | LastOfKey(ps, i)
      ensures ps[i].key.name in Decode(ps, buf).value.obj && ValueOffset(ps, i, buf).Some?
      ensures var at := ValueOffset(ps, i, buf); var v := Decode(ps, buf).value.obj[ps[i].key.name];
        if LengthIsMissing(ps[i], buf, at.value) then v == Hole else Meets(ps[i], v, buf)
    {
      FieldOf(ps, i, buf);
      FieldMeets(ps[i], buf, DecodeFields(ps[..i], buf, Start(ps)).value);
    }
  }

  lemma FieldPastTheEnd(p: Property, buf: seq<byte>, st: State)
    requires st.offset >= |buf|
    ensures DecodeField(p, buf, st).Ok? <==> !Serialised(p)
    ensures !Serialised(p) ==> DecodeField(p, buf, st).value.offset >= |buf|
  {
  }

  /** Past the end of the buffer every serialised field is refused, and every other skipped. */
  lemma {:induction false} PastTheEnd(ps: seq<Property>, buf: seq<byte>, st: State)
    requires st.offset >= |buf|
    ensures DecodeFields(ps, buf, st).Ok? <==> forall p :: p in ps ==> !Serialised(p)
    ensures DecodeFields(ps, buf, st).Ok? ==> DecodeFields(ps, buf, st).value.offset >= |buf|
    decreases |ps|
  {
    hide DecodeField;
    if ps != [] {
      assert ps == [ps[0]] + ps[1..];
      FieldPastTheEnd(ps[0], buf, st);
      var r := DecodeField(ps[0], buf, st);
      if r.Ok? {
        PastTheEnd(ps[1..], buf, r.value);
      }
    }
  }

  /** An array field comes back as `[undefined]` exactly when it is the last serialised property and its
      head byte 0x98 is the last byte of the buffer. */
  lemma HoleIffLengthMissing(ps: Properties, i: nat, buf: seq<byte>)
    requires Decode(ps, buf).Ok? && LastOfKey(ps, i)
    ensures ValueOffset(ps, i, buf).Some? && ps[i].key.name in Decode(ps, buf).value.obj
    ensures Decode(ps, buf).value.obj[ps[i].key.name] == Hole
       <==> LengthIsMissing(ps[i], buf, ValueOffset(ps, i, buf).value)
    ensures LengthIsMissing(ps[i], buf, ValueOffset(ps, i, buf).value) ==>
      forall j :: i < j < |ps| ==> !Serialised(ps[j])
  {
    hide DecodeFields, DecodeField, Head;
    FieldOf(ps, i, buf);
    var before := DecodeFields(ps[..i], buf, Start(ps)).value;
    FieldMeets(ps[i], buf, before);
    if LengthIsMissing(ps[i], buf, ValueOffset(ps, i, buf).value) {
      PastTheEnd(ps[i + 1..], buf, DecodeField(ps[i], buf, before).value);
      forall j | i < j < |ps| ensures !Serialised(ps[j]) {
        assert ps[j] == ps[i + 1..][j - i - 1];
      }
    }
  }

  /** `{a: number[]}` and four bytes. */
  lemma ArrayWithoutLength()
    ensures var p := Property(Literal([97]), Array, None, None, None);
      var r := Decode([p], [0xA1, 0x61, 97, 0x98]);
      r.Ok? && r.value.obj == map[[97] := Hole]
  {
    var p := Property(Literal([97]), Array, None, None, None);
    var buf: seq<byte> := [0xA1, 0x61, 97, 0x98];
    assert ReadLength(buf, 3, 0x80) == Missing(5);
    DecodeSingle(p, buf, Start([p]));
  }

  //
  // maxLength
  //

  /** The text at `at` has exactly `limit` octets, ASCII but for a last one that starts a four-octet
      character. */
  predicate FullTextEndsInLead(buf: seq<byte>, at: nat, limit: nat) {
    match ReadLength(buf, at, 0x60)
    case Length(n, next) => n == limit && Utf.EndsInLead(buf, next, next + n)
    case _ => false
  }

  /** `maxLength` counts octets. Counted in UTF-16 units an accepted string is longer than maxLength, by
      one, exactly when it has maxLength octets and the last one, after ASCII only, is a four-octet lead. */
  lemma StringExceedsMaxLengthIff(ps: Properties, i: nat, buf: seq<byte>)
    requires Decode(ps, buf).Ok? && LastOfKey(ps, i) && ps[i].kind == String && ps[i].maxLength.Some?
    ensures ValueOffset(ps, i, buf).Some? && ps[i].key.name in Decode(ps, buf).value.obj
    ensures var v := Decode(ps, buf).value.obj[ps[i].key.name]; var limit := ps[i].maxLength.value;
      && v.Str? && |v.s| <= limit + 1
      && (|v.s| > limit <==> FullTextEndsInLead(buf, ValueOffset(ps, i, buf).value, limit))
  {
    hide DecodeFields, Head, ReadLength, Utf.ReadUnits, Utf.EndsInLead;
    FieldOf(ps, i, buf);
    var at := ValueOffset(ps, i, buf).value;
    match ReadLength(buf, at, 0x60)
    case Length(n, next) =>
      Utf.ReadUnitsLength(buf, next, next + n);
      Utf.EmptyEndsNowhere(buf, next);
    case _ =>
  }

  /** A buffer whose one string field has maxLength 1 and decodes to two units. */
  lemma StringMayExceedMaxLength()
    ensures var p := Property(Literal([97]), String, None, None, Some(1));
      var r := Decode([p], [0xA1, 0x61, 97, 0x61, 0xF0]);
      r.Ok? && r.value.obj.Keys == {[97]} && r.value.obj[[97]].Str? && |r.value.obj[[97]].s| == 2
  {
    var p := Property(Literal([97]), String, None, None, Some(1));
    var buf: seq<byte> := [0xA1, 0x61, 97, 0x61, 0xF0];
    assert ReadLength(buf, 3, 0x60) == Length(1, 4);
    Utf.ReadUnitsLength(buf, 4, 5);
    DecodeSingle(p, buf, Start([p]));
  }
}
