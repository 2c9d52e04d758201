/** `fromCBOR` undoes `toCBOR`, on every class and every object of it. */
module CborRoundTrip {
  import opened Words
  import opened Wrappers
  import opened CborPlugin
  import opened CborCode
  import opened CborCodec
  import Utf

  /** `bytes` are in `buf` from `i` on. */
  predicate Holds(buf: seq<byte>, i: nat, bytes: seq<byte>) {
    i + |bytes| <= |buf| && buf[i..i + |bytes|] == bytes
  }

  lemma HoldsSplit(buf: seq<byte>, i: nat, a: seq<byte>, b: seq<byte>)
    ensures Holds(buf, i, a + b) <==> Holds(buf, i, a) && Holds(buf, i + |a|, b)
  {
    if i + |a| + |b| <= |buf| {
      var s := buf[i..i + |a| + |b|];
      assert s == buf[i..i + |a|] + buf[i + |a|..i + |a| + |b|];
      assert s[..|a|] == buf[i..i + |a|] && s[|a|..] == buf[i + |a|..i + |a| + |b|];
    }
  }

  lemma HoldsAt(buf: seq<byte>, i: nat, bytes: seq<byte>, k: nat)
    requires Holds(buf, i, bytes) && k < |bytes|
    ensures i + k < |buf| && buf[i + k] == bytes[k]
  {
    assert buf[i + k] == buf[i..i + |bytes|][k];
  }

  //
  // The parts of an encoding read back.
  //

  /** What is left of an integer after five bytes: its low 32 bits, or those of -n-1. */
  function Wrap(n: int): int {
    if n >= 0 then n % WORD else -((-n - 1) % WORD) - 1
  }

  function Wraps(elems: seq<int>): (r: seq<int>)
    ensures |r| == |elems|
  {
    if elems == [] then [] else [Wrap(elems[0])] + Wraps(elems[1..])
  }

  lemma WordOfBig32(buf: seq<byte>, i: nat, n: u32)
    requires Holds(buf, i, Big32(n))
    ensures Word(buf, i) == n
  {
    hide Big32, Join32;
    HoldsAt(buf, i, Big32(n), 0);
    HoldsAt(buf, i, Big32(n), 1);
    HoldsAt(buf, i, Big32(n), 2);
    HoldsAt(buf, i, Big32(n), 3);
    Join32OfBig32(n);
  }

  lemma ReadIntOfBytes(buf: seq<byte>, i: nat, n: int)
    requires Holds(buf, i, IntBytes(n))
    ensures ReadInt(buf, i) == Some(Wrap(n))
  {
    hide Big32, Word;
    HoldsAt(buf, i, IntBytes(n), 0);
    var word := if n >= 0 then n % WORD else (-n - 1) % WORD;
    HoldsSplit(buf, i, [IntBytes(n)[0]], Big32(word));
    WordOfBig32(buf, i + 1, word);
  }

  lemma {:induction false} ReadElemsOfBytes(buf: seq<byte>, i: nat, elems: seq<int>)
    requires Holds(buf, i, ElemBytes(elems))
    ensures ReadElems(buf, i, |elems|) == Some(Wraps(elems))
    decreases |elems|
  {
    hide IntBytes, ReadInt, Wrap, Holds;
    if elems != [] {
      HoldsSplit(buf, i, IntBytes(elems[0]), ElemBytes(elems[1..]));
      ReadIntOfBytes(buf, i, elems[0]);
      ReadElemsOfBytes(buf, i + 5, elems[1..]);
    }
  }

  lemma ReadLengthOfHead(buf: seq<byte>, i: nat, base: byte, n: u32)
    requires base == 0x60 || base == 0x80
    requires Holds(buf, i, Head(base, n))
    ensures ReadLength(buf, i, base) == Length(n, i + |Head(base, n)|)
  {
    hide Big32, Word;
    HoldsAt(buf, i, Head(base, n), 0);
    if n < 24 {
    } else if n <= 0xFF {
      HoldsAt(buf, i, Head(base, n), 1);
    } else if n <= 0xFFFF {
      HoldsAt(buf, i, Head(base, n), 1);
      HoldsAt(buf, i, Head(base, n), 2);
    } else {
      HoldsSplit(buf, i, [Or(base, 26, 0x20)], Big32(n));
      WordOfBig32(buf, i + 1, n);
    }
  }

  //
  // Fields.
  //

  /** The value that comes back: integers keep 32 bits, lone surrogates become U+FFFD. */
  function Canonical(v: Value): Value {
    match v
    case Num(n) => Num(Wrap(n))
    case Str(s) => Str(Utf.WellFormedVersion(s))
    case Arr(elems) => Arr(Wraps(elems))
    case _ => v
  }

  /** A number field is a 32-bit integer: otherwise `toCBOR` throws. */
  predicate Encodable(p: Property, obj: Object)
    requires FieldTyped(p, obj)
  {
    Serialised(p) && p.kind == Number ==> IsInt32(obj[p.key.name])
  }

  /** The constraint of a decorator that the field breaks, if any. */
  function Violation(p: Property, obj: Object): Option<Error>
    requires FieldTyped(p, obj)
  {
    if !Serialised(p) then None
    else
      var name := p.key.name;
      if p.kind == Number && Outside(IntOf(obj[name]), p.min, p.max) then Some(BoundaryCheck(name))
      else if p.kind == String && p.maxLength.Some? && |Utf.Encode(obj[name].s)| > p.maxLength.value then
        Some(StringTooLong(name))
      else None
  }

  ghost function FirstViolation(ps: seq<Property>, obj: Object): Option<Error>
    requires Typed(ps, obj)
  {
    if ps == [] then None
    else
      assert FieldTyped(ps[0], obj);
      FirstOf(Violation(ps[0], obj), FirstViolation(ps[1..], obj))
  }

  /** `acc` with the field assigned. */
  function Assigned(p: Property, obj: Object, acc: Object): Object
    requires FieldTyped(p, obj)
  {
    if Serialised(p) then acc[p.key.name := Canonical(obj[p.key.name])] else acc
  }

  ghost function AllAssigned(ps: seq<Property>, obj: Object, acc: Object): Object
    requires Typed(ps, obj)
  {
    if ps == [] then acc
    else
      assert FieldTyped(ps[0], obj);
      AllAssigned(ps[1..], obj, Assigned(ps[0], obj, acc))
  }

  lemma BoolReads(name: Name, b: bool, buf: seq<byte>, st: State)
    requires Holds(buf, st.offset, [if b then 0xF5 else 0xF4])
    ensures ExecBool(name, buf, st) == Ok(State(st.obj[name := Bool(b)], st.offset + 1))
  {
    HoldsAt(buf, st.offset, [if b then 0xF5 else 0xF4], 0);
  }

  lemma NumberReads(name: Name, min: Option<nat>, max: Option<nat>, n: int, buf: seq<byte>, st: State)
    requires IsInt32(Num(n)) && Holds(buf, st.offset, IntBytes(n))
    ensures ExecNumber(name, min, max, buf, st)
         == if Outside(n, min, max) then Err(BoundaryCheck(name))
            else Ok(State(st.obj[name := Num(n)], st.offset + 5))
    ensures Wrap(n) == n
  {
    hide ReadInt, Holds, IntBytes;
    ReadIntOfBytes(buf, st.offset, n);
  }

  lemma TextReads(name: Name, maxLength: Option<nat>, s: seq<u16>, buf: seq<byte>, st: State)
    requires |Utf.Encode(s)| < WORD && Holds(buf, st.offset, TextBytes(s))
    ensures ExecText(name, maxLength, buf, st)
         == if maxLength.Some? && |Utf.Encode(s)| > maxLength.value then Err(StringTooLong(name))
            else Ok(State(st.obj[name := Str(Utf.WellFormedVersion(s))], st.offset + |TextBytes(s)|))
  {
    hide Utf.Encode, Utf.ReadUnits, Utf.WellFormedVersion, Head, ReadLength;
    var text := Utf.Encode(s);
    HoldsSplit(buf, st.offset, Head(0x60, |text|), text);
    ReadLengthOfHead(buf, st.offset, 0x60, |text|);
    Utf.ReadOfWrite(buf, st.offset + |Head(0x60, |text|)|, s);
  }

  lemma ArrayReads(name: Name, elems: seq<int>, buf: seq<byte>, st: State)
    requires |elems| < WORD && Holds(buf, st.offset, ArrayBytes(elems))
    ensures ExecArray(name, buf, st) == Ok(State(st.obj[name := Arr(Wraps(elems))], st.offset + |ArrayBytes(elems)|))
  {
    hide ElemBytes, Head, ReadLength, ReadElems, Wraps, Holds;
    HoldsSplit(buf, st.offset, Head(0x80, |elems|), ElemBytes(elems));
    ReadLengthOfHead(buf, st.offset, 0x80, |elems|);
    ReadElemsOfBytes(buf, st.offset + |Head(0x80, |elems|)|, elems);
  }

  lemma FieldRoundTrip(p: Property, obj: Object, buf: seq<byte>, st: State)
    requires FieldTyped(p, obj) && Encodable(p, obj) && Holds(buf, st.offset, FieldBytes(p, obj))
    ensures DecodeField(p, buf, st)
         == if Violation(p, obj).Some? then Err(Violation(p, obj).value)
            else Ok(State(Assigned(p, obj, st.obj), st.offset + |FieldBytes(p, obj)|))
  {
    hide Utf.Encode, Utf.WellFormedVersion, ExecBool, ExecNumber, ExecText, ExecArray;
    hide TextBytes, ArrayBytes, IntBytes, Wraps, Wrap, Holds;
    if p.key.Literal? {
      var name := p.key.name;
      HoldsSplit(buf, st.offset, KeyBytes(name), ValueBytes(p, obj));
      var at := State(st.obj, st.offset + 1 + |name|);
      match p.kind
      case Boolean => BoolReads(name, obj[name].b, buf, at);
      case Number => NumberReads(name, p.min, p.max, obj[name].n, buf, at);
      case String => TextReads(name, p.maxLength, obj[name].s, buf, at);
      case Array => ArrayReads(name, obj[name].elems, buf, at);
      case Unsupported =>
    }
  }

  //
  // The whole object.
  //

  lemma {:induction false} FieldsRoundTrip(ps: seq<Property>, obj: Object, buf: seq<byte>, st: State)
    requires Typed(ps, obj) && Unencodable(ps, obj).None?
    requires Holds(buf, st.offset, FieldsBytes(ps, obj))
    ensures DecodeFields(ps, buf, st)
         == if FirstViolation(ps, obj).Some? then Err(FirstViolation(ps, obj).value)
            else Ok(State(AllAssigned(ps, obj, st.obj), st.offset + |FieldsBytes(ps, obj)|))
    decreases |ps|
  {
    hide DecodeField, FieldBytes, Violation, Assigned, Holds;
    if ps != [] {
      var p := ps[0];
      assert FieldTyped(p, obj);
      HoldsSplit(buf, st.offset, FieldBytes(p, obj), FieldsBytes(ps[1..], obj));
      FieldRoundTrip(p, obj, buf, st);
      if Violation(p, obj).None? {
        FieldsRoundTrip(ps[1..], obj, buf, State(Assigned(p, obj, st.obj), st.offset + |FieldBytes(p, obj)|));
      }
    }
  }

  /** Decoding an encoding, whatever bytes follow it: the first broken constraint is the error,
      otherwise every serialised field comes back and exactly the encoding is consumed. */
  lemma RoundTrip(ps: Properties, obj: Object, rest: seq<byte>)
    requires Typed(ps, obj) && Unencodable(ps, obj).None?
    ensures Decode(ps, Encoding(ps, obj) + rest)
         == if FirstViolation(ps, obj).Some? then Err(FirstViolation(ps, obj).value)
            else Ok(State(AllAssigned(ps, obj, map[]), |Encoding(ps, obj)|))
  {
    hide DecodeFields, FieldsBytes, FirstViolation, AllAssigned, Head;
    var buf := Encoding(ps, obj) + rest;
    assert Holds(buf, 0, Encoding(ps, obj));
    HoldsSplit(buf, 0, Head(0xA0, |ps|), FieldsBytes(ps, obj));
    FieldsRoundTrip(ps, obj, buf, State(map[], |Head(0xA0, |ps|)|));
  }

  /** The keys of the serialised properties. */
  ghost function Names(ps: seq<Property>): set<Name> {
    set p | p in ps && Serialised(p) :: p.key.name
  }

  lemma {:induction false} AllAssignedIs(ps: seq<Property>, obj: Object, acc: Object)
    requires Typed(ps, obj)
    ensures Names(ps) <= obj.Keys
    ensures var back := AllAssigned(ps, obj, acc);
      && back.Keys == acc.Keys + Names(ps)
      && (forall k :: k in Names(ps) ==> back[k] == Canonical(obj[k]))
      && (forall k :: k in acc && k !in Names(ps) ==> back[k] == acc[k])
    decreases |ps|
  {
    hide Canonical;
    forall k | k in Names(ps) ensures k in obj {
      var p :| p in ps && Serialised(p) && p.key.name == k;
      assert FieldTyped(p, obj);
    }
    if ps != [] {
      var p := ps[0];
      assert FieldTyped(p, obj);
      assert Typed(ps[1..], obj);
      assert ps == [p] + ps[1..];
      assert Names(ps) == Names(ps[1..]) + (if Serialised(p) then {p.key.name} else {});
      AllAssignedIs(ps[1..], obj, Assigned(p, obj, acc));
    }
  }

  /** A value that five-byte integers and UTF-8 can carry. */
  predicate Faithful(v: Value) {
    match v
    case Num(n) => -WORD <= n < WORD
    case Str(s) => Utf.WellFormed(s)
    case Arr(elems) => forall i :: 0 <= i < |elems| ==> -WORD <= elems[i] < WORD
    case _ => true
  }

  lemma WrapIsIdentityOn(n: int)
    ensures Wrap(n) == n <==> -WORD <= n < WORD
  {
  }

  lemma {:induction false} WrapsAreIdentityOn(elems: seq<int>)
    ensures Wraps(elems) == elems <==> (forall i :: 0 <= i < |elems| ==> -WORD <= elems[i] < WORD)
  {
    hide Wrap;
    if elems != [] {
      WrapIsIdentityOn(elems[0]);
      WrapsAreIdentityOn(elems[1..]);
      assert elems == [elems[0]] + elems[1..];
      assert Wraps(elems)[0] == Wrap(elems[0]) && Wraps(elems)[1..] == Wraps(elems[1..]);
      assert forall i :: 1 <= i < |elems| ==> elems[i] == elems[1..][i - 1];
    }
  }

  lemma CanonicalIsIdentityOn(v: Value)
    ensures Canonical(v) == v <==> Faithful(v)
  {
    match v
    case Num(n) => WrapIsIdentityOn(n);
    case Str(s) => Utf.WellFormedVersionIsIdentityOn(s);
    case Arr(elems) => WrapsAreIdentityOn(elems);
    case _ =>
  }

  /** The serialised part of an object. */
  ghost function Fields(ps: seq<Property>, obj: Object): Object
    requires Names(ps) <= obj.Keys
  {
    map k | k in Names(ps) :: obj[k]
  }

  /** The law the plugin exists for: `fromCBOR(toCBOR(o))` has the serialised fields of `o`, unchanged,
      exactly when they break no decorator's bound, no string among them has a lone surrogate and no
      array element lies outside -2^32 .. 2^32-1. */
  lemma RoundTripIffFaithful(ps: Properties, obj: Object)
    requires Typed(ps, obj) && Unencodable(ps, obj).None?
    ensures Names(ps) <= obj.Keys
    ensures ObjectOf(Decode(ps, Encoding(ps, obj))) == Ok(Fields(ps, obj))
       <==> FirstViolation(ps, obj).None? && forall k :: k in Names(ps) ==> Faithful(obj[k])
  {
    hide Canonical, Faithful, Decode, FirstViolation, Encoding, AllAssigned, Names;
    RoundTrip(ps, obj, []);
    assert Encoding(ps, obj) + [] == Encoding(ps, obj);
    AllAssignedIs(ps, obj, map[]);
    var fields := Fields(ps, obj);
    CanonicalObject(fields);
    assert AllAssigned(ps, obj, map[]) == map k | k in fields :: Canonical(fields[k]);
  }

  lemma CanonicalObject(obj: Object)
    ensures (map k | k in obj :: Canonical(obj[k])) == obj <==> forall k :: k in obj ==> Faithful(obj[k])
  {
    hide Canonical, Faithful;
    var back := map k | k in obj :: Canonical(obj[k]);
    forall k | k in obj ensures back[k] == obj[k] <==> Faithful(obj[k]) {
      CanonicalIsIdentityOn(obj[k]);
    }
  }

  /** A class without its decorators' bounds, which `toCBOR` never looks at. */
  function Unbounded(ps: seq<Property>): (qs: seq<Property>)
    ensures |qs| == |ps|
  {
    if ps == [] then [] else [ps[0].(min := None, max := None, maxLength := None)] + Unbounded(ps[1..])
  }

  /** Without the bounds the fields are written alike, and none is broken. */
  lemma {:induction false} BoundsAreNotWritten(ps: seq<Property>, obj: Object, acc: Object)
    requires Typed(ps, obj)
    ensures var qs := Unbounded(ps);
      && Typed(qs, obj) && FieldsBytes(qs, obj) == FieldsBytes(ps, obj)
      && Unencodable(qs, obj) == Unencodable(ps, obj) && AllAssigned(qs, obj, acc) == AllAssigned(ps, obj, acc)
      && FirstViolation(qs, obj).None?
    decreases |ps|
  {
    hide Canonical, Utf.Encode, Fits, ArrayBytes, IntBytes, KeyBytes;
    if ps != [] {
      var p, qs := ps[0], Unbounded(ps);
      assert FieldTyped(p, obj) && FieldTyped(qs[0], obj);
      assert Assigned(qs[0], obj, acc) == Assigned(p, obj, acc);
      BoundsAreNotWritten(ps[1..], obj, Assigned(p, obj, acc));
      assert qs[1..] == Unbounded(ps[1..]) && qs == [qs[0]] + qs[1..];
      assert FieldBytes(qs[0], obj) == FieldBytes(p, obj);
      assert Violation(qs[0], obj).None?;
    }
  }

  /** Self-delimiting: no encoding is a proper prefix of another of the same class, whatever bounds the
      objects break, and equal encodings mean equal fields. */
  lemma EncodingsArePrefixFree(ps: Properties, a: Object, b: Object, rest: seq<byte>)
    requires Typed(ps, a) && Unencodable(ps, a).None?
    requires Typed(ps, b) && Unencodable(ps, b).None?
    requires Encoding(ps, b) == Encoding(ps, a) + rest
    ensures rest == [] && AllAssigned(ps, a, map[]) == AllAssigned(ps, b, map[])
  {
    hide Decode, AllAssigned, Unbounded, Typed, FieldsBytes, Unencodable, FirstViolation;
    var qs: Properties := Unbounded(ps);
    BoundsAreNotWritten(ps, a, map[]);
    BoundsAreNotWritten(ps, b, map[]);
    RoundTrip(qs, a, rest);
    RoundTrip(qs, b, []);
    assert Encoding(qs, b) + [] == Encoding(qs, b);
  }
}
