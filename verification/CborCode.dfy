/** What the generated statements do: the bytes a write statement stores, the bytes a size statement
    counts and the effect of a read statement, then the methods `toCBOR` and `fromCBOR` that run them. */
module CborCode {
  import opened Words
  import opened Wrappers
  import opened CborPlugin
  import Utf

  /** A field value. `NonInteger` is a number that `Number.isInteger` rejects; `Hole` is the array
      `new Array(undefined)`, one undefined element, that a missing length byte produces. */
  datatype Value =
    | Bool(b: bool)
    | Num(n: int)
    | NonInteger
    | Str(s: seq<u16>)
    | Arr(elems: seq<int>)
    | Hole

  type Object = map<Name, Value>

  datatype Error =
    | ExpectedBoolean(name: Name)
    | ExpectedInt32(name: Name)
    | BoundaryCheck(name: Name)
    | ExpectedString(name: Name)
    | StringTooLong(name: Name)
    | UnexpectedEnd
    | ExpectedArray(name: Name)
    | ExpectedElement(name: Name)

  datatype Result<+T> = Ok(value: T) | Err(error: Error)

  //
  // Writing.
  //

  /** The length heads of texts (base 0x60), arrays (0x80) and maps (0xA0). */
  function Head(base: byte, n: u32): (b: seq<byte>)
    requires base % 0x20 == 0
    ensures 1 <= |b| <= 5
  {
    if n < 24 then [Or(base, n, 0x20)]
    else if n <= 0xFF then [Or(base, 24, 0x20), n]
    else if n <= 0xFFFF then [Or(base, 25, 0x20), n / 256, n % 256]
    else [Or(base, 26, 0x20)] + Big32(n)
  }

  /** The fixed five-byte integer; `x >>> 24` and its siblings first reduce `x` modulo 2^32. `-n - 1` is
      exact, as it is for doubles up to 2^53. */
  function IntBytes(n: int): (b: seq<byte>)
    ensures |b| == 5
  {
    if n >= 0 then [0x1A] + Big32(n % WORD) else [0x3A] + Big32((-n - 1) % WORD)
  }

  function ElemBytes(elems: seq<int>): (b: seq<byte>)
    ensures |b| == 5 * |elems|
  {
    if elems == [] then [] else IntBytes(elems[0]) + ElemBytes(elems[1..])
  }

  /** The stored integer: the bytes of a value that `Number.isInteger` rejects are never reached. */
  function IntOf(v: Value): int {
    if v.Num? then v.n else 0
  }

  predicate IsInt32(v: Value) {
    v.Num? && -0x8000_0000 <= v.n <= 0x7FFF_FFFF
  }

  predicate Fits(v: Value) {
    (v.Str? ==> |Utf.Encode(v.s)| < WORD) && (v.Arr? ==> |v.elems| < WORD)
  }

  /** The field a write or size statement names is there, with the declared type. */
  predicate CanWrite(s: WriteStmt, obj: Object) {
    match s
    case PutByte(_) => true
    case PutBool(name) => name in obj && obj[name].Bool?
    case PutNumber(name) => name in obj && (obj[name].Num? || obj[name].NonInteger?)
    case PutText(name) => name in obj && obj[name].Str? && Fits(obj[name])
    case PutArray(name) => name in obj && obj[name].Arr? && Fits(obj[name])
  }

  predicate CanSize(s: SizeStmt, obj: Object) {
    match s
    case AddBytes(_) => true
    case AddText(name) => name in obj && obj[name].Str? && Fits(obj[name])
    case AddArray(name) => name in obj && obj[name].Arr? && Fits(obj[name])
  }

  function Written(s: WriteStmt, obj: Object): seq<byte>
    requires CanWrite(s, obj)
  {
    match s
    case PutByte(b) => [b % 256]
    case PutBool(name) => [if obj[name].b then 0xF5 else 0xF4]
    case PutNumber(name) => IntBytes(IntOf(obj[name]))
    case PutText(name) => var text := Utf.Encode(obj[name].s); Head(0x60, |text|) + text
    case PutArray(name) => Head(0x80, |obj[name].elems|) + ElemBytes(obj[name].elems)
  }

  function Sized(s: SizeStmt, obj: Object): nat
    requires CanSize(s, obj)
  {
    match s
    case AddBytes(n) => n
    case AddText(name) => var text := Utf.Encode(obj[name].s); |Head(0x60, |text|)| + |text|
    case AddArray(name) => var n := |obj[name].elems|; |Head(0x80, n)| + 5 * n
  }

  ghost predicate AllWrite(ss: seq<WriteStmt>, obj: Object) {
    forall s :: s in ss ==> CanWrite(s, obj)
  }

  ghost predicate AllSize(ss: seq<SizeStmt>, obj: Object) {
    forall s :: s in ss ==> CanSize(s, obj)
  }

  /** The bytes of a whole write program. */
  ghost function WrittenAll(ss: seq<WriteStmt>, obj: Object): seq<byte>
    requires AllWrite(ss, obj)
  {
    if ss == [] then [] else Written(ss[0], obj) + WrittenAll(ss[1..], obj)
  }

  ghost function SizedAll(ss: seq<SizeStmt>, obj: Object): nat
    requires AllSize(ss, obj)
  {
    if ss == [] then 0 else Sized(ss[0], obj) + SizedAll(ss[1..], obj)
  }

  predicate Throws(s: WriteStmt, obj: Object)
    requires CanWrite(s, obj)
  {
    s.PutNumber? && !IsInt32(obj[s.name])
  }

  /** The error of the first write statement that throws. */
  ghost function WriteError(ss: seq<WriteStmt>, obj: Object): Option<Error>
    requires AllWrite(ss, obj)
  {
    if ss == [] then None
    else if Throws(ss[0], obj) then Some(ExpectedInt32(ss[0].name))
    else WriteError(ss[1..], obj)
  }

  //
  // Reading. A `Uint8Array` yields `undefined` past its end: as a tag it matches nothing, under
  // a shift or a mask it is 0.
  //

  /** `obj` and `_offset` while `fromCBOR` runs. */
  datatype State = State(obj: Object, offset: nat)

  function Word(buf: seq<byte>, i: nat): u32 {
    Join32(Utf.At(buf, i), Utf.At(buf, i + 1), Utf.At(buf, i + 2), Utf.At(buf, i + 3))
  }

  predicate TagAt(buf: seq<byte>, i: nat, tag: byte) {
    i < |buf| && buf[i] == tag
  }

  /** The five-byte integer at `i`, if its tag is one of the two. */
  function ReadInt(buf: seq<byte>, i: nat): Option<int> {
    if TagAt(buf, i, 0x1A) then Some(Word(buf, i + 1))
    else if TagAt(buf, i, 0x3A) then var uval: int := Word(buf, i + 1); Some(-uval - 1)
    else None
  }

  /** `Missing`: the one-byte length is past the end, so the length is `undefined`. */
  datatype Length = BadTag | Missing(next: nat) | Length(n: u32, next: nat)

  function ReadLength(buf: seq<byte>, i: nat, base: byte): Length
    requires base <= 0x80
  {
    if !(i < |buf|) then BadTag
    else if base <= buf[i] < base + 24 then Length(buf[i] - base, i + 1)
    else if buf[i] == base + 24 then
      if i + 1 < |buf| then Length(buf[i + 1], i + 2) else Missing(i + 2)
    else if buf[i] == base + 25 then
      var high: int := Utf.At(buf, i + 1);
      Length(Or(high * 256, Utf.At(buf, i + 2), 256), i + 3)
    else if buf[i] == base + 26 then Length(Word(buf, i + 1), i + 5)
    else BadTag
  }

  function ReadElems(buf: seq<byte>, i: nat, n: nat): (r: Option<seq<int>>)
    ensures r.Some? ==> |r.value| == n
    decreases n
  {
    if n == 0 then Some([])
    else
      var first := ReadInt(buf, i);
      if first.None? then None
      else
        var rest := ReadElems(buf, i + 5, n - 1);
        if rest.None? then None else Some([first.value] + rest.value)
  }

  predicate Outside(n: int, min: Option<nat>, max: Option<nat>) {
    (min.Some? && n < min.value) || (max.Some? && n > max.value)
  }

  function ExecBool(name: Name, buf: seq<byte>, st: State): Result<State> {
    if TagAt(buf, st.offset, 0xF5) then Ok(State(st.obj[name := Bool(true)], st.offset + 1))
    else if TagAt(buf, st.offset, 0xF4) then Ok(State(st.obj[name := Bool(false)], st.offset + 1))
    else Err(ExpectedBoolean(name))
  }

  function ExecNumber(name: Name, min: Option<nat>, max: Option<nat>, buf: seq<byte>, st: State): Result<State> {
    var n := ReadInt(buf, st.offset);
    if n.None? then Err(ExpectedInt32(name))
    else if Outside(n.value, min, max) then Err(BoundaryCheck(name))
    else Ok(State(st.obj[name := Num(n.value)], st.offset + 5))
  }

  /** With a missing length `_readString` returns "" and `_offset` becomes NaN. Every later read is then
      `undefined`, as it is from `next`, which lies past the end. */
  function ExecText(name: Name, maxLength: Option<nat>, buf: seq<byte>, st: State): Result<State> {
    match ReadLength(buf, st.offset, 0x60)
    case BadTag => Err(ExpectedString(name))
    case Missing(next) => Ok(State(st.obj[name := Str([])], next))
    case Length(n, next) =>
      if maxLength.Some? && n > maxLength.value then Err(StringTooLong(name))
      else if next + n > |buf| then Err(UnexpectedEnd)
      else Ok(State(st.obj[name := Str(Utf.ReadUnits(buf, next, next + n))], next + n))
  }

  function ExecArray(name: Name, buf: seq<byte>, st: State): Result<State> {
    match ReadLength(buf, st.offset, 0x80)
    case BadTag => Err(ExpectedArray(name))
    case Missing(next) => Ok(State(st.obj[name := Hole], next))
    case Length(n, next) =>
      var elems := ReadElems(buf, next, n);
      if elems.None? then Err(ExpectedElement(name))
      else Ok(State(st.obj[name := Arr(elems.value)], next + 5 * n))
  }

  function Exec(s: ReadStmt, buf: seq<byte>, st: State): Result<State> {
    match s
    case Skip(n) => Ok(State(st.obj, st.offset + n))
    case GetBool(name) => ExecBool(name, buf, st)
    case GetNumber(name, min, max) => ExecNumber(name, min, max, buf, st)
    case GetText(name, maxLength) => ExecText(name, maxLength, buf, st)
    case GetArray(name) => ExecArray(name, buf, st)
  }

  function ExecAll(ss: seq<ReadStmt>, buf: seq<byte>, st: State): Result<State> {
    if ss == [] then Ok(st)
    else
      var r := Exec(ss[0], buf, st);
      if r.Err? then r else ExecAll(ss[1..], buf, r.value)
  }

  //
  // The generated methods.
  //

  /** The constant `len_<key>` or `arrLen_<key>` a size statement declares has its value in `locals`. */
  ghost predicate Declared(s: SizeStmt, obj: Object, locals: map<Name, nat>)
    requires CanSize(s, obj)
  {
    match s
    case AddBytes(_) => true
    case AddText(name) => name in locals && locals[name] == |Utf.Encode(obj[name].s)|
    case AddArray(name) => name in locals && locals[name] == |obj[name].elems|
  }

  ghost predicate AllDeclared(ss: seq<SizeStmt>, obj: Object, locals: map<Name, nat>)
    requires AllSize(ss, obj)
  {
    forall s :: s in ss ==> Declared(s, obj, locals)
  }

  /** One size statement, `_size += ...` with the constant it declares. */
  method RunSizeStmt(s: SizeStmt, obj: Object, locals: map<Name, nat>) returns (n: nat, locals': map<Name, nat>)
    requires CanSize(s, obj)
    ensures n == Sized(s, obj) && Declared(s, obj, locals')
    ensures forall t :: CanSize(t, obj) && Declared(t, obj, locals) ==> Declared(t, obj, locals')
  {
    hide Utf.Encode;
    locals' := locals;
    match s {
      case AddBytes(k) =>
        n := k;
      case AddText(name) =>
        var len := Utf.Utf8ByteLength(obj[name].s);
        locals' := locals[name := len];
        if len < 24 { n := 1 + len; }
        else if len <= 0xFF { n := 2 + len; }
        else if len <= 0xFFFF { n := 3 + len; }
        else { n := 5 + len; }
      case AddArray(name) =>
        var arrLen := |obj[name].elems|;
        locals' := locals[name := arrLen];
        if arrLen < 24 { n := 1; }
        else if arrLen <= 0xFF { n := 2; }
        else if arrLen <= 0xFFFF { n := 3; }
        else { n := 5; }
        n := n + arrLen * 5;
    }
  }

  /** The first part of `toCBOR`: `_size`, and the constants later statements use. */
  method RunSize(ss: seq<SizeStmt>, obj: Object) returns (size: nat, locals: map<Name, nat>)
    requires AllSize(ss, obj)
    ensures size == SizedAll(ss, obj)
    ensures AllDeclared(ss, obj, locals)
  {
    hide Sized, Declared;
    size, locals := 0, map[];
    var k := 0;
    while k < |ss|
      invariant 0 <= k <= |ss|
      invariant size + SizedAll(ss[k..], obj) == SizedAll(ss, obj)
      invariant AllDeclared(ss[..k], obj, locals)
    {
      assert ss[k..][1..] == ss[k + 1..];
      assert ss[..k + 1] == ss[..k] + [ss[k]];
      var n, locals' := RunSizeStmt(ss[k], obj, locals);
      size, locals := size + n, locals';
      k := k + 1;
    }
    assert ss[..k] == ss;
  }

  /** `buf` with `bytes` stored at `offset`. */
  ghost function Stored(buf: seq<byte>, offset: nat, bytes: seq<byte>): seq<byte>
    requires offset + |bytes| <= |buf|
  {
    buf[..offset] + bytes + buf[offset + |bytes|..]
  }

  lemma StoredTwice(buf: seq<byte>, offset: nat, a: seq<byte>, b: seq<byte>)
    requires offset + |a| + |b| <= |buf|
    ensures Stored(Stored(buf, offset, a), offset + |a|, b) == Stored(buf, offset, a + b)
  {
    Utf.RunsJoin(buf, Stored(buf, offset, a), Stored(Stored(buf, offset, a), offset + |a|, b), offset, a, b);
  }

  method PutHead(base: byte, n: u32, buf: array<byte>, offset: nat) returns (end: nat)
    requires base % 0x20 == 0 && offset + |Head(base, n)| <= buf.Length
    modifies buf
    ensures end == offset + |Head(base, n)|
    ensures buf[..] == Stored(old(buf[..]), offset, Head(base, n))
  {
    if n < 24 { end := Utf.Put([Or(base, n, 0x20)], buf, offset); }
    else if n <= 0xFF { end := Utf.Put([Or(base, 24, 0x20), n], buf, offset); }
    else if n <= 0xFFFF { end := Utf.Put([Or(base, 25, 0x20), n / 256, n % 256], buf, offset); }
    else { end := Utf.Put([Or(base, 26, 0x20)] + Big32(n), buf, offset); }
  }

  method PutElems(elems: seq<int>, buf: array<byte>, offset: nat) returns (end: nat)
    requires offset + |ElemBytes(elems)| <= buf.Length
    modifies buf
    ensures end == offset + |ElemBytes(elems)|
    ensures buf[..] == Stored(old(buf[..]), offset, ElemBytes(elems))
  {
    hide IntBytes, Stored;
    end := offset;
    var i := 0;
    ghost var start := buf[..];
    ghost var done: seq<byte> := [];
    assert buf[..] == start[..offset] + done + start[end..];
    StoredNothing(start, offset);
    while i < |elems|
      invariant 0 <= i <= |elems| && end == offset + |done|
      invariant done + ElemBytes(elems[i..]) == ElemBytes(elems)
      invariant end <= |start| == buf.Length && buf[..] == Stored(start, offset, done)
    {
      var elem := elems[i];
      assert elems[i..][1..] == elems[i + 1..];
      assert done + (IntBytes(elem) + ElemBytes(elems[i + 1..])) == (done + IntBytes(elem)) + ElemBytes(elems[i + 1..]);
      StoredTwice(start, offset, done, IntBytes(elem));
      end := PutInt(elem, buf, end);
      done := done + IntBytes(elem);
      i := i + 1;
    }
    assert done + [] == done;
  }

  lemma StoredNothing(buf: seq<byte>, offset: nat)
    requires offset <= |buf|
    ensures Stored(buf, offset, []) == buf
  {
  }

  method PutInt(elem: int, buf: array<byte>, offset: nat) returns (end: nat)
    requires offset + 5 <= buf.Length
    modifies buf
    ensures end == offset + 5
    ensures buf[..] == Stored(old(buf[..]), offset, IntBytes(elem))
  {
    if elem >= 0 {
      end := Utf.Put([0x1A] + Big32(elem % WORD), buf, offset);
    } else {
      var val_elem := -elem - 1;
      end := Utf.Put([0x3A] + Big32(val_elem % WORD), buf, offset);
    }
  }

  /** The stores for a string field, with the length `toCBOR` computed while sizing. */
  method PutTextField(text: seq<u16>, len: u32, buf: array<byte>, offset: nat) returns (end: nat)
    requires len == |Utf.Encode(text)| && offset + |Head(0x60, len)| + len <= buf.Length
    modifies buf
    ensures end == offset + |Head(0x60, len)| + len
    ensures buf[..] == Stored(old(buf[..]), offset, Head(0x60, len) + Utf.Encode(text))
  {
    hide Utf.Encode, Head;
    StoredTwice(buf[..], offset, Head(0x60, len), Utf.Encode(text));
    end := PutHead(0x60, len, buf, offset);
    var written := Utf.WriteString(text, buf, end);
    end := end + written;
  }

  method PutArrayField(elems: seq<int>, arrLen: u32, buf: array<byte>, offset: nat) returns (end: nat)
    requires arrLen == |elems| && offset + |Head(0x80, arrLen)| + |ElemBytes(elems)| <= buf.Length
    modifies buf
    ensures end == offset + |Head(0x80, arrLen)| + |ElemBytes(elems)|
    ensures buf[..] == Stored(old(buf[..]), offset, Head(0x80, arrLen) + ElemBytes(elems))
  {
    hide ElemBytes, Head, Stored;
    StoredTwice(buf[..], offset, Head(0x80, arrLen), ElemBytes(elems));
    end := PutHead(0x80, arrLen, buf, offset);
    end := PutElems(elems, buf, end);
  }

  /** One write statement, at `_offset`. */
  method RunWrite(s: WriteStmt, obj: Object, locals: map<Name, nat>, buf: array<byte>, offset: nat)
    returns (r: Result<nat>)
    requires CanWrite(s, obj) && offset + |Written(s, obj)| <= buf.Length
    requires s.PutText? ==> s.name in locals && locals[s.name] == |Utf.Encode(obj[s.name].s)|
    requires s.PutArray? ==> s.name in locals && locals[s.name] == |obj[s.name].elems|
    modifies buf
    ensures r == if Throws(s, obj) then Err(ExpectedInt32(s.name)) else Ok(offset + |Written(s, obj)|)
    ensures r.Ok? ==> buf[..] == Stored(old(buf[..]), offset, Written(s, obj))
  {
    hide Utf.Encode, Head, IntBytes, ElemBytes;
    var end := offset;
    match s {
      case PutByte(b) =>
        end := Utf.Put([b % 256], buf, offset);
      case PutBool(name) =>
        end := Utf.Put([if obj[name].b then 0xF5 else 0xF4], buf, offset);
      case PutNumber(name) =>
        if !IsInt32(obj[name]) {
          return Err(ExpectedInt32(name));
        }
        end := PutInt(obj[name].n, buf, offset);
      case PutText(name) =>
        end := PutTextField(obj[name].s, locals[name], buf, offset);
      case PutArray(name) =>
        end := PutArrayField(obj[name].elems, locals[name], buf, offset);
    }
    r := Ok(end);
  }

  //
  // The read statements, over the buffer itself.
  //

  method TakeInt(buf: array<byte>, offset: nat) returns (r: Option<int>)
    ensures r == ReadInt(buf[..], offset)
  {
    r := None;
    if offset < buf.Length {
      var tag := buf[offset];
      if tag == 0x1A {
        r := Some(Word(buf[..], offset + 1));
      } else if tag == 0x3A {
        var uval: int := Word(buf[..], offset + 1);
        r := Some(-uval - 1);
      }
    }
  }

  method TakeElems(buf: array<byte>, offset: nat, arrLen: nat) returns (r: Option<seq<int>>)
    ensures r == ReadElems(buf[..], offset, arrLen)
  {
    hide ReadInt;
    var arr: seq<int> := [];
    var i := 0;
    ghost var all := ReadElems(buf[..], offset, arrLen);
    assert all.Some? ==> [] + all.value == all.value;
    while i < arrLen
      invariant 0 <= i <= arrLen && |arr| == i
      invariant ReadElems(buf[..], offset, arrLen)
             == var rest := ReadElems(buf[..], offset + 5 * i, arrLen - i);
                if rest.None? then None else Some(arr + rest.value)
    {
      var val_elem := TakeInt(buf, offset + 5 * i);
      if val_elem.None? {
        return None;
      }
      ghost var rest := ReadElems(buf[..], offset + 5 * (i + 1), arrLen - (i + 1));
      assert rest.Some? ==> arr + ([val_elem.value] + rest.value) == (arr + [val_elem.value]) + rest.value;
      arr := arr + [val_elem.value];
      i := i + 1;
    }
    assert arr + [] == arr;
    r := Some(arr);
  }

  method RunText(name: Name, maxLength: Option<nat>, buf: array<byte>, obj: Object, offset: nat)
    returns (r: Result<State>)
    ensures r == ExecText(name, maxLength, buf[..], State(obj, offset))
  {
    hide Utf.ReadUnits, ReadLength;
    var head := ReadLength(buf[..], offset, 0x60);
    match head {
      case BadTag => return Err(ExpectedString(name));
      case Missing(next) => return Ok(State(obj[name := Str([])], next));
      case Length(strLen, next) =>
        if maxLength.Some? && strLen > maxLength.value {
          return Err(StringTooLong(name));
        }
        var text := Utf.ReadString(buf, next, strLen);
        if text.UnexpectedEnd? {
          return Err(UnexpectedEnd);
        }
        return Ok(State(obj[name := Str(text.value)], next + strLen));
    }
  }

  /** One read statement, at `_offset`. */
  method RunRead(s: ReadStmt, buf: array<byte>, obj: Object, offset: nat) returns (r: Result<State>)
    ensures r == Exec(s, buf[..], State(obj, offset))
  {
    hide ExecText, ReadInt, ReadElems, ReadLength;
    match s {
      case Skip(n) =>
        return Ok(State(obj, offset + n));
      case GetBool(name) =>
        if offset < buf.Length && buf[offset] == 0xF5 {
          return Ok(State(obj[name := Bool(true)], offset + 1));
        } else if offset < buf.Length && buf[offset] == 0xF4 {
          return Ok(State(obj[name := Bool(false)], offset + 1));
        }
        return Err(ExpectedBoolean(name));
      case GetNumber(name, min, max) =>
        var val := TakeInt(buf, offset);
        if val.None? {
          return Err(ExpectedInt32(name));
        }
        if Outside(val.value, min, max) {
          return Err(BoundaryCheck(name));
        }
        return Ok(State(obj[name := Num(val.value)], offset + 5));
      case GetText(name, maxLength) =>
        r := RunText(name, maxLength, buf, obj, offset);
      case GetArray(name) =>
        var head := ReadLength(buf[..], offset, 0x80);
        match head {
          case BadTag => return Err(ExpectedArray(name));
          case Missing(next) => return Ok(State(obj[name := Hole], next));
          case Length(arrLen, next) =>
            var elems := TakeElems(buf, next, arrLen);
            if elems.None? {
              return Err(ExpectedElement(name));
            }
            return Ok(State(obj[name := Arr(elems.value)], next + 5 * arrLen));
        }
    }
  }
}
