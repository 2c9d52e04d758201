/** `toCBOR` and `fromCBOR` of a compiled class, and what they mean at the level of its properties. */
module CborCodec {
  import opened Words
  import opened Wrappers
  import opened CborPlugin
  import opened CborCode
  import Utf

  //
  // The encoding of an object, property by property.
  //

  /** A property that is serialised: it has a literal key and a supported type. */
  predicate Serialised(p: Property) {
    p.key.Literal? && p.kind != Unsupported
  }

  /** The object has every serialised field, with the declared type. */
  predicate FieldTyped(p: Property, obj: Object) {
    Serialised(p) ==>
      && p.key.name in obj
      && var v := obj[p.key.name];
         && Fits(v)
         && match p.kind
            case Boolean => v.Bool?
            case Number => v.Num? || v.NonInteger?
            case String => v.Str?
            case _ => v.Arr?
  }

  ghost predicate Typed(ps: seq<Property>, obj: Object) {
    forall p :: p in ps ==> FieldTyped(p, obj)
  }

  function KeyChars(name: Name): seq<byte> {
    seq(|name|, i requires 0 <= i < |name| => name[i] % 256)
  }

  function KeyBytes(name: Name): seq<byte> {
    [(0x60 + |name|) % 256] + KeyChars(name)
  }

  function TextBytes(s: seq<u16>): seq<byte>
    requires |Utf.Encode(s)| < WORD
  {
    Head(0x60, |Utf.Encode(s)|) + Utf.Encode(s)
  }

  function ArrayBytes(elems: seq<int>): seq<byte>
    requires |elems| < WORD
  {
    Head(0x80, |elems|) + ElemBytes(elems)
  }

  function ValueBytes(p: Property, obj: Object): seq<byte>
    requires p.key.Literal? && FieldTyped(p, obj)
  {
    var name := p.key.name;
    match p.kind
    case Boolean => [if obj[name].b then 0xF5 else 0xF4]
    case Number => IntBytes(IntOf(obj[name]))
    case String => TextBytes(obj[name].s)
    case Array => ArrayBytes(obj[name].elems)
    case Unsupported => []
  }

  function FieldBytes(p: Property, obj: Object): seq<byte>
    requires FieldTyped(p, obj)
  {
    if p.key.Computed? then [] else KeyBytes(p.key.name) + ValueBytes(p, obj)
  }

  ghost function FieldsBytes(ps: seq<Property>, obj: Object): seq<byte>
    requires Typed(ps, obj)
  {
    if ps == [] then [] else FieldBytes(ps[0], obj) + FieldsBytes(ps[1..], obj)
  }

  /** The whole encoding: a map header for the number of properties, then the fields in order. */
  ghost function Encoding(ps: Properties, obj: Object): seq<byte>
    requires Typed(ps, obj)
  {
    Head(0xA0, |ps|) + FieldsBytes(ps, obj)
  }

  /** The first number field that is not a 32-bit integer. */
  ghost function Unencodable(ps: seq<Property>, obj: Object): Option<Error>
    requires Typed(ps, obj)
  {
    if ps == [] then None
    else
      assert FieldTyped(ps[0], obj);
      if Serialised(ps[0]) && ps[0].kind == Number && !IsInt32(obj[ps[0].key.name]) then
        Some(ExpectedInt32(ps[0].key.name))
      else Unencodable(ps[1..], obj)
  }

  /** `toCBOR` refuses exactly the objects with a number field that is not an integer of 32 bits, and
      names the first one. */
  lemma {:induction false} UnencodableIs(ps: seq<Property>, obj: Object)
    requires Typed(ps, obj)
    ensures Unencodable(ps, obj).None? <==>
      forall p :: p in ps && Serialised(p) && p.kind == Number ==>
        var v := obj[p.key.name]; v.Num? && -2147483648 <= v.n <= 2147483647
    ensures Unencodable(ps, obj).Some? ==>
      exists i :: 0 <= i < |ps| && Typed(ps[..i], obj) && Unencodable(ps[..i], obj).None?
        && Serialised(ps[i]) && ps[i].kind == Number && Unencodable(ps, obj) == Some(ExpectedInt32(ps[i].key.name))
  {
    if ps != [] {
      assert FieldTyped(ps[0], obj) && ps == [ps[0]] + ps[1..];
      UnencodableIs(ps[1..], obj);
      if Serialised(ps[0]) && ps[0].kind == Number && !IsInt32(obj[ps[0].key.name]) {
        assert ps[..0] == [] && Typed(ps[..0], obj);
      } else if Unencodable(ps, obj).Some? {
        var i :| 0 <= i < |ps[1..]| && Typed(ps[1..][..i], obj) && Unencodable(ps[1..][..i], obj).None?
          && Serialised(ps[1..][i]) && ps[1..][i].kind == Number
          && Unencodable(ps[1..], obj) == Some(ExpectedInt32(ps[1..][i].key.name));
        assert ps[..i + 1] == [ps[0]] + ps[1..][..i] && ps[..i + 1][1..] == ps[1..][..i];
        assert ps[i + 1] == ps[1..][i];
      }
    }
  }

  /** The texts and arrays the theorems leave out cannot exist: every string of up to 2^30 units and every
      array of fewer than 2^32 elements fits. */
  lemma EverythingFits(v: Value)
    requires v.Str? ==> |v.s| <= 0x4000_0000
    requires v.Arr? ==> |v.elems| < 0x1_0000_0000
    ensures Fits(v)
  {
    if v.Str? {
      Utf.EncodeIsShort(v.s);
    }
  }

  //
  // The compiled programs have that meaning.
  //

  lemma {:induction false} WrittenAppend(a: seq<WriteStmt>, b: seq<WriteStmt>, obj: Object)
    requires AllWrite(a, obj) && AllWrite(b, obj)
    ensures WrittenAll(a + b, obj) == WrittenAll(a, obj) + WrittenAll(b, obj)
    ensures WriteError(a + b, obj) == if WriteError(a, obj).Some? then WriteError(a, obj) else WriteError(b, obj)
  {
    hide Written;
    if a == [] {
      assert a + b == b;
    } else {
      assert (a + b)[1..] == a[1..] + b;
      WrittenAppend(a[1..], b, obj);
    }
  }

  lemma {:induction false} SizedAppend(a: seq<SizeStmt>, b: seq<SizeStmt>, obj: Object)
    requires AllSize(a, obj) && AllSize(b, obj)
    ensures SizedAll(a + b, obj) == SizedAll(a, obj) + SizedAll(b, obj)
  {
    hide Sized;
    if a == [] {
      assert a + b == b;
    } else {
      assert (a + b)[1..] == a[1..] + b;
      SizedAppend(a[1..], b, obj);
    }
  }

  lemma {:induction false} ExecAppend(a: seq<ReadStmt>, b: seq<ReadStmt>, buf: seq<byte>, st: State)
    ensures ExecAll(a + b, buf, st)
         == var r := ExecAll(a, buf, st); if r.Err? then r else ExecAll(b, buf, r.value)
    decreases |a|
  {
    hide Exec;
    if a == [] {
      assert a + b == b;
    } else {
      assert (a + b)[1..] == a[1..] + b;
      var r := Exec(a[0], buf, st);
      if r.Ok? {
        ExecAppend(a[1..], b, buf, r.value);
      }
    }
  }

  /** What a program must satisfy so that its three lists agree on `obj`. */
  ghost predicate Means(code: Program, obj: Object, bytes: seq<byte>, error: Option<Error>) {
    && AllSize(code.size, obj) && AllWrite(code.write, obj)
    && SizedAll(code.size, obj) == |bytes|
    && WrittenAll(code.write, obj) == bytes
    && WriteError(code.write, obj) == error
    && (forall name :: PutText(name) in code.write ==> AddText(name) in code.size)
    && (forall name :: PutArray(name) in code.write ==> AddArray(name) in code.size)
  }

  function FirstOf(a: Option<Error>, b: Option<Error>): Option<Error> {
    if a.Some? then a else b
  }

  lemma JoinMeans(c: Program, d: Program, obj: Object, cb: seq<byte>, db: seq<byte>,
                  ce: Option<Error>, de: Option<Error>)
    requires Means(c, obj, cb, ce) && Means(d, obj, db, de)
    ensures Means(Join(c, d), obj, cb + db, FirstOf(ce, de))
  {
    hide SizedAll, WrittenAll, WriteError, CanSize, CanWrite;
    WrittenAppend(c.write, d.write, obj);
    SizedAppend(c.size, d.size, obj);
  }

  lemma HeaderMeans(n: u32, obj: Object)
    ensures Means(HeaderCode(n), obj, Head(0xA0, n), None)
  {
    var code := HeaderCode(n);
    BytesMean(code.write, Head(0xA0, n), obj);
    assert code.size == [AddBytes(|Head(0xA0, n)|)];
    assert SizedAll(code.size[1..], obj) == 0;
  }

  /** A run of constant stores. */
  lemma {:induction false} BytesMean(ss: seq<WriteStmt>, bytes: seq<byte>, obj: Object)
    requires |ss| == |bytes|
    requires forall i :: 0 <= i < |ss| ==> ss[i].PutByte? && ss[i].b % 256 == bytes[i]
    ensures AllWrite(ss, obj) && WrittenAll(ss, obj) == bytes && WriteError(ss, obj) == None
  {
    if ss != [] {
      BytesMean(ss[1..], bytes[1..], obj);
    }
  }

  lemma KeyMeans(name: Name, obj: Object)
    ensures Means(KeyCode(name), obj, KeyBytes(name), None)
  {
    var code := KeyCode(name);
    BytesMean(code.write, KeyBytes(name), obj);
    assert SizedAll(code.size[1..], obj) == 0;
  }

  lemma ValueMeans(p: Property, obj: Object)
    requires p.key.Literal? && FieldTyped(p, obj)
    ensures Means(ValueCode(p), obj, ValueBytes(p, obj), Unencodable([p], obj))
  {
    hide Utf.Encode, Head, IntBytes, ElemBytes;
    var code := ValueCode(p);
    assert [p][1..] == [] && Typed([p], obj);
    assert Unencodable([p][1..], obj) == None;
    if p.kind != Unsupported {
      assert AllSize(code.size, obj) && AllWrite(code.write, obj);
      assert code.write[1..] == [] && WrittenAll(code.write[1..], obj) == [];
      assert WriteError(code.write[1..], obj) == None;
      assert SizedAll(code.size[1..], obj) == 0;
    }
  }

  lemma {:induction false} FieldsMean(ps: seq<Property>, obj: Object)
    requires Typed(ps, obj)
    ensures Means(FieldsCode(ps), obj, FieldsBytes(ps, obj), Unencodable(ps, obj))
  {
    hide Means, KeyBytes, ValueBytes, KeyCode, ValueCode;
    if ps == [] {
      NothingMeans(obj);
    } else {
      var p := ps[0];
      FieldsMean(ps[1..], obj);
      if p.key.Computed? {
        assert PropertyCode(p) == Program([], [], []);
        NothingMeans(obj);
        JoinMeans(PropertyCode(p), FieldsCode(ps[1..]), obj, [], FieldsBytes(ps[1..], obj),
                  None, Unencodable(ps[1..], obj));
      } else {
        KeyMeans(p.key.name, obj);
        ValueMeans(p, obj);
        JoinMeans(KeyCode(p.key.name), ValueCode(p), obj, KeyBytes(p.key.name), ValueBytes(p, obj),
                  None, Unencodable([p], obj));
        JoinMeans(PropertyCode(p), FieldsCode(ps[1..]), obj, FieldBytes(p, obj), FieldsBytes(ps[1..], obj),
                  Unencodable([p], obj), Unencodable(ps[1..], obj));
      }
    }
  }

  lemma NothingMeans(obj: Object)
    ensures Means(Program([], [], []), obj, [], None)
  {
  }

  /** Compiler correctness for the writing side: for every class and every object of it, the size
      program counts exactly the bytes of the encoding, the write program stores exactly them, and it
      throws exactly on the first number field that is not a 32-bit integer. */
  lemma CompileMeans(ps: Properties, obj: Object)
    requires Typed(ps, obj)
    ensures Means(Compile(ps), obj, Encoding(ps, obj), Unencodable(ps, obj))
  {
    hide Means;
    HeaderMeans(|ps|, obj);
    FieldsMean(ps, obj);
    JoinMeans(HeaderCode(|ps|), FieldsCode(ps), obj, Head(0xA0, |ps|), FieldsBytes(ps, obj),
              None, Unencodable(ps, obj));
  }

  //
  // The generated methods.
  //

  /** The write statements, one after another; the result is the final `_offset`. */
  method RunWrites(program: Program, obj: Object, locals: map<Name, nat>, buf: array<byte>) returns (r: Result<nat>)
    requires AllSize(program.size, obj) && AllWrite(program.write, obj) && AllDeclared(program.size, obj, locals)
    requires forall name :: PutText(name) in program.write ==> AddText(name) in program.size
    requires forall name :: PutArray(name) in program.write ==> AddArray(name) in program.size
    requires |WrittenAll(program.write, obj)| <= buf.Length
    modifies buf
    ensures WriteError(program.write, obj).Some? ==> r == Err(WriteError(program.write, obj).value)
    ensures WriteError(program.write, obj).None? ==>
      var bytes := WrittenAll(program.write, obj);
      r == Ok(|bytes|) && buf[..] == Stored(old(buf[..]), 0, bytes)
  {
    hide Written, Declared, CanSize, CanWrite, Stored, Throws, AllSize, AllDeclared;
    var offset := 0;
    var k := 0;
    ghost var start := buf[..];
    ghost var done: seq<byte> := [];
    ghost var all := WrittenAll(program.write, obj);
    StoredNothing(start, 0);
    assert program.write[0..] == program.write && [] + all == all;
    while k < |program.write|
      invariant 0 <= k <= |program.write|
      invariant AllWrite(program.write[k..], obj)
      invariant done + WrittenAll(program.write[k..], obj) == all
      invariant WriteError(program.write[k..], obj) == WriteError(program.write, obj)
      invariant offset == |done| <= buf.Length == |start| && buf[..] == Stored(start, 0, done)
    {
      var s := program.write[k];
      WrittenStep(program.write, k, obj, done);
      DeclaredFor(program, obj, locals, s);
      StoredTwice(start, 0, done, Written(s, obj));
      var end := RunWrite(s, obj, locals, buf, offset);
      if end.Err? {
        return Err(end.error);
      }
      offset := end.value;
      done := done + Written(s, obj);
      k := k + 1;
    }
    NothingWritten(program.write, k, obj);
    assert done + [] == done;
    r := Ok(offset);
  }

  lemma NothingWritten(ss: seq<WriteStmt>, k: nat, obj: Object)
    requires k == |ss|
    ensures AllWrite(ss[k..], obj) && WrittenAll(ss[k..], obj) == [] && WriteError(ss[k..], obj) == None
  {
  }

  /** `toCBOR`. `offset` is the final `_offset`: the buffer is filled to its last byte. */
  method ToCBOR(ghost ps: Properties, program: Program, obj: Object) returns (r: Result<array<byte>>, offset: nat)
    requires program == Compile(ps) && Typed(ps, obj)
    ensures Unencodable(ps, obj).Some? ==> r == Err(Unencodable(ps, obj).value)
    ensures Unencodable(ps, obj).None? ==> r.Ok? && r.value[..] == Encoding(ps, obj) && offset == r.value.Length
    ensures r.Ok? <==>
      forall p :: p in ps && Serialised(p) && p.kind == Number ==>
        var v := obj[p.key.name]; v.Num? && -2147483648 <= v.n <= 2147483647
  {
    hide Serialised, IsInt32;
    UnencodableIs(ps, obj);
    hide Compile, Unencodable, Encoding, AllSize, AllWrite, AllDeclared, SizedAll, WrittenAll, WriteError;
    CompileMeans(ps, obj);
    var size, locals := RunSize(program.size, obj);
    var buf := new byte[size];
    var end := RunWrites(program, obj, locals, buf);
    if end.Err? {
      return Err(end.error), 0;
    }
    r, offset := Ok(buf), end.value;
  }

  lemma WrittenStep(ss: seq<WriteStmt>, k: nat, obj: Object, done: seq<byte>)
    requires k < |ss| && AllWrite(ss[k..], obj)
    ensures AllWrite(ss[k + 1..], obj) && CanWrite(ss[k], obj) && ss[k] in ss
    ensures done + WrittenAll(ss[k..], obj) == (done + Written(ss[k], obj)) + WrittenAll(ss[k + 1..], obj)
    ensures WriteError(ss[k..], obj)
         == if Throws(ss[k], obj) then Some(ExpectedInt32(ss[k].name)) else WriteError(ss[k + 1..], obj)
  {
    hide Written, CanWrite;
    assert ss[k..][0] == ss[k];
    assert ss[k..][1..] == ss[k + 1..];
  }

  lemma DeclaredFor(program: Program, obj: Object, locals: map<Name, nat>, s: WriteStmt)
    requires AllSize(program.size, obj) && AllDeclared(program.size, obj, locals) && s in program.write
    requires CanWrite(s, obj)
    requires forall name :: PutText(name) in program.write ==> AddText(name) in program.size
    requires forall name :: PutArray(name) in program.write ==> AddArray(name) in program.size
    ensures s.PutText? ==> s.name in locals && locals[s.name] == |Utf.Encode(obj[s.name].s)|
    ensures s.PutArray? ==> s.name in locals && locals[s.name] == |obj[s.name].elems|
  {
    if s.PutText? {
      assert Declared(AddText(s.name), obj, locals);
    } else if s.PutArray? {
      assert Declared(AddArray(s.name), obj, locals);
    }
  }

  //
  // Reading, property by property.
  //

  function DecodeField(p: Property, buf: seq<byte>, st: State): Result<State> {
    if p.key.Computed? then Ok(st)
    else
      var name := p.key.name;
      var at := State(st.obj, st.offset + 1 + |name|);
      match p.kind
      case Boolean => ExecBool(name, buf, at)
      case Number => ExecNumber(name, p.min, p.max, buf, at)
      case String => ExecText(name, p.maxLength, buf, at)
      case Array => ExecArray(name, buf, at)
      case Unsupported => Ok(at)
  }

  function DecodeFields(ps: seq<Property>, buf: seq<byte>, st: State): Result<State> {
    if ps == [] then Ok(st)
    else
      var r := DecodeField(ps[0], buf, st);
      if r.Err? then r else DecodeFields(ps[1..], buf, r.value)
  }

  /** What `fromCBOR` computes: the map header is skipped unread, then the fields are taken in order. */
  function Decode(ps: Properties, buf: seq<byte>): Result<State> {
    DecodeFields(ps, buf, State(map[], |Head(0xA0, |ps|)|))
  }

  function ObjectOf(r: Result<State>): Result<Object> {
    if r.Ok? then Ok(r.value.obj) else Err(r.error)
  }

  lemma ExecOne(s: ReadStmt, buf: seq<byte>, st: State)
    ensures ExecAll([s], buf, st) == Exec(s, buf, st)
  {
    hide Exec;
    assert [s][1..] == [];
  }

  lemma FieldReads(p: Property, buf: seq<byte>, st: State)
    ensures ExecAll(PropertyCode(p).read, buf, st) == DecodeField(p, buf, st)
  {
    hide ExecBool, ExecNumber, ExecText, ExecArray;
    if p.key.Literal? {
      var name := p.key.name;
      var value := ValueCode(p).read;
      var at := State(st.obj, st.offset + 1 + |name|);
      assert PropertyCode(p).read == [Skip(1 + |name|)] + value;
      assert PropertyCode(p).read[1..] == value;
      assert Exec(Skip(1 + |name|), buf, st) == Ok(at);
      assert ExecAll(PropertyCode(p).read, buf, st) == ExecAll(value, buf, at);
      if p.kind != Unsupported {
        ExecOne(value[0], buf, at);
        assert value == [value[0]];
      }
    }
  }

  lemma {:induction false} FieldsRead(ps: seq<Property>, buf: seq<byte>, st: State)
    ensures ExecAll(FieldsCode(ps).read, buf, st) == DecodeFields(ps, buf, st)
    decreases |ps|
  {
    hide DecodeField, PropertyCode;
    if ps != [] {
      FieldReads(ps[0], buf, st);
      ExecAppend(PropertyCode(ps[0]).read, FieldsCode(ps[1..]).read, buf, st);
      var r := DecodeField(ps[0], buf, st);
      if r.Ok? {
        FieldsRead(ps[1..], buf, r.value);
      }
    }
  }

  /** Compiler correctness for the reading side, on any bytes whatsoever. */
  lemma CompileReads(ps: Properties, buf: seq<byte>)
    ensures ExecAll(Compile(ps).read, buf, State(map[], 0)) == Decode(ps, buf)
  {
    hide FieldsCode;
    var header := HeaderCode(|ps|).read;
    var st := State(map[], 0);
    assert header == [Skip(|Head(0xA0, |ps|)|)] && header[1..] == [];
    assert Exec(header[0], buf, st) == Ok(State(map[], |Head(0xA0, |ps|)|));
    ExecAppend(header, FieldsCode(ps).read, buf, st);
    FieldsRead(ps, buf, State(map[], |Head(0xA0, |ps|)|));
  }

  /** `fromCBOR` */
  method FromCBOR(ghost ps: Properties, program: Program, buf: array<byte>) returns (r: Result<Object>)
    requires program == Compile(ps)
    ensures r == ObjectOf(Decode(ps, buf[..]))
  {
    hide Compile, Decode, Exec;
    CompileReads(ps, buf[..]);
    var obj: Object := map[];
    var offset := 0;
    var k := 0;
    while k < |program.read|
      invariant 0 <= k <= |program.read|
      invariant ExecAll(program.read[k..], buf[..], State(obj, offset)) == Decode(ps, buf[..])
    {
      var next := RunRead(program.read[k], buf, obj, offset);
      assert program.read[k..][1..] == program.read[k + 1..];
      if next.Err? {
        return Err(next.error);
      }
      obj, offset := next.value.obj, next.value.offset;
      k := k + 1;
    }
    r := Ok(obj);
  }
}
