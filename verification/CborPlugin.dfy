/** The `@cbor` class transform: from the properties of a class to three straight-line programs, one
    that computes the size of the buffer, one that fills it and one that reads it back. */
module CborPlugin {
  import opened Words
  import opened Wrappers
  import Utf

  //
  // What the visitor extracts from the class declaration.
  //

  /** An identifier or a string literal, as its UTF-16 units. */
  type Name = seq<u16>

  datatype Key = Literal(name: Name) | Computed

  datatype Kind = Boolean | Number | String | Array | Unsupported

  /** A bound is a non-negative integer literal. It is `None` when the decorator does not give it, or gives
      an expression that has no literal value, such as -5: the emitted comparison is then with `undefined`
      and never true. Other literals, such as 0.5, are not part of the model. */
  datatype Property = Property(
    key: Key, kind: Kind, min: Option<nat>, max: Option<nat>, maxLength: Option<nat>)

  /** A JavaScript array has fewer than 2^32 elements. */
  type Properties = ps: seq<Property> | |ps| < 0x1_0000_0000

  //
  // The generated statements.
  //

  datatype SizeStmt =
    | AddBytes(n: nat)
    | AddText(name: Name)
    | AddArray(name: Name)

  datatype WriteStmt =
    | PutByte(b: nat)
    | PutBool(name: Name)
    | PutNumber(name: Name)
    | PutText(name: Name)
    | PutArray(name: Name)

  datatype ReadStmt =
    | Skip(n: nat)
    | GetBool(name: Name)
    | GetNumber(name: Name, min: Option<nat>, max: Option<nat>)
    | GetText(name: Name, maxLength: Option<nat>)
    | GetArray(name: Name)

  datatype Program = Program(size: seq<SizeStmt>, write: seq<WriteStmt>, read: seq<ReadStmt>)

  function Join(p: Program, q: Program): Program {
    Program(p.size + q.size, p.write + q.write, p.read + q.read)
  }

  /** The statements for the map header. */
  function HeaderCode(n: u32): Program {
    if n < 24 then
      Program([AddBytes(1)], [PutByte(0xA0 + n)], [Skip(1)])
    else if n <= 0xFF then
      Program([AddBytes(2)], [PutByte(0xB8), PutByte(n)], [Skip(2)])
    else if n <= 0xFFFF then
      Program([AddBytes(3)], [PutByte(0xB9), PutByte(n / 256), PutByte(n % 256)], [Skip(3)])
    else
      Program([AddBytes(5)],
              [PutByte(0xBA), PutByte(n / 0x100_0000 % 256), PutByte(n / 0x1_0000 % 256), PutByte(n / 256 % 256),
               PutByte(n % 256)],
              [Skip(5)])
  }

  function Chars(name: Name): seq<WriteStmt> {
    seq(|name|, i requires 0 <= i < |name| => PutByte(name[i]))
  }

  function KeyCode(name: Name): Program {
    Program([AddBytes(1 + |name|)], [PutByte(0x60 + |name|)] + Chars(name), [Skip(1 + |name|)])
  }

  function ValueCode(p: Property): Program
    requires p.key.Literal?
  {
    var name := p.key.name;
    match p.kind
    case Boolean => Program([AddBytes(1)], [PutBool(name)], [GetBool(name)])
    case Number => Program([AddBytes(5)], [PutNumber(name)], [GetNumber(name, p.min, p.max)])
    case String => Program([AddText(name)], [PutText(name)], [GetText(name, p.maxLength)])
    case Array => Program([AddArray(name)], [PutArray(name)], [GetArray(name)])
    case Unsupported => Program([], [], [])
  }

  function PropertyCode(p: Property): Program {
    if p.key.Computed? then Program([], [], []) else Join(KeyCode(p.key.name), ValueCode(p))
  }

  function FieldsCode(ps: seq<Property>): Program {
    if ps == [] then Program([], [], []) else Join(PropertyCode(ps[0]), FieldsCode(ps[1..]))
  }

  function Compile(ps: Properties): Program {
    Join(HeaderCode(|ps|), FieldsCode(ps))
  }

  lemma {:induction false} FieldsCodeAppend(ps: seq<Property>, p: Property)
    ensures FieldsCode(ps + [p]) == Join(FieldsCode(ps), PropertyCode(p))
  {
    hide PropertyCode;
    if ps == [] {
      assert ps + [p] == [p];
      assert FieldsCode([p]) == Join(PropertyCode(p), FieldsCode([]));
    } else {
      assert (ps + [p])[1..] == ps[1..] + [p];
      FieldsCodeAppend(ps[1..], p);
    }
  }

  /** The visitor: statements are pushed onto three lists, property by property; a computed key is
      skipped by `continue`, after the header was already generated from the number of properties. */
  method Visit(properties: Properties) returns (program: Program)
    ensures program == Compile(properties)
  {
    hide PropertyCode;
    var size: seq<SizeStmt>, write: seq<WriteStmt>, read: seq<ReadStmt> := [], [], [];
    var propLen: u32 := |properties|;
    if propLen < 24 {
      size := size + [AddBytes(1)];
      write := write + [PutByte(0xA0 + propLen)];
      read := read + [Skip(1)];
    } else if propLen <= 0xFF {
      size := size + [AddBytes(2)];
      write := write + [PutByte(0xB8)];
      write := write + [PutByte(propLen)];
      read := read + [Skip(2)];
    } else if propLen <= 0xFFFF {
      size := size + [AddBytes(3)];
      write := write + [PutByte(0xB9)];
      write := write + [PutByte(propLen / 256)];
      write := write + [PutByte(propLen % 256)];
      read := read + [Skip(3)];
    } else {
      size := size + [AddBytes(5)];
      write := write + [PutByte(0xBA)];
      write := write + [PutByte(propLen / 0x100_0000 % 256)];
      write := write + [PutByte(propLen / 0x1_0000 % 256)];
      write := write + [PutByte(propLen / 256 % 256)];
      write := write + [PutByte(propLen % 256)];
      read := read + [Skip(5)];
    }
    program := Program(size, write, read);
    assert program == HeaderCode(propLen);
    var i := 0;
    while i < |properties|
      invariant 0 <= i <= |properties|
      invariant program == Join(HeaderCode(propLen), FieldsCode(properties[..i]))
    {
      hide HeaderCode;
      ghost var before := program;
      program := VisitProperty(properties[i], program);
      FieldsCodeAppend(properties[..i], properties[i]);
      assert properties[..i + 1] == properties[..i] + [properties[i]];
      i := i + 1;
      JoinAssociates(HeaderCode(propLen), FieldsCode(properties[..i - 1]), PropertyCode(properties[i - 1]));
    }
    assert properties[..i] == properties;
  }

  lemma JoinAssociates(p: Program, q: Program, r: Program)
    ensures Join(Join(p, q), r) == Join(p, Join(q, r))
  {
  }

  /** One iteration of the visitor's loop. */
  method VisitProperty(prop: Property, program: Program) returns (r: Program)
    ensures r == Join(program, PropertyCode(prop))
  {
    if prop.key.Computed? {
      return program;
    }
    var size, write, read := program.size, program.write, program.read;
    var keyName := prop.key.name;
    var keyLen := |keyName|;
    size := size + [AddBytes(1 + keyLen)];
    write := write + [PutByte(0x60 + keyLen)];
    var i := 0;
    while i < keyLen
      invariant 0 <= i <= keyLen
      invariant write == program.write + [PutByte(0x60 + keyLen)] + Chars(keyName)[..i]
    {
      write := write + [PutByte(keyName[i])];
      i := i + 1;
    }
    read := read + [Skip(1 + keyLen)];
    if prop.kind == Boolean {
      size := size + [AddBytes(1)];
      write := write + [PutBool(keyName)];
      read := read + [GetBool(keyName)];
    } else if prop.kind == Number {
      size := size + [AddBytes(5)];
      write := write + [PutNumber(keyName)];
      read := read + [GetNumber(keyName, prop.min, prop.max)];
    } else if prop.kind == String {
      size := size + [AddText(keyName)];
      write := write + [PutText(keyName)];
      read := read + [GetText(keyName, prop.maxLength)];
    } else if prop.kind == Array {
      size := size + [AddArray(keyName)];
      write := write + [PutArray(keyName)];
      read := read + [GetArray(keyName)];
    }
    r := Program(size, write, read);
  }
}
