/** The binary AST format: every node is a header of eight bytes (type tag, flags, total length), its
    payload and its children. */
module AstSerializer {
  import opened Words
  import opened Wrappers
  import Utf

  datatype Kind = Var | Let | Const | OtherKind

  /** A declarator: its identifier unless it is a pattern, and its initialiser (`Missing` if none). */
  datatype Declarator = Declarator(id: Option<seq<u16>>, init: Node)

  /** The syntax tree. `Missing` is a null child, a number is its eight IEEE 754 bytes. */
  datatype Node =
    | Program(body: seq<Node>)
    | Block(body: seq<Node>)
    | Declaration(kind: Kind, declarations: seq<Declarator>)
    | Numeric(bits: seq<byte>)
    | Str(value: seq<u16>)
    | Expression(expression: Node)
    | Unsupported
    | Missing

  /** `writeDoubleLE` writes eight bytes. */
  ghost predicate Plausible(n: Node) {
    match n
    case Program(body) => forall c :: c in body ==> Plausible(c)
    case Block(body) => forall c :: c in body ==> Plausible(c)
    case Declaration(_, ds) => forall d :: d in ds ==> Plausible(d.init)
    case Numeric(bits) => |bits| == 8
    case Expression(e) => Plausible(e)
    case _ => true
  }

  function Little16(x: u16): (b: seq<byte>)
    ensures |b| == 2
  {
    [x % 256, x / 256]
  }

  /** The four low bytes of `x`, least significant first. */
  function Little32(x: nat): (b: seq<byte>)
    ensures |b| == 4
  {
    [x % 256, x / 256 % 256, x / 0x1_0000 % 256, x / 0x100_0000 % 256]
  }

  function Flag(kind: Kind): byte {
    match kind case Let => 1 case Const => 2 case _ => 0
  }

  /** A length-prefixed string. */
  function Prefixed(s: seq<byte>): seq<byte> {
    Little32(|s|) + s
  }

  function Assemble(tag: byte, flags: byte, content: seq<byte>): seq<byte> {
    Little16(tag) + Little16(flags) + Little32(8 + |content|) + content
  }

  function NamePayload(ds: seq<Declarator>): seq<byte> {
    if ds != [] && ds[0].id.Some? then Prefixed(Utf.Encode(ds[0].id.value)) else []
  }

  /** The bytes `serialize` concatenates. */
  function Bytes(n: Node): seq<byte>
    decreases n, 1
  {
    match n
    case Program(body) => Assemble(0, 0, AllBytes(body))
    case Block(body) => Assemble(4, 0, AllBytes(body))
    case Declaration(kind, ds) => Assemble(1, Flag(kind), NamePayload(ds) + if ds != [] then Bytes(ds[0].init) else [])
    case Numeric(bits) => Assemble(2, 0, bits)
    case Str(value) => Assemble(3, 0, Prefixed(Utf.Encode(value)))
    case Expression(e) => Bytes(e)
    case Unsupported => []
    case Missing => []
  }

  function AllBytes(ns: seq<Node>): seq<byte>
    decreases ns, 0
  {
    if ns == [] then [] else Bytes(ns[0]) + AllBytes(ns[1..])
  }

  /** `writeUInt32LE` throws a RangeError when a length does not fit. */
  function CheckedText(s: seq<byte>): Option<seq<byte>> {
    if |s| < WORD then Some(Prefixed(s)) else None
  }

  /** A node from its payload and its children's buffers, `None` when anything threw. */
  function Emit(tag: byte, flags: byte, payload: Option<seq<byte>>, children: Option<seq<byte>>): Option<seq<byte>> {
    if payload.None? || children.None? || 8 + |payload.value| + |children.value| >= WORD then None
    else Some(Assemble(tag, flags, payload.value + children.value))
  }

  /** `serialize`, with its length checks where it makes them. */
  function Serialize(n: Node): Option<seq<byte>>
    decreases n, 1
  {
    match n
    case Program(body) => Emit(0, 0, Some([]), SerializeAll(body))
    case Block(body) => Emit(4, 0, Some([]), SerializeAll(body))
    case Declaration(kind, ds) =>
      Emit(1, Flag(kind),
           if ds != [] && ds[0].id.Some? then CheckedText(Utf.Encode(ds[0].id.value)) else Some([]),
           if ds != [] then Serialize(ds[0].init) else Some([]))
    case Numeric(bits) => Emit(2, 0, Some(bits), Some([]))
    case Str(value) => Emit(3, 0, CheckedText(Utf.Encode(value)), Some([]))
    case Expression(e) => Serialize(e)
    case Unsupported => Some([])
    case Missing => Some([])
  }

  function SerializeAll(ns: seq<Node>): Option<seq<byte>>
    decreases ns, 0
  {
    if ns == [] then Some([])
    else
      var first, rest := Serialize(ns[0]), SerializeAll(ns[1..]);
      if first.None? || rest.None? then None else Some(first.value + rest.value)
  }

  /** Lengths grow towards the root, so it is the root's that decides: some check fails exactly when the
      whole encoding is too long. */
  lemma {:induction false} SerializeIs(n: Node)
    ensures Serialize(n) == if |Bytes(n)| < WORD then Some(Bytes(n)) else None
    decreases n, 1
  {
    hide Utf.Encode, Assemble, Prefixed;
    match n
    case Program(body) => AllSerializeIs(body); AssembleEmits(0, 0, [], AllBytes(body));
    case Block(body) => AllSerializeIs(body); AssembleEmits(4, 0, [], AllBytes(body));
    case Declaration(kind, ds) =>
      var init := if ds != [] then Bytes(ds[0].init) else [];
      if ds != [] {
        SerializeIs(ds[0].init);
        if ds[0].id.Some? {
          PrefixedLength(Utf.Encode(ds[0].id.value));
        }
      }
      AssembleEmits(1, Flag(kind), NamePayload(ds), init);
    case Numeric(bits) => AssembleEmits(2, 0, bits, []);
    case Str(value) =>
      PrefixedLength(Utf.Encode(value));
      AssembleEmits(3, 0, Prefixed(Utf.Encode(value)), []);
    case Expression(e) => SerializeIs(e);
    case _ =>
  }

  /** Siblings may each fit where all together do not. */
  lemma {:induction false} AllSerializeIs(ns: seq<Node>)
    ensures SerializeAll(ns).Some? ==> SerializeAll(ns).value == AllBytes(ns)
    ensures SerializeAll(ns).None? ==> |AllBytes(ns)| >= WORD
    decreases ns, 0
  {
    hide Bytes, Serialize;
    if ns != [] {
      SerializeIs(ns[0]);
      AllSerializeIs(ns[1..]);
    }
  }

  lemma PrefixedLength(s: seq<byte>)
    ensures |Prefixed(s)| == 4 + |s|
  {
  }

  lemma AssembleEmits(tag: byte, flags: byte, payload: seq<byte>, children: seq<byte>)
    ensures |Assemble(tag, flags, payload + children)| == 8 + |payload| + |children|
    ensures payload + [] == payload && [] + children == children
  {
  }

  lemma SmallHeader(tag: byte, flags: byte, content: seq<byte>)
    requires |content| < 248
    ensures Assemble(tag, flags, content) == [tag, 0, flags, 0, 8 + |content|, 0, 0, 0] + content
  {
  }

  lemma SmallText(c: Utf.Scalar)
    requires c < 0x80
    ensures Prefixed(Utf.Encode([c])) == [1, 0, 0, 0, c]
  {
    Utf.EncodeStep([c]);
    assert [c][1..] == [];
    assert Utf.Scalars([]) == [];
  }

  lemma OneChild(n: Node)
    ensures AllBytes([n]) == Bytes(n)
  {
    hide Bytes;
    assert [n][1..] == [];
  }

  lemma TwoChildren(a: Node, b: Node)
    ensures AllBytes([a, b]) == Bytes(a) + Bytes(b)
  {
    hide Bytes;
    assert [a, b][1..] == [b];
    OneChild(b);
  }

  const ONE: seq<byte> := [0, 0, 0, 0, 0, 0, 0xF0, 0x3F]

  lemma SmallDeclaration()
    ensures Bytes(Declaration(Const, [Declarator(Some([97]), Numeric(ONE))]))
         == [1, 0, 2, 0, 29, 0, 0, 0] + ([1, 0, 0, 0, 97] + ([2, 0, 0, 0, 16, 0, 0, 0] + ONE))
  {
    hide Assemble, Utf.Encode, Prefixed;
    SmallText(97);
    SmallHeader(2, 0, ONE);
    SmallHeader(1, 2, [1, 0, 0, 0, 97] + ([2, 0, 0, 0, 16, 0, 0, 0] + ONE));
    var d := Declarator(Some([97]), Numeric(ONE));
    assert NamePayload([d]) == [1, 0, 0, 0, 97];
    assert Bytes(d.init) == [2, 0, 0, 0, 16, 0, 0, 0] + ONE;
  }

  lemma SmallBlock()
    ensures Bytes(Block([Expression(Str([98]))]))
         == [4, 0, 0, 0, 21, 0, 0, 0] + ([3, 0, 0, 0, 13, 0, 0, 0] + [1, 0, 0, 0, 98])
  {
    hide Assemble, Utf.Encode, Prefixed;
    SmallText(98);
    SmallHeader(3, 0, [1, 0, 0, 0, 98]);
    SmallHeader(4, 0, [3, 0, 0, 0, 13, 0, 0, 0] + [1, 0, 0, 0, 98]);
    OneChild(Expression(Str([98])));
    assert Bytes(Expression(Str([98]))) == Bytes(Str([98]));
  }

  /** Only a number without its eight bytes is implausible. */
  lemma SmallIsPlausible()
    ensures Plausible(Program([Declaration(Const, [Declarator(Some([97]), Numeric(ONE))]),
                               Block([Expression(Str([98])), Unsupported, Missing])]))
  {
    var d := Declarator(Some([97]), Numeric(ONE));
    var children := [Expression(Str([98])), Unsupported, Missing];
    assert Plausible(Expression(Str([98]))) by { assert Plausible(Str([98])); }
    assert forall c :: c in children ==> c == children[0] || c == children[1] || c == children[2];
    assert Plausible(Block(children));
    assert Plausible(Declaration(Const, [d])) by { assert forall e :: e in [d] ==> e == d; }
    var body := [Declaration(Const, [d]), Block(children)];
    assert forall c :: c in body ==> c == body[0] || c == body[1];
  }

  /** The program `const a = 1; { "b" }`, byte by byte. */
  lemma SmallProgram()
    ensures var a := Declaration(Const, [Declarator(Some([97]), Numeric(ONE))]);
      var b := Block([Expression(Str([98]))]);
      Serialize(Program([a, b])) == Some(
        [0, 0, 0, 0, 58, 0, 0, 0] +
        (([1, 0, 2, 0, 29, 0, 0, 0] + ([1, 0, 0, 0, 97] + ([2, 0, 0, 0, 16, 0, 0, 0] + ONE))) +
         ([4, 0, 0, 0, 21, 0, 0, 0] + ([3, 0, 0, 0, 13, 0, 0, 0] + [1, 0, 0, 0, 98]))))
  {
    hide Assemble, Serialize;
    var a, b := Declaration(Const, [Declarator(Some([97]), Numeric(ONE))]), Block([Expression(Str([98]))]);
    SmallDeclaration();
    SmallBlock();
    TwoChildren(a, b);
    SmallHeader(0, 0, Bytes(a) + Bytes(b));
    assert Bytes(Program([a, b])) == Assemble(0, 0, Bytes(a) + Bytes(b));
    SerializeIs(Program([a, b]));
  }

  //
  // Reading the format back, from tags and lengths alone.
  //

  datatype Tree =
    | ProgramTree(children: seq<Tree>)
    | BlockTree(children: seq<Tree>)
    | DeclarationTree(kind: Kind, name: Option<seq<byte>>, children: seq<Tree>)
    | NumericTree(bits: seq<byte>)
    | StrTree(octets: seq<byte>)

  function From16(b: seq<byte>): int
    requires |b| == 2
  {
    b[0] as int + b[1] as int * 256
  }

  function From32(b: seq<byte>): int
    requires |b| == 4
  {
    b[0] as int + b[1] as int * 256 + b[2] as int * 0x1_0000 + b[3] as int * 0x100_0000
  }

  /** The total length in the header at the front of `b`, if it is one. */
  function NodeLength(b: seq<byte>): Option<nat> {
    if |b| < 8 then None
    else
      var total := From32(b[4..8]);
      if 8 <= total <= |b| then Some(total) else None
  }

  /** The nodes one after another, by their header lengths only. */
  function Skip(b: seq<byte>): Option<seq<seq<byte>>>
    decreases |b|
  {
    if b == [] then Some([])
    else if NodeLength(b).None? then None
    else
      var n := NodeLength(b).value;
      var rest := Skip(b[n..]);
      if rest.None? then None else Some([b[..n]] + rest.value)
  }

  function DecodeAll(b: seq<byte>): Option<seq<Tree>>
    decreases |b|, 1
  {
    if b == [] then Some([])
    else if NodeLength(b).None? then None
    else
      var n := NodeLength(b).value;
      var first := DecodeNode(b[..n]);
      if first.None? then None
      else
        var rest := DecodeAll(b[n..]);
        if rest.None? then None else Some([first.value] + rest.value)
  }

  /** The reader's table of declaration kinds. */
  function KindOf(flags: int): Kind {
    match flags case 0 => Var case 1 => Let case 2 => Const case _ => OtherKind
  }

  function DecodeNode(b: seq<byte>): Option<Tree>
    requires |b| >= 8
    decreases |b|, 0
  {
    var tag, flags, content := From16(b[..2]), From16(b[2..4]), b[8..];
    if tag == 0 || tag == 4 then
      var children := DecodeAll(content);
      if children.None? then None
      else Some(if tag == 0 then ProgramTree(children.value) else BlockTree(children.value))
    else if tag == 1 then
      if content == [] then Some(DeclarationTree(KindOf(flags), None, []))
      else if |content| < 4 || |content| < 4 + From32(content[..4]) then None
      else
        var end := 4 + From32(content[..4]);
        var children := DecodeAll(content[end..]);
        if children.None? then None else Some(DeclarationTree(KindOf(flags), Some(content[4..end]), children.value))
    else if tag == 2 then (if |content| == 8 then Some(NumericTree(content)) else None)
    else if tag == 3 then
      if |content| >= 4 && |content| == 4 + From32(content[..4]) then Some(StrTree(content[4..])) else None
    else None
  }

  //
  // What a tree should decode to.
  //

  /** A kind the format does not know, such as `using`, is written as `var`. */
  function KnownKind(kind: Kind): Kind {
    if kind == OtherKind then Var else kind
  }

  /** Expression statements unwrapped, unsupported and null nodes dropped, of a declaration only the
      first declarator kept. At most one tree. */
  function Normalise(n: Node): seq<Tree>
    decreases n, 1
  {
    match n
    case Program(body) => [ProgramTree(NormaliseAll(body))]
    case Block(body) => [BlockTree(NormaliseAll(body))]
    case Declaration(kind, ds) =>
      if ds == [] then [DeclarationTree(KnownKind(kind), None, [])]
      else
        var name := if ds[0].id.Some? then Some(Utf.Encode(ds[0].id.value)) else None;
        [DeclarationTree(KnownKind(kind), name, Normalise(ds[0].init))]
    case Numeric(bits) => [NumericTree(bits)]
    case Str(value) => [StrTree(Utf.Encode(value))]
    case Expression(e) => Normalise(e)
    case Unsupported => []
    case Missing => []
  }

  function NormaliseAll(ns: seq<Node>): seq<Tree>
    decreases ns, 0
  {
    if ns == [] then [] else Normalise(ns[0]) + NormaliseAll(ns[1..])
  }

  /** No declaration binds a pattern to an initialiser that is encoded: its payload would be empty and
      the initialiser's header would stand where a name length is expected. */
  ghost predicate Regular(n: Node)
    decreases n
  {
    match n
    case Program(body) => forall c :: c in body ==> Regular(c)
    case Block(body) => forall c :: c in body ==> Regular(c)
    case Declaration(_, ds) => ds == [] || ((ds[0].id.Some? || Normalise(ds[0].init) == []) && Regular(ds[0].init))
    case Expression(e) => Regular(e)
    case _ => true
  }

  //
  // Proofs.
  //

  lemma From16OfLittle(x: u16)
    ensures From16(Little16(x)) == x
  {
  }

  lemma From32OfLittle(x: u32)
    ensures From32(Little32(x)) == x
  {
    assert x / 256 == x / 0x1_0000 * 256 + x / 256 % 256;
    assert x / 0x1_0000 == x / 0x100_0000 * 256 + x / 0x1_0000 % 256;
  }

  lemma AssembledParts(tag: byte, flags: byte, content: seq<byte>)
    requires 8 + |content| < WORD
    ensures var b := Assemble(tag, flags, content);
      && |b| == 8 + |content| && b[8..] == content
      && From16(b[..2]) == tag && From16(b[2..4]) == flags && From32(b[4..8]) == |b|
  {
    hide From16, From32, Little16, Little32;
    var b := Assemble(tag, flags, content);
    assert b[..2] == Little16(tag) && b[2..4] == Little16(flags) && b[4..8] == Little32(8 + |content|);
    From16OfLittle(tag);
    From16OfLittle(flags);
    From32OfLittle(8 + |content|);
  }

  /** A node is empty exactly when it is dropped, and otherwise one header that spans it all. */
  lemma {:induction false} Shape(n: Node)
    requires |Bytes(n)| < WORD
    ensures Bytes(n) == [] <==> Normalise(n) == []
    ensures |Normalise(n)| <= 1
    ensures Bytes(n) != [] ==> NodeLength(Bytes(n)) == Some(|Bytes(n)|)
    decreases n
  {
    hide Little16, Little32, From16, From32, Utf.Encode;
    match n
    case Program(body) => AssembledParts(0, 0, AllBytes(body));
    case Block(body) => AssembledParts(4, 0, AllBytes(body));
    case Declaration(kind, ds) =>
      AssembledParts(1, Flag(kind), NamePayload(ds) + if ds != [] then Bytes(ds[0].init) else []);
    case Numeric(bits) => AssembledParts(2, 0, bits);
    case Str(value) => AssembledParts(3, 0, Prefixed(Utf.Encode(value)));
    case Expression(e) => Shape(e);
    case Unsupported =>
    case Missing =>
  }

  lemma NodeLengthPrefix(b: seq<byte>, rest: seq<byte>)
    requires NodeLength(b) == Some(|b|)
    ensures NodeLength(b + rest) == Some(|b|)
  {
    assert (b + rest)[4..8] == b[4..8];
  }

  /** One node in front of others. */
  lemma DecodeCons(b: seq<byte>, rest: seq<byte>)
    requires NodeLength(b) == Some(|b|)
    ensures DecodeAll(b + rest)
         == var first := DecodeNode(b); var others := DecodeAll(rest);
            if first.None? || others.None? then None else Some([first.value] + others.value)
    ensures Skip(b + rest) == var others := Skip(rest); if others.None? then None else Some([b] + others.value)
  {
    hide DecodeNode, NodeLength;
    NodeLengthPrefix(b, rest);
    LengthPositive(b);
    assert (b + rest)[..|b|] == b && (b + rest)[|b|..] == rest;
  }

  lemma LengthPositive(b: seq<byte>)
    ensures NodeLength(b).Some? ==> |b| >= 8 && NodeLength(b).value >= 8
  {
  }

  lemma DecodeOne(b: seq<byte>)
    requires NodeLength(b) == Some(|b|)
    ensures |b| >= 8
    ensures DecodeAll(b) == if DecodeNode(b).None? then None else Some([DecodeNode(b).value])
  {
    hide DecodeNode, NodeLength;
    LengthPositive(b);
    DecodeCons(b, []);
    assert b + [] == b;
    assert DecodeNode(b).Some? ==> [DecodeNode(b).value] + [] == [DecodeNode(b).value];
  }

  /** The children whose encoding is not empty. */
  function Encoded(ns: seq<Node>): seq<seq<byte>> {
    if ns == [] then [] else (if Bytes(ns[0]) == [] then [] else [Bytes(ns[0])]) + Encoded(ns[1..])
  }

  /** Skipping by header length through the children of a program or block visits exactly the encoded
      children, and ends exactly at the parent's end. */
  lemma {:induction false} SkippingVisitsChildren(ns: seq<Node>)
    requires |AllBytes(ns)| < WORD
    ensures Skip(AllBytes(ns)) == Some(Encoded(ns))
    decreases |ns|
  {
    hide Bytes, NodeLength, Normalise;
    if ns != [] {
      SkippingVisitsChildren(ns[1..]);
      Shape(ns[0]);
      if Bytes(ns[0]) == [] {
        assert AllBytes(ns) == AllBytes(ns[1..]);
        assert Encoded(ns) == Encoded(ns[1..]);
      } else {
        DecodeCons(Bytes(ns[0]), AllBytes(ns[1..]));
      }
    }
  }

  /** The format decodes to the normalised tree exactly for regular trees. */
  lemma {:induction false} DecodesIffRegular(n: Node)
    requires Plausible(n) && |Bytes(n)| < WORD
    ensures DecodeAll(Bytes(n)) == Some(Normalise(n)) <==> Regular(n)
    decreases n, 1
  {
    hide Assemble, DecodeNode, NodeLength, Utf.Encode, Prefixed, NamePayload;
    Shape(n);
    match n
    case Expression(e) => DecodesIffRegular(e);
    case Unsupported =>
    case Missing =>
    case Program(body) => ListBytes(0, body); AllDecodeIffRegular(body); DecodeOne(Bytes(n)); ListNode(0, body);
    case Block(body) => ListBytes(4, body); AllDecodeIffRegular(body); DecodeOne(Bytes(n)); ListNode(4, body);
    case Numeric(bits) => DecodeOne(Bytes(n)); NumericNode(bits);
    case Str(value) => DecodeOne(Bytes(n)); StrNode(value);
    case Declaration(kind, ds) =>
      DecodeOne(Bytes(n));
      if ds == [] {
        EmptyDeclaration(kind);
      } else {
        assert ds[0] in ds;
        InitIsShorter(kind, ds);
        DecodesIffRegular(ds[0].init);
        DeclarationNode(kind, ds);
      }
  }

  lemma ListBytes(tag: byte, body: seq<Node>)
    ensures |Assemble(tag, 0, AllBytes(body))| == 8 + |AllBytes(body)|
  {
  }

  lemma InitIsShorter(kind: Kind, ds: seq<Declarator>)
    requires ds != []
    ensures |Bytes(ds[0].init)| < |Bytes(Declaration(kind, ds))|
  {
  }

  lemma ListNode(tag: byte, body: seq<Node>)
    requires (tag == 0 || tag == 4) && 8 + |AllBytes(body)| < WORD
    ensures var b := Assemble(tag, 0, AllBytes(body)); var children := DecodeAll(AllBytes(body));
      && |b| >= 8
      && DecodeNode(b) == if children.None? then None
                          else Some(if tag == 0 then ProgramTree(children.value) else BlockTree(children.value))
  {
    hide Assemble, AllBytes, DecodeAll, From16, From32;
    AssembledParts(tag, 0, AllBytes(body));
  }

  lemma NumericNode(bits: seq<byte>)
    requires |bits| == 8
    ensures var b := Assemble(2, 0, bits); |b| >= 8 && DecodeNode(b) == Some(NumericTree(bits))
  {
    hide Assemble, From16, From32;
    AssembledParts(2, 0, bits);
  }

  lemma PrefixedParts(s: seq<byte>, rest: seq<byte>)
    requires |s| < WORD
    ensures var c := Prefixed(s) + rest;
      |c| == 4 + |s| + |rest| && From32(c[..4]) == |s| && c[4..4 + |s|] == s && c[4 + |s|..] == rest
  {
    hide From32, Little32;
    From32OfLittle(|s|);
    assert (Prefixed(s) + rest)[..4] == Little32(|s|);
  }

  lemma StrNode(value: seq<u16>)
    requires |Bytes(Str(value))| < WORD
    ensures |Bytes(Str(value))| >= 8 && DecodeNode(Bytes(Str(value))) == Some(StrTree(Utf.Encode(value)))
  {
    hide Assemble, From16, From32, Utf.Encode, Prefixed;
    var s := Utf.Encode(value);
    assert |Assemble(3, 0, Prefixed(s))| == 12 + |s| by { AssembledLength(3, 0, s); }
    AssembledParts(3, 0, Prefixed(s)) by { AssembledLength(3, 0, s); }
    PrefixedParts(s, []);
    assert Prefixed(s) + [] == Prefixed(s);
    assert Prefixed(s)[4..4 + |s|] == Prefixed(s)[4..];
  }

  lemma AssembledLength(tag: byte, flags: byte, s: seq<byte>)
    ensures |Assemble(tag, flags, Prefixed(s))| == 12 + |s| && |Prefixed(s)| == 4 + |s|
  {
  }

  lemma EmptyDeclaration(kind: Kind)
    ensures var b := Bytes(Declaration(kind, []));
      |b| >= 8 && DecodeNode(b) == Some(DeclarationTree(KnownKind(kind), None, []))
  {
    hide Assemble, From16, From32;
    AssembledParts(1, Flag(kind), []);
    assert NamePayload([]) + [] == [];
  }

  /** A named declaration decodes like its initialiser; an unnamed one only if nothing follows. */
  lemma DeclarationNode(kind: Kind, ds: seq<Declarator>)
    requires ds != [] && |Bytes(Declaration(kind, ds))| < WORD
    ensures var b := Bytes(Declaration(kind, ds)); var init := Bytes(ds[0].init);
      && |b| >= 8
      && (ds[0].id.Some? ==>
            DecodeNode(b) == if DecodeAll(init).None? then None
                             else Some(DeclarationTree(KnownKind(kind), Some(Utf.Encode(ds[0].id.value)),
                                                       DecodeAll(init).value)))
      && (ds[0].id.None? && init == [] ==> DecodeNode(b) == Some(DeclarationTree(KnownKind(kind), None, [])))
      && (ds[0].id.None? && init != [] && DecodeNode(b).Some? ==>
            DecodeNode(b).value.DeclarationTree? && DecodeNode(b).value.name.Some?)
  {
    hide Assemble, From16, From32, Utf.Encode, Prefixed, DecodeAll;
    var init := Bytes(ds[0].init);
    var content := NamePayload(ds) + init;
    assert |Assemble(1, Flag(kind), content)| == 8 + |content| by { ContentLength(1, Flag(kind), content); }
    AssembledParts(1, Flag(kind), content);
    if ds[0].id.Some? {
      var s := Utf.Encode(ds[0].id.value);
      assert |s| < WORD by { NameLength(s, init); }
      PrefixedParts(s, init);
    } else {
      assert content == init;
    }
  }

  lemma ContentLength(tag: byte, flags: byte, content: seq<byte>)
    ensures |Assemble(tag, flags, content)| == 8 + |content|
  {
  }

  lemma NameLength(s: seq<byte>, rest: seq<byte>)
    ensures |Prefixed(s) + rest| == 4 + |s| + |rest|
  {
  }

  lemma {:induction false} AllDecodeIffRegular(ns: seq<Node>)
    requires (forall n :: n in ns ==> Plausible(n)) && |AllBytes(ns)| < WORD
    ensures DecodeAll(AllBytes(ns)) == Some(NormaliseAll(ns)) <==> forall n :: n in ns ==> Regular(n)
    decreases ns, 0
  {
    hide Bytes, Normalise, Regular, Plausible, NodeLength, DecodeNode;
    if ns != [] {
      var n, rest := ns[0], ns[1..];
      assert n in ns && ns == [n] + rest;
      DecodesIffRegular(n);
      AllDecodeIffRegular(rest);
      Shape(n);
      if Bytes(n) == [] {
        assert AllBytes(ns) == AllBytes(rest);
        assert Normalise(n) == [] && DecodeAll(Bytes(n)) == Some([]);
        assert NormaliseAll(ns) == NormaliseAll(rest);
      } else {
        DecodeCons(Bytes(n), AllBytes(rest));
        DecodeOne(Bytes(n));
        OneAndRest(DecodeNode(Bytes(n)), DecodeAll(AllBytes(rest)), Normalise(n), NormaliseAll(rest));
      }
    }
  }

  lemma OneAndRest(first: Option<Tree>, others: Option<seq<Tree>>, one: seq<Tree>, all: seq<Tree>)
    requires |one| == 1
    ensures (if first.None? || others.None? then None else Some([first.value] + others.value)) == Some(one + all)
       <==> first == Some(one[0]) && others == Some(all)
    ensures (if first.None? then None else Some([first.value])) == Some(one) <==> first == Some(one[0])
  {
    assert one == [one[0]];
    if first.Some? && others.Some? && [first.value] + others.value == one + all {
      assert ([first.value] + others.value)[1..] == others.value && (one + all)[1..] == all;
      assert ([first.value] + others.value)[0] == (one + all)[0];
    }
  }

  /** Whatever `serialize` returns without throwing decodes to the normalised tree exactly when the tree is
      regular. */
  lemma SerializedDecodesIffRegular(n: Node)
    requires Plausible(n) && Serialize(n).Some?
    ensures DecodeAll(Serialize(n).value) == Some(Normalise(n)) <==> Regular(n)
  {
    hide Bytes, DecodeAll, Regular, Plausible, Serialize;
    SerializeIs(n);
    DecodesIffRegular(n);
  }

  /** A smallest tree that does not come back: `let {} = 0`. The number's type tag is read as the length
      of a name. */
  lemma PatternIsMisread()
    ensures var n := Declaration(Let, [Declarator(None, Numeric([0, 0, 0, 0, 0, 0, 0, 0]))]);
      DecodeAll(Bytes(n)) != Some(Normalise(n))
  {
    hide Bytes, DecodeAll;
    var zero := Numeric([0, 0, 0, 0, 0, 0, 0, 0]);
    var d := Declarator(None, zero);
    var n := Declaration(Let, [d]);
    assert [d][0] == d && !Regular(n);
    assert |Bytes(n)| == 24 by { LengthOfPattern(d); }
    assert Plausible(n);
    DecodesIffRegular(n);
  }

  lemma LengthOfPattern(d: Declarator)
    requires d == Declarator(None, Numeric([0, 0, 0, 0, 0, 0, 0, 0]))
    ensures |Bytes(Declaration(Let, [d]))| == 24
  {
    assert |Bytes(d.init)| == 16;
    assert NamePayload([d]) == [];
  }
}
