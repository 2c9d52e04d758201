/** The WebSocket frame parser, which unmasks the payload inside the caller's buffer, against the frame
    format of sections 5.2 and 5.3 of RFC 6455. */
module WebSocket {
  import opened Words
  import opened Wrappers

  /** What `parseFrame` returns. */
  datatype Frame = Frame(fin: bool, opcode: byte, payloadStart: nat, payloadLength: nat)

  //
  // Frames on the wire (section 5.2 of RFC 6455).
  //

  datatype Form = Short | Medium | Long

  /** A frame to send. `rsv` holds the three reserved bits, `key` the masking key if there is one. */
  datatype Message = Message(fin: bool, rsv: byte, opcode: byte, form: Form, key: Option<seq<byte>>, payload: seq<byte>)

  /** The length form is wide enough (a longer one than needed is allowed) and the key has four bytes. */
  predicate Valid(m: Message) {
    && m.rsv < 8 && m.opcode < 16
    && (m.key.Some? ==> |m.key.value| == 4)
    && |m.payload| < match m.form case Short => 126 case Medium => 0x1_0000 case Long => 0x1_0000_0000_0000_0000
  }

  /** The `k` low bytes of `n`, most significant first. */
  function Big(n: nat, k: nat): (r: seq<byte>)
    ensures |r| == k
  {
    if k == 0 then [] else Big(n / 256, k - 1) + [n % 256]
  }

  function LengthCode(m: Message): byte
    requires Valid(m)
  {
    match m.form case Short => |m.payload| case Medium => 126 case Long => 127
  }

  function LengthBytes(m: Message): seq<byte> {
    match m.form case Short => [] case Medium => Big(|m.payload|, 2) case Long => Big(|m.payload|, 8)
  }

  function Header(m: Message): seq<byte>
    requires Valid(m)
  {
    [Or(if m.fin then 0x80 else 0, Or(m.rsv * 0x10, m.opcode, 0x10), 0x80),
     Or(if m.key.Some? then 0x80 else 0, LengthCode(m), 0x80)] + LengthBytes(m)
  }

  /** The `k` low bits of `a ^ b`. */
  function XorBits(a: nat, b: nat, k: nat): nat {
    if k == 0 then 0 else XorBits(a / 2, b / 2, k - 1) * 2 + (a + b) % 2
  }

  function Power2(k: nat): (r: nat)
    ensures r > 0
  {
    if k == 0 then 1 else 2 * Power2(k - 1)
  }

  lemma {:induction false} XorBitsTwice(a: nat, b: nat, k: nat)
    requires a < Power2(k)
    ensures XorBits(a, b, k) < Power2(k) && XorBits(XorBits(a, b, k), b, k) == a
    decreases k
  {
    if k > 0 {
      XorBitsTwice(a / 2, b / 2, k - 1);
      LowBit(XorBits(a / 2, b / 2, k - 1), a, b);
    }
  }

  /** The low bit of a number, and flipping it twice. */
  lemma LowBit(high: nat, a: nat, b: nat)
    ensures var r := high * 2 + (a + b) % 2; r / 2 == high && (r + b) % 2 == a % 2
    ensures a == a / 2 * 2 + a % 2
  {
  }

  /** `a ^ b` on bytes. */
  function Xor(a: byte, b: byte): byte {
    BytePower();
    XorBitsTwice(a, b, 8);
    XorBits(a, b, 8)
  }

  function Bit(a: nat, i: nat): (b: nat)
    ensures b < 2
  {
    if i == 0 then a % 2 else Bit(a / 2, i - 1)
  }

  lemma {:induction false} XorBit(a: nat, b: nat, k: nat, i: nat)
    requires i < k
    ensures Bit(XorBits(a, b, k), i) == 1 <==> Bit(a, i) != Bit(b, i)
    decreases k
  {
    LowBit(XorBits(a / 2, b / 2, k - 1), a, b);
    if i > 0 {
      XorBit(a / 2, b / 2, k - 1, i - 1);
    }
  }

  lemma TwoBits(x: nat)
    ensures Bit(x, 0) == x % 2 && Bit(x, 1) == x / 2 % 2
  {
    assert Bit(x, 1) == Bit(x / 2, 0);
  }

  lemma BitsAbove(x: nat, i: nat)
    ensures Bit(x, i + 2) == Bit(x / 4, i)
  {
    assert Bit(x, i + 2) == Bit(x / 2, i + 1) == Bit(x / 4, i);
  }

  /** The bits of a byte, by division and remainder. */
  lemma BitsOfByte(x: byte)
    ensures Bit(x, 0) == x % 2 && Bit(x, 1) == x / 2 % 2 && Bit(x, 2) == x / 4 % 2 && Bit(x, 3) == x / 8 % 2
    ensures Bit(x, 4) == x / 16 % 2 && Bit(x, 5) == x / 32 % 2 && Bit(x, 6) == x / 64 % 2 && Bit(x, 7) == x / 128 % 2
  {
    hide Bit;
    TwoBits(x);
    TwoBits(x / 4);
    TwoBits(x / 16);
    TwoBits(x / 64);
    BitsAbove(x, 0);
    BitsAbove(x, 1);
    BitsAbove(x, 2);
    BitsAbove(x, 3);
    BitsAbove(x, 4);
    BitsAbove(x, 5);
    BitsAbove(x / 4, 0);
    BitsAbove(x / 4, 1);
    BitsAbove(x / 4, 2);
    BitsAbove(x / 4, 3);
    BitsAbove(x / 16, 0);
    BitsAbove(x / 16, 1);
    assert x / 4 / 2 == x / 8 && x / 4 / 4 == x / 16 && x / 16 / 2 == x / 32 && x / 16 / 4 == x / 64;
    assert x / 64 / 2 == x / 128;
  }

  /** Each bit of the result is set exactly when that bit of the operands differs. */
  lemma XorIsBitwise(a: byte, b: byte, i: nat)
    requires i < 8
    ensures Bit(Xor(a, b), i) == 1 <==> Bit(a, i) != Bit(b, i)
  {
    XorBit(a, b, 8, i);
  }

  lemma BytePower()
    ensures Power2(8) == 256
  {
    assert Power2(4) == 16;
    assert Power2(6) == 64;
  }

  lemma XorTwice(x: byte, k: byte)
    ensures Xor(Xor(x, k), k) == x
  {
    BytePower();
    XorBitsTwice(x, k, 8);
  }

  function KeyBytes(m: Message): seq<byte> {
    if m.key.Some? then m.key.value else []
  }

  /** Section 5.3: octet i of the payload xor octet (i mod 4) of the key. */
  function Masked(payload: seq<byte>, key: Option<seq<byte>>): (r: seq<byte>)
    requires key.Some? ==> |key.value| == 4
    ensures |r| == |payload|
  {
    seq(|payload|, i requires 0 <= i < |payload| => if key.Some? then Xor(payload[i], key.value[i % 4]) else payload[i])
  }

  function Wire(m: Message): seq<byte>
    requires Valid(m)
  {
    Header(m) + KeyBytes(m) + Masked(m.payload, m.key)
  }

  //
  // The parser.
  //

  /** Big-endian reading, as `readUInt16BE` and `readUInt32BE` do. */
  function FromBig(b: seq<byte>): nat {
    if b == [] then 0 else FromBig(b[..|b| - 1]) * 256 + b[|b| - 1]
  }

  /** The payload length and the offset after the length field. */
  function LengthField(b: seq<byte>): Option<(nat, nat)>
    requires |b| >= 2
  {
    var code := b[1] % 0x80;
    if code == 126 then (if |b| < 4 then None else Some((FromBig(b[2..4]), 4)))
    else if code == 127 then
      if |b| < 10 then None else Some((FromBig(b[2..6]) * 0x1_0000_0000 + FromBig(b[6..10]), 10))
    else Some((code, 2))
  }

  predicate IsMasked(b: seq<byte>)
    requires |b| >= 2
  {
    b[1] / 0x80 == 1
  }

  function Parse(b: seq<byte>): Option<Frame> {
    if |b| < 2 then None
    else
      var field := LengthField(b);
      if field.None? then None
      else
        var (length, next) := field.value;
        var start := if IsMasked(b) then next + 4 else next;
        if |b| < start + length then None
        else Some(Frame(b[0] / 0x80 == 1, b[0] % 0x10, start, length))
  }

  /** Byte `j` once the first `n` payload bytes from `start` on are xored with the key at `key`. */
  function Flipped(b: seq<byte>, start: nat, n: nat, key: nat, j: nat): byte
    requires key + 4 <= start && start + n <= |b| && j < |b|
  {
    if start <= j < start + n then Xor(b[j], b[key + (j - start) % 4]) else b[j]
  }

  /** The buffer afterwards. The key is the four bytes before the payload, read through a view of the
      same buffer. */
  function Unmasked(b: seq<byte>, f: Frame): (r: seq<byte>)
    requires |b| >= 2 && f.payloadStart + f.payloadLength <= |b| && (IsMasked(b) ==> f.payloadStart >= 4)
    ensures |r| == |b|
  {
    if IsMasked(b) then
      seq(|b|, j requires 0 <= j < |b| => Flipped(b, f.payloadStart, f.payloadLength, f.payloadStart - 4, j))
    else b
  }

  /** The unmasking loop. `maskKey` is a view of the buffer itself, before the payload. */
  method Unmask(buffer: array<byte>, payloadStart: nat, payloadLength: nat, maskKey: nat)
    requires maskKey + 4 <= payloadStart && payloadStart + payloadLength <= buffer.Length
    modifies buffer
    ensures forall j :: 0 <= j < buffer.Length ==>
      buffer[j] == Flipped(old(buffer[..]), payloadStart, payloadLength, maskKey, j)
  {
    hide Xor;
    ghost var b := buffer[..];
    var i := 0;
    while i < payloadLength
      invariant 0 <= i <= payloadLength
      invariant forall j :: 0 <= j < buffer.Length ==> buffer[j] == Flipped(b, payloadStart, i, maskKey, j)
    {
      assert buffer[maskKey + i % 4] == b[maskKey + i % 4];
      assert buffer[payloadStart + i] == b[payloadStart + i];
      assert Flipped(b, payloadStart, i + 1, maskKey, payloadStart + i) == Xor(b[payloadStart + i], b[maskKey + i % 4]);
      buffer[payloadStart + i] := Xor(buffer[payloadStart + i], buffer[maskKey + i % 4]);
      i := i + 1;
    }
  }

  /** `parseFrame` */
  method ParseFrame(buffer: array<byte>) returns (r: Option<Frame>)
    modifies buffer
    ensures r == Parse(old(buffer[..]))
    ensures r.None? ==> buffer[..] == old(buffer[..])
    ensures r.Some? ==>
      var b := old(buffer[..]); var f := r.value;
      && |b| >= 2 && f.payloadStart + f.payloadLength <= |b| && (IsMasked(b) ==> f.payloadStart >= 6)
      && buffer[..] == Unmasked(b, f)
  {
    hide FromBig, Unmasked, Xor;
    ghost var b := buffer[..];
    if buffer.Length < 2 {
      return None;
    }
    var byte0 := buffer[0];
    var byte1 := buffer[1];
    var fin := byte0 / 0x80 == 1;
    var opcode := byte0 % 0x10;
    var masked := byte1 / 0x80 == 1;
    var payloadLength: nat := byte1 % 0x80;
    var offset := 2;
    if payloadLength == 126 {
      if buffer.Length < 4 {
        return None;
      }
      payloadLength := FromBig(buffer[2..4]);
      offset := offset + 2;
    } else if payloadLength == 127 {
      if buffer.Length < 10 {
        return None;
      }
      var high := FromBig(buffer[2..6]);
      var low := FromBig(buffer[6..10]);
      payloadLength := high * 0x1_0000_0000 + low;
      offset := offset + 8;
    }
    assert LengthField(b) == Some((payloadLength, offset));
    var maskKey := offset;
    if masked {
      if buffer.Length < offset + 4 {
        return None;
      }
      offset := offset + 4;
    }
    if buffer.Length < offset + payloadLength {
      return None;
    }
    r := Some(Frame(fin, opcode, offset, payloadLength));
    assert r == Parse(b);
    if masked && payloadLength > 0 {
      Unmask(buffer, offset, payloadLength, maskKey);
    }
    UnmaskedIs(b, buffer[..], r.value);
  }

  lemma UnmaskedIs(b: seq<byte>, t: seq<byte>, f: Frame)
    requires |b| >= 2 && f.payloadStart + f.payloadLength <= |b| && (IsMasked(b) ==> f.payloadStart >= 6)
    requires |t| == |b|
    requires !IsMasked(b) || f.payloadLength == 0 ==> t == b
    requires IsMasked(b) && f.payloadLength > 0 ==> forall j :: 0 <= j < |b| ==>
      t[j] == Flipped(b, f.payloadStart, f.payloadLength, f.payloadStart - 4, j)
    ensures t == Unmasked(b, f)
  {
    hide IsMasked;
  }

  //
  // The parser against the format.
  //

  lemma {:induction false} FromBigOfBig(n: nat, k: nat)
    requires n < Power256(k)
    ensures FromBig(Big(n, k)) == n
    decreases k
  {
    if k > 0 {
      var b := Big(n, k);
      assert b[..k - 1] == Big(n / 256, k - 1);
      FromBigOfBig(n / 256, k - 1);
    }
  }

  function Power256(k: nat): (r: nat)
    ensures r > 0
  {
    if k == 0 then 1 else 256 * Power256(k - 1)
  }

  lemma {:induction false} BigOfFromBig(b: seq<byte>)
    ensures Big(FromBig(b), |b|) == b && FromBig(b) < Power256(|b|)
    decreases |b|
  {
    if b != [] {
      var n := |b| - 1;
      BigOfFromBig(b[..n]);
      assert FromBig(b) / 256 == FromBig(b[..n]) && FromBig(b) % 256 == b[n];
    }
  }

  lemma Powers()
    ensures Power256(2) == 0x1_0000 && Power256(4) == 0x1_0000_0000 && Power256(8) == 0x1_0000_0000_0000_0000
  {
    assert Power256(1) == 256;
    assert Power256(3) == 0x100_0000;
    assert Power256(5) == 0x100_0000_0000;
    assert Power256(6) == 0x1_0000_0000_0000;
    assert Power256(7) == 0x100_0000_0000_0000;
  }

  /** Reading eight bytes as two 32-bit halves. */
  lemma {:induction false} FromBigSplit(a: seq<byte>, b: seq<byte>)
    ensures FromBig(a + b) == FromBig(a) * Power256(|b|) + FromBig(b)
    decreases |b|
  {
    if b == [] {
      assert a + b == a;
    } else {
      var n := |b| - 1;
      assert (a + b)[..|a| + n] == a + b[..n];
      FromBigSplit(a, b[..n]);
      Shift(FromBig(a), Power256(n));
    }
  }

  lemma Shift(x: nat, p: nat)
    ensures x * p * 256 == x * (256 * p)
  {
  }

  lemma LengthFieldOfHeader(m: Message, b: seq<byte>)
    requires Valid(m) && |b| >= |Header(m)| && b[..|Header(m)|] == Header(m)
    ensures LengthField(b) == Some((|m.payload|, |Header(m)|))
    ensures IsMasked(b) == m.key.Some? && (b[0] / 0x80 == 1) == m.fin && b[0] % 0x10 == m.opcode
  {
    hide FromBig, Big, Power256;
    var h := Header(m);
    assert b[0] == h[0] && b[1] == h[1];
    assert b[1] % 0x80 == LengthCode(m);
    Powers();
    match m.form
    case Short =>
    case Medium =>
      assert b[2..4] == h[2..4] == Big(|m.payload|, 2);
      FromBigOfBig(|m.payload|, 2);
    case Long =>
      var field := Big(|m.payload|, 8);
      assert h[2..10] == field;
      assert b[2..6] == h[2..6] == field[..4];
      assert b[6..10] == h[6..10] == field[4..];
      assert field == field[..4] + field[4..];
      FromBigSplit(field[..4], field[4..]);
      FromBigOfBig(|m.payload|, 8);
  }

  /** Unmasking is the inverse of masking. */
  lemma MaskTwice(payload: seq<byte>, key: Option<seq<byte>>)
    requires key.Some? ==> |key.value| == 4
    ensures Masked(Masked(payload, key), key) == payload
  {
    if key.Some? {
      forall i | 0 <= i < |payload| ensures Masked(Masked(payload, key), key)[i] == payload[i] {
        XorTwice(payload[i], key.value[i % 4]);
      }
    }
  }

  /** Parsing a frame, whatever bytes follow it, returns its metadata, unmasks the payload in place and
      changes nothing else: not the header, not the key, not the bytes of later frames. */
  lemma FrameRoundTrip(m: Message, rest: seq<byte>)
    requires Valid(m)
    ensures var b := Wire(m) + rest; var start := |Header(m)| + |KeyBytes(m)|;
      && Parse(b) == Some(Frame(m.fin, m.opcode, start, |m.payload|))
      && |b| >= start + |m.payload| && (IsMasked(b) ==> start >= 4)
      && Unmasked(b, Parse(b).value) == Header(m) + KeyBytes(m) + m.payload + rest
  {
    hide LengthField, IsMasked, Header;
    var b, h, key, body := Wire(m) + rest, Header(m), KeyBytes(m), Masked(m.payload, m.key);
    var start := |h| + |key|;
    assert |h| >= 2 by { HeaderLength(m); }
    assert b[..|h|] == h;
    LengthFieldOfHeader(m, b);
    assert b[start..start + |body|] == body && b[|h|..start] == key;
    MaskTwice(m.payload, m.key);
    UnmaskedOfWire(b, Parse(b).value, h, m.key, m.payload, rest);
  }

  lemma UnmaskedOfWire(b: seq<byte>, f: Frame, h: seq<byte>, key: Option<seq<byte>>,
                       payload: seq<byte>, rest: seq<byte>)
    requires |h| >= 2 && (key.Some? ==> |key.value| == 4)
    requires var k := if key.Some? then key.value else [];
      b == h + k + Masked(payload, key) + rest && f.payloadStart == |h| + |k|
    requires f.payloadLength == |payload| && IsMasked(b) == key.Some?
    requires Masked(Masked(payload, key), key) == payload
    ensures Unmasked(b, f) == h + (if key.Some? then key.value else []) + payload + rest
  {
    hide IsMasked;
    var body, start := Masked(payload, key), f.payloadStart;
    var k := if key.Some? then key.value else [];
    var r, want := Unmasked(b, f), h + k + payload + rest;
    forall i | 0 <= i < |b| ensures r[i] == want[i] {
      if start <= i < start + |body| {
        assert b[i] == body[i - start];
        assert Masked(body, key)[i - start] == payload[i - start];
        if key.Some? {
          assert b[|h| + (i - start) % 4] == k[(i - start) % 4];
        }
      }
    }
  }

  lemma HeaderLength(m: Message)
    requires Valid(m)
    ensures |Header(m)| >= 2
  {
  }

  lemma XorOfLetter()
    ensures Xor(0x7F, 0x37) == 0x48
  {
    assert XorBits(0x07, 0x03, 4) == 0x04;
    assert XorBits(0x1F, 0x0D, 6) == 0x12;
  }

  /** A masked text frame that carries the letter H. */
  lemma MaskedLetter()
    ensures var b: seq<byte> := [0x81, 0x81, 0x37, 0xFA, 0x21, 0x3D, 0x7F];
      && Parse(b) == Some(Frame(true, 1, 6, 1)) && IsMasked(b)
      && Unmasked(b, Frame(true, 1, 6, 1)) == [0x81, 0x81, 0x37, 0xFA, 0x21, 0x3D, 0x48]
  {
    hide Xor;
    XorOfLetter();
    var b: seq<byte> := [0x81, 0x81, 0x37, 0xFA, 0x21, 0x3D, 0x7F];
    assert Flipped(b, 6, 1, 2, 6) == Xor(0x7F, 0x37);
  }

  /** The message a complete buffer starts with. */
  lemma MessageOf(b: seq<byte>) returns (m: Message, rest: seq<byte>)
    requires Parse(b).Some?
    ensures Valid(m) && b == Wire(m) + rest
  {
    hide Big, FromBig, Power256, LengthField, IsMasked, Header, Masked, LengthBytes, LengthCode;
    var (length, next) := LengthField(b).value;
    var form := FormOf(b);
    var start := Parse(b).value.payloadStart;
    var key := if IsMasked(b) then Some(b[next..start]) else None;
    var body := b[start..start + length];
    m := Message(b[0] / 0x80 == 1, b[0] / 0x10 % 8, b[0] % 0x10, form, key, Masked(body, key));
    rest := b[start + length..];
    MaskTwice(body, key);
    LengthBytesOf(b, m);
    HeaderOf(b, m);
    Parts(b, next, start, start + length);
    assert KeyBytes(m) == b[next..start];
  }

  function FormOf(b: seq<byte>): Form
    requires |b| >= 2
  {
    if b[1] % 0x80 == 126 then Medium else if b[1] % 0x80 == 127 then Long else Short
  }

  lemma HeaderOf(b: seq<byte>, m: Message)
    requires |b| >= 2 && LengthField(b).Some? && Valid(m)
    requires |m.payload| == LengthField(b).value.0 && m.form == FormOf(b)
    requires m.fin == (b[0] / 0x80 == 1) && m.rsv == b[0] / 0x10 % 8 && m.opcode == b[0] % 0x10
    requires m.key.Some? == IsMasked(b)
    ensures LengthField(b).value.1 <= |b| && Header(m) == b[..LengthField(b).value.1]
  {
    hide Big, FromBig, Power256, LengthField, LengthBytes;
    LengthBytesOf(b, m);
    var next := LengthField(b).value.1;
    assert LengthCode(m) == b[1] % 0x80;
    assert b[..next] == [b[0], b[1]] + b[2..next];
  }

  lemma Parts(b: seq<byte>, i: nat, j: nat, k: nat)
    requires i <= j <= k <= |b|
    ensures b == b[..i] + b[i..j] + b[j..k] + b[k..]
  {
  }

  lemma LengthBytesOf(b: seq<byte>, m: Message)
    requires |b| >= 2 && LengthField(b).Some? && |m.payload| == LengthField(b).value.0
    requires m.form == FormOf(b)
    ensures var next := LengthField(b).value.1; 2 <= next <= |b| && LengthBytes(m) == b[2..next]
    ensures match m.form
      case Short => |m.payload| < 126 && b[1] % 0x80 == |m.payload|
      case Medium => |m.payload| < 0x1_0000
      case Long => |m.payload| < 0x1_0000_0000_0000_0000
  {
    hide Big, FromBig, Power256;
    Powers();
    match m.form
    case Short =>
    case Medium => BigOfFromBig(b[2..4]);
    case Long =>
      assert b[2..10] == b[2..6] + b[6..10];
      FromBigSplit(b[2..6], b[6..10]);
      BigOfFromBig(b[2..10]);
  }

  /** `parseFrame` returns null exactly on the buffers that do not start with a complete frame. */
  lemma NullIffIncomplete(b: seq<byte>)
    ensures Parse(b).None? <==> !exists m, rest :: Valid(m) && b == Wire(m) + rest
  {
    hide Parse, Valid, Wire;
    if Parse(b).Some? {
      var m, rest := MessageOf(b);
    } else if exists m, rest :: Valid(m) && b == Wire(m) + rest {
      var m, rest :| Valid(m) && b == Wire(m) + rest;
      FrameRoundTrip(m, rest);
    }
  }
}
