/** Which truncated buffers `fromCBOR` accepts. */
module CborTruncation {
  import opened Words
  import opened Wrappers
  import opened CborPlugin
  import opened CborCode
  import opened CborCodec
  import opened CborRoundTrip
  import opened CborValidation
  import Utf

  //
  // Cut values. A missing tag is refused; missing bytes of an integer or a length read as 0.
  //

  /** The word whose `j` leading bytes are those of `w` and whose other bytes are 0. */
  function Leading(w: u32, j: nat): u32 {
    if j == 0 then 0
    else if j == 1 then w / 0x100_0000 * 0x100_0000
    else if j == 2 then w / 0x1_0000 * 0x1_0000
    else if j == 3 then w / 256 * 256
    else w
  }

  /** What is read for `n` when only `j` of the four bytes after the tag are left. */
  function ZeroFilled(n: int, j: nat): int
    requires IsInt32(Num(n))
  {
    if n >= 0 then Leading(n, j) else var w: int := Leading(-n - 1, j); -w - 1
  }

  /** A cut array is accepted when its length reads as 0 or is `undefined`, or when the tag of its last
      element is left. */
  predicate ToleratesCutArray(len: u32, k: int) {
    || (k == 1 && len >= 24)
    || (k == 2 && 0xFFFF < len < 0x100_0000)
    || (len > 0 && k > |Head(0x80, len)| + 5 * (len - 1))
  }

  /** Whether a field is accepted when `k` bytes of its value are left, negative when its key is cut. */
  predicate ToleratesCut(p: Property, obj: Object, k: int)
    requires Serialised(p) && FieldTyped(p, obj) && Encodable(p, obj)
  {
    var v := obj[p.key.name];
    if k >= |ValueBytes(p, obj)| then Violation(p, obj).None?
    else match p.kind
      case Boolean => false
      case Number => k >= 1 && !Outside(ZeroFilled(v.n, k - 1), p.min, p.max)
      case String => k == 1 && 24 <= |Utf.Encode(v.s)| <= 0xFF
      case Array => ToleratesCutArray(|v.elems|, k)
  }

  lemma HoldsCut(full: seq<byte>, n: nat, i: nat, bytes: seq<byte>)
    requires n <= |full| && Holds(full, i, bytes) && i + |bytes| <= n
    ensures Holds(full[..n], i, bytes)
  {
    assert full[..n][i..i + |bytes|] == full[i..i + |bytes|];
  }

  lemma HoldsItself(full: seq<byte>)
    ensures Holds(full, 0, full)
  {
  }

  /** A word with `j` bytes left. */
  lemma CutWord(full: seq<byte>, n: nat, i: nat, w: u32)
    requires Holds(full, i, Big32(w)) && i <= n <= i + 4 && n <= |full|
    ensures Word(full[..n], i) == Leading(w, n - i)
  {
    HoldsAt(full, i, Big32(w), 0);
    HoldsAt(full, i, Big32(w), 1);
    HoldsAt(full, i, Big32(w), 2);
    HoldsAt(full, i, Big32(w), 3);
    Quotients(w);
  }

  lemma Quotients(w: u32)
    ensures w / 256 == w / 0x1_0000 * 256 + w / 256 % 256
    ensures w / 0x1_0000 == w / 0x100_0000 * 256 + w / 0x1_0000 % 256
  {
    Quotient(w / 256);
    Quotient(w / 0x1_0000);
    assert w / 256 / 256 == w / 0x1_0000;
    assert w / 0x1_0000 / 256 == w / 0x100_0000;
  }

  lemma Quotient(x: nat)
    ensures x == x / 256 * 256 + x % 256
  {
  }

  lemma CutInt(full: seq<byte>, n: nat, i: nat, x: int)
    requires IsInt32(Num(x)) && n <= |full| && Holds(full, i, IntBytes(x)) && i < n < i + 5
    ensures ReadInt(full[..n], i) == Some(ZeroFilled(x, n - i - 1))
  {
    hide Big32, Word, Leading;
    HoldsAt(full, i, IntBytes(x), 0);
    var w := if x >= 0 then x else -x - 1;
    assert w % WORD == w;
    HoldsSplit(full, i, [IntBytes(x)[0]], Big32(w));
    CutWord(full, n, i + 1, w);
  }

  /** The tag alone decides whether an integer is accepted. */
  lemma TagOfInt(full: seq<byte>, n: nat, i: nat, x: int)
    requires n <= |full| && Holds(full, i, IntBytes(x))
    ensures ReadInt(full[..n], i).Some? <==> i < n
  {
    hide Big32, Word;
    HoldsAt(full, i, IntBytes(x), 0);
  }

  lemma CutLength(full: seq<byte>, n: nat, i: nat, base: byte, len: u32)
    requires base == 0x60 || base == 0x80
    requires n <= |full| && Holds(full, i, Head(base, len)) && i < n < i + |Head(base, len)|
    ensures var r := ReadLength(full[..n], i, base);
      if 24 <= len <= 0xFF then r == Missing(i + 2)
      else r.Length? && r.next > n
           && (r.n == 0 <==> n == i + 1 || (n == i + 2 && 0xFFFF < len < 0x100_0000))
  {
    hide Word, Big32, Holds, ReadLength;
    var head := Head(base, len);
    HoldsAt(full, i, head, 0);
    if len <= 0xFF {
      CutByte(full, n, i, base);
    } else if len <= 0xFFFF {
      HoldsAt(full, i, head, 1);
      CutHalf(full, n, i, base, len);
    } else {
      HoldsSplit(full, i, [Or(base, 26, 0x20)], Big32(len));
      CutWord(full, n, i + 1, len);
      CutFour(full, n, i, base, len);
    }
  }

  lemma CutByte(full: seq<byte>, n: nat, i: nat, base: byte)
    requires (base == 0x60 || base == 0x80) && n <= |full| && n == i + 1 && full[i] == base + 24
    ensures ReadLength(full[..n], i, base) == Missing(i + 2)
  {
  }

  lemma CutHalf(full: seq<byte>, n: nat, i: nat, base: byte, len: u16)
    requires (base == 0x60 || base == 0x80) && n <= |full| && i < n < i + 3 && len > 0xFF
    requires full[i] == base + 25 && (n == i + 2 ==> full[i + 1] == len / 256)
    ensures ReadLength(full[..n], i, base) == Length(if n == i + 1 then 0 else len / 256 * 256, i + 3)
  {
  }

  lemma CutFour(full: seq<byte>, n: nat, i: nat, base: byte, len: u32)
    requires (base == 0x60 || base == 0x80) && n <= |full| && i < n < i + 5 && len > 0xFFFF
    requires full[i] == base + 26 && Word(full[..n], i + 1) == Leading(len, n - i - 1)
    ensures ReadLength(full[..n], i, base) == Length(Leading(len, n - i - 1), i + 5)
    ensures Leading(len, n - i - 1) == 0 <==> n == i + 1 || (n == i + 2 && len < 0x100_0000)
  {
    hide Word;
  }

  lemma WholeLength(full: seq<byte>, n: nat, i: nat, base: byte, len: u32)
    requires base == 0x60 || base == 0x80
    requires n <= |full| && Holds(full, i, Head(base, len)) && i + |Head(base, len)| <= n
    ensures ReadLength(full[..n], i, base) == Length(len, i + |Head(base, len)|)
  {
    hide ReadLength, Head;
    HoldsCut(full, n, i, Head(base, len));
    ReadLengthOfHead(full[..n], i, base, len);
  }

  lemma NoTag(buf: seq<byte>, i: nat, base: byte)
    requires i >= |buf| && base <= 0x80
    ensures ReadLength(buf, i, base) == BadTag
  {
  }

  /** A text cut short is refused, unless the cut falls between the byte 0x78 and the length after it:
      the length is then `undefined` and the string "". */
  lemma CutText(name: Name, maxLength: Option<nat>, s: seq<u16>, full: seq<byte>, n: nat, st: State)
    requires |Utf.Encode(s)| < WORD && n <= |full| && Holds(full, st.offset, TextBytes(s))
    requires n < st.offset + |TextBytes(s)|
    ensures var r := ExecText(name, maxLength, full[..n], st);
      && (r.Ok? <==> 24 <= |Utf.Encode(s)| <= 0xFF && n == st.offset + 1)
      && (r.Ok? ==> r.value.offset >= n)
  {
    hide Utf.Encode, Utf.ReadUnits, ReadLength;
    var text := Utf.Encode(s);
    HoldsSplit(full, st.offset, Head(0x60, |text|), text);
    if st.offset >= n {
      NoTag(full[..n], st.offset, 0x60);
    } else if n < st.offset + |Head(0x60, |text|)| {
      CutLength(full, n, st.offset, 0x60, |text|);
    } else {
      WholeLength(full, n, st.offset, 0x60, |text|);
    }
  }

  /** Elements are accepted as long as each has its tag. */
  lemma {:induction false} CutElems(full: seq<byte>, n: nat, i: nat, elems: seq<int>)
    requires elems != [] && n <= |full| && Holds(full, i, ElemBytes(elems))
    ensures ReadElems(full[..n], i, |elems|).Some? <==> n > i + 5 * (|elems| - 1)
    decreases |elems|
  {
    hide IntBytes, ReadInt, Holds;
    HoldsSplit(full, i, IntBytes(elems[0]), ElemBytes(elems[1..]));
    TagOfInt(full, n, i, elems[0]);
    if |elems| > 1 {
      CutElems(full, n, i + 5, elems[1..]);
    }
  }

  lemma ElemsPastTheEnd(buf: seq<byte>, i: nat, n: nat)
    requires i >= |buf|
    ensures ReadElems(buf, i, n).Some? <==> n == 0
  {
  }

  lemma CutArray(name: Name, elems: seq<int>, full: seq<byte>, n: nat, st: State)
    requires |elems| < WORD && n <= |full| && Holds(full, st.offset, ArrayBytes(elems))
    requires n < st.offset + |ArrayBytes(elems)|
    ensures var r := ExecArray(name, full[..n], st);
      && (r.Ok? <==> ToleratesCutArray(|elems|, n - st.offset))
      && (r.Ok? ==> r.value.offset >= n)
  {
    hide ReadLength, ElemBytes, ReadElems, Head;
    var len := |elems|;
    HeadLength(len);
    HoldsSplit(full, st.offset, Head(0x80, len), ElemBytes(elems));
    if st.offset >= n {
      NoTag(full[..n], st.offset, 0x80);
    } else if n < st.offset + |Head(0x80, len)| {
      CutLength(full, n, st.offset, 0x80, len);
      match ReadLength(full[..n], st.offset, 0x80) {
        case Length(m, next) => ElemsPastTheEnd(full[..n], next, m);
        case _ =>
      }
    } else {
      WholeLength(full, n, st.offset, 0x80, len);
      CutElems(full, n, st.offset + |Head(0x80, len)|, elems);
    }
  }

  lemma HeadLength(len: u32)
    ensures |Head(0x80, len)| == if len < 24 then 1 else if len <= 0xFF then 2 else if len <= 0xFFFF then 3 else 5
  {
  }

  //
  // Cut fields.
  //

  /** A field that is there up to `n`: exactly when it is accepted, and that `_offset` then leaves the
      buffer if the field was cut. A cut number has the value of its leading bytes. */
  lemma CutField(p: Property, obj: Object, full: seq<byte>, n: nat, st: State)
    requires Serialised(p) && FieldTyped(p, obj) && Encodable(p, obj)
    requires st.offset <= n <= |full| && Holds(full, st.offset, FieldBytes(p, obj))
    ensures var r := DecodeField(p, full[..n], st); var k := n - st.offset - |KeyBytes(p.key.name)|;
      && (r.Ok? <==> ToleratesCut(p, obj, k))
      && (r.Ok? && k < |ValueBytes(p, obj)| ==> r.value.offset >= n)
      && (r.Ok? && p.kind == Number && k < 5 ==>
            r.value.obj == st.obj[p.key.name := Num(ZeroFilled(obj[p.key.name].n, k - 1))])
  {
    hide Holds, ExecText, ExecArray, TextBytes, ArrayBytes, ReadInt, IntBytes, ZeroFilled, Violation, Utf.Encode;
    hide ToleratesCutArray;
    var name := p.key.name;
    var at := State(st.obj, st.offset + |KeyBytes(name)|);
    HoldsSplit(full, st.offset, KeyBytes(name), ValueBytes(p, obj));
    if n >= at.offset + |ValueBytes(p, obj)| {
      HoldsCut(full, n, st.offset, FieldBytes(p, obj));
      FieldRoundTrip(p, obj, full[..n], st);
    } else {
      match p.kind
      case Boolean =>
      case Number =>
        if n <= at.offset {
          TagOfInt(full, n, at.offset, obj[name].n);
        } else {
          CutInt(full, n, at.offset, obj[name].n);
        }
      case String => CutText(name, p.maxLength, obj[name].s, full, n, at);
      case Array => CutArray(name, obj[name].elems, full, n, at);
    }
  }

  lemma UnserialisedSkips(p: Property, obj: Object, buf: seq<byte>, st: State)
    requires !Serialised(p) && FieldTyped(p, obj)
    ensures DecodeField(p, buf, st) == Ok(State(st.obj, st.offset + |FieldBytes(p, obj)|))
  {
  }

  lemma UnserialisedKeeps(p: Property, buf: seq<byte>, st: State)
    requires !Serialised(p)
    ensures DecodeField(p, buf, st).Ok? && DecodeField(p, buf, st).value.obj == st.obj
  {
  }

  lemma {:induction false} AllUnserialisedSkip(ps: seq<Property>, buf: seq<byte>, st: State)
    requires forall p :: p in ps ==> !Serialised(p)
    ensures DecodeFields(ps, buf, st).Ok? && DecodeFields(ps, buf, st).value.obj == st.obj
    decreases |ps|
  {
    hide DecodeField;
    if ps != [] {
      assert ps[0] in ps;
      UnserialisedKeeps(ps[0], buf, st);
      AllUnserialisedSkip(ps[1..], buf, DecodeField(ps[0], buf, st).value);
    }
  }

  /** Fields of which some are cut off: an error, or `_offset` at or past the end. */
  lemma {:induction false} CutFields(ps: seq<Property>, obj: Object, full: seq<byte>, n: nat, st: State)
    requires Typed(ps, obj) && Unencodable(ps, obj).None?
    requires st.offset <= n <= |full| && Holds(full, st.offset, FieldsBytes(ps, obj))
    requires n < st.offset + |FieldsBytes(ps, obj)|
    ensures var r := DecodeFields(ps, full[..n], st); r.Err? || r.value.offset >= n
    decreases |ps|
  {
    hide DecodeField, FieldBytes, Holds, Violation, Assigned, ToleratesCut;
    if ps != [] {
      var p := ps[0];
      assert FieldTyped(p, obj);
      HoldsSplit(full, st.offset, FieldBytes(p, obj), FieldsBytes(ps[1..], obj));
      var r := DecodeField(p, full[..n], st);
      if st.offset + |FieldBytes(p, obj)| <= n {
        HoldsCut(full, n, st.offset, FieldBytes(p, obj));
        FieldRoundTrip(p, obj, full[..n], st);
        if r.Ok? {
          CutFields(ps[1..], obj, full, n, r.value);
        }
      } else {
        if Serialised(p) {
          CutField(p, obj, full, n, st);
          FieldParts(p, obj);
        } else {
          UnserialisedSkips(p, obj, full[..n], st);
        }
        if r.Ok? {
          PastTheEnd(ps[1..], full[..n], r.value);
        }
      }
    }
  }

  lemma FieldParts(p: Property, obj: Object)
    requires p.key.Literal? && FieldTyped(p, obj)
    ensures |FieldBytes(p, obj)| == |KeyBytes(p.key.name)| + |ValueBytes(p, obj)|
  {
  }

  lemma {:induction false} BytesSplit(ps: seq<Property>, qs: seq<Property>, obj: Object)
    requires Typed(ps + qs, obj)
    ensures Typed(ps, obj) && Typed(qs, obj)
    ensures FieldsBytes(ps + qs, obj) == FieldsBytes(ps, obj) + FieldsBytes(qs, obj)
    ensures Unencodable(ps + qs, obj) == FirstOf(Unencodable(ps, obj), Unencodable(qs, obj))
    decreases |ps|
  {
    hide FieldBytes;
    assert forall q :: q in ps || q in qs ==> q in ps + qs;
    if ps == [] {
      assert ps + qs == qs;
    } else {
      assert (ps + qs)[1..] == ps[1..] + qs;
      BytesSplit(ps[1..], qs, obj);
    }
  }

  //
  // Truncated buffers.
  //

  /** The last serialised property. */
  function LastSerialised(ps: seq<Property>): (r: Option<nat>)
    ensures r.None? ==> forall p :: p in ps ==> !Serialised(p)
    ensures r.Some? ==> r.value < |ps| && Serialised(ps[r.value])
    ensures r.Some? ==> forall j :: r.value < j < |ps| ==> !Serialised(ps[j])
  {
    if ps == [] then None
    else
      var n := |ps| - 1;
      assert ps == ps[..n] + [ps[n]];
      if Serialised(ps[n]) then Some(n) else LastSerialised(ps[..n])
  }

  /** Where the value of property `j` starts in an encoding. */
  ghost function ValueStart(ps: Properties, obj: Object, j: nat): nat
    requires Typed(ps, obj) && j < |ps| && ps[j].key.Literal?
  {
    |Head(0xA0, |ps|)| + |FieldsBytes(ps[..j], obj)| + |KeyBytes(ps[j].key.name)|
  }

  lemma EncodableAt(ps: seq<Property>, obj: Object, j: nat)
    requires Typed(ps, obj) && Unencodable(ps, obj).None? && j < |ps|
    ensures FieldTyped(ps[j], obj) && Encodable(ps[j], obj)
    decreases j
  {
    assert FieldTyped(ps[0], obj);
    if j > 0 {
      EncodableAt(ps[1..], obj, j - 1);
    }
  }

  /** The first `n` bytes of an encoding are accepted exactly when the fields before the last serialised one
      break no bound and that one tolerates the cut. Keys after it are skipped without being looked at. */
  ghost predicate ToleratesTruncation(ps: Properties, obj: Object, n: nat)
    requires Typed(ps, obj) && Unencodable(ps, obj).None?
  {
    match LastSerialised(ps)
    case None => true
    case Some(j) =>
      EncodableAt(ps, obj, j);
      FirstViolation(ps[..j], obj).None? && ToleratesCut(ps[j], obj, n - ValueStart(ps, obj, j))
  }

  /** Truncation, exactly: for every class, every object `toCBOR` accepts and every prefix. */
  lemma TruncatedBufferIsAcceptedIff(ps: Properties, obj: Object, n: nat)
    requires Typed(ps, obj) && Unencodable(ps, obj).None? && n <= |Encoding(ps, obj)|
    ensures Decode(ps, Encoding(ps, obj)[..n]).Ok? <==> ToleratesTruncation(ps, obj, n)
  {
    hide DecodeFields, FieldsBytes, Head, Typed, Unencodable, FirstViolation, ToleratesCut;
    var full := Encoding(ps, obj);
    match LastSerialised(ps)
    case None => AllUnserialisedSkip(ps, full[..n], Start(ps));
    case Some(j) =>
      var p, rest := ps[j], ps[j + 1..];
      assert ps == ps[..j] + ([p] + rest);
      EncodableAt(ps, obj, j);
      BytesSplit(ps[..j], [p] + rest, obj);
      BytesSplit([p], rest, obj);
      SingleBytes(p, obj);
      DecodeSplit(ps[..j], [p] + rest, full[..n], Start(ps));
      CutAtLast(ps, obj, j, rest, n);
  }

  lemma SingleBytes(p: Property, obj: Object)
    requires Typed([p], obj)
    ensures FieldTyped(p, obj) && FieldsBytes([p], obj) == FieldBytes(p, obj)
  {
    hide FieldBytes;
    assert p in [p] && [p][1..] == [];
  }

  lemma CutAtLast(ps: Properties, obj: Object, j: nat, rest: seq<Property>, n: nat)
    requires Typed(ps, obj) && Unencodable(ps, obj).None? && n <= |Encoding(ps, obj)|
    requires LastSerialised(ps) == Some(j) && rest == ps[j + 1..]
    requires Typed(ps[..j], obj) && Unencodable(ps[..j], obj).None? && Typed(rest, obj)
    requires FieldTyped(ps[j], obj) && Encodable(ps[j], obj)
    requires FieldsBytes(ps, obj) == FieldsBytes(ps[..j], obj) + (FieldBytes(ps[j], obj) + FieldsBytes(rest, obj))
    ensures var b := Encoding(ps, obj)[..n]; var before := DecodeFields(ps[..j], b, Start(ps));
      (before.Ok? && DecodeFields([ps[j]] + rest, b, before.value).Ok?) <==> ToleratesTruncation(ps, obj, n)
  {
    hide FieldsBytes, Head, Typed, Unencodable, FirstViolation, Violation, Holds, DecodeField, FieldBytes, KeyBytes;
    hide ToleratesCut, LastSerialised, AllAssigned, DecodeFields, Encodable;
    var full, p, fields := Encoding(ps, obj), ps[j], FieldsBytes(ps[..j], obj);
    var b, st := full[..n], Start(ps);
    HoldsItself(full);
    HoldsSplit(full, 0, Head(0xA0, |ps|), FieldsBytes(ps, obj));
    HoldsSplit(full, st.offset, fields, FieldBytes(p, obj) + FieldsBytes(rest, obj));
    HoldsSplit(full, st.offset + |fields|, FieldBytes(p, obj), FieldsBytes(rest, obj));
    assert forall q :: q in rest ==> !Serialised(q);
    var before := DecodeFields(ps[..j], b, st);
    if n < st.offset + |fields| {
      NegativeCut(p, obj, n - ValueStart(ps, obj, j));
      if n < st.offset {
        PastTheEnd(ps[..j], b, st);
      } else {
        CutFields(ps[..j], obj, full, n, st);
      }
      if before.Ok? {
        assert p in [p] + rest;
        PastTheEnd([p] + rest, b, before.value);
      }
    } else {
      HoldsCut(full, n, st.offset, fields);
      FieldsRoundTrip(ps[..j], obj, b, st);
      if before.Ok? {
        CutField(p, obj, full, n, before.value);
        DecodeSplit([p], rest, b, before.value);
        DecodeSingle(p, b, before.value);
        var r := DecodeField(p, b, before.value);
        if r.Ok? {
          AllUnserialisedSkip(rest, b, r.value);
        }
      }
    }
  }

  lemma NegativeCut(p: Property, obj: Object, k: int)
    requires Serialised(p) && FieldTyped(p, obj) && Encodable(p, obj) && k < 0
    ensures !ToleratesCut(p, obj, k)
  {
    hide Head, Utf.Encode, ElemBytes, IntBytes;
    HeadLength(if obj[p.key.name].Arr? then |obj[p.key.name].elems| else 0);
  }

  /** `{a: number}` with 0x12345678, cut after the tag: it is read as 0. */
  lemma CutNumberReadsZero()
    ensures var p := Property(Literal([97]), Number, None, None, None);
      var obj: Object := map[[97] := Num(0x1234_5678)]; var cut: seq<byte> := [0xA1, 0x61, 97, 0x1A];
      && Typed([p], obj) && cut == Encoding([p], obj)[..4]
      && Decode([p], cut).Ok? && Decode([p], cut).value.obj == map[[97] := Num(0)]
  {
    var p := Property(Literal([97]), Number, None, None, None);
    var obj: Object := map[[97] := Num(0x1234_5678)];
    var cut: seq<byte> := [0xA1, 0x61, 97, 0x1A];
    assert FieldTyped(p, obj) && Typed([p], obj);
    SingleBytes(p, obj);
    assert Head(0xA0, 1) == [0xA1] && KeyBytes([97]) == [0x61, 97] && IntBytes(0x1234_5678)[0] == 0x1A;
    hide Head, KeyBytes, IntBytes;
    assert FieldBytes(p, obj) == [0x61, 97] + IntBytes(0x1234_5678);
    hide FieldBytes, FieldsBytes;
    assert Encoding([p], obj)[..4] == cut;
    ReadCut(p, cut);
  }

  lemma ReadCut(p: Property, cut: seq<byte>)
    requires p == Property(Literal([97]), Number, None, None, None) && cut == [0xA1, 0x61, 97, 0x1A]
    ensures Decode([p], cut).Ok? && Decode([p], cut).value.obj == map[[97] := Num(0)]
  {
    assert Start([p]) == State(map[], 1);
    assert WordAt(cut, 4) == 0;
    hide DecodeField, DecodeFields, WordAt, Head;
    ScalarOutcome(p, cut, Start([p]));
    DecodeSingle(p, cut, Start([p]));
  }
}
