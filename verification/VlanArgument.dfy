/** The kernel's `VLAN=` command-line argument: parsing it and showing it on the boot screen. */
module VlanArgument {
  import opened Words

  const LIMIT := 1024
  const MAX_VLAN := 4095

  predicate IsDigit(c: byte) {
    48 <= c <= 57
  }

  /** The bytes of "VLAN=". */
  const TAG: seq<byte> := [86, 76, 65, 78, 61]

  predicate TagAt(s: seq<byte>, i: nat) {
    i + 5 <= |s| && s[i..i + 5] == TAG
  }

  /** The number of digits from `i` on, at most `k`. */
  function DigitRun(s: seq<byte>, i: nat, k: nat): (n: nat)
    ensures n <= k && (i + n <= |s| || n == 0)
    decreases k
  {
    if k > 0 && i < |s| && IsDigit(s[i]) then 1 + DigitRun(s, i + 1, k - 1) else 0
  }

  function Decimal(ds: seq<byte>): int {
    if ds == [] then 0 else var c: int := ds[|ds| - 1]; Decimal(ds[..|ds| - 1]) * 10 + (c - 48)
  }

  /** A C string in memory: one NUL, at the end. */
  predicate CString(s: seq<byte>) {
    s != [] && s[|s| - 1] == 0 && forall i :: 0 <= i < |s| - 1 ==> s[i] != 0
  }

  function Min(a: int, b: int): int {
    if a <= b then a else b
  }

  /** The first tag among the first 1024 characters, if there is one from `i` on. */
  predicate FirstTag(s: seq<byte>, p: nat) {
    p < LIMIT && TagAt(s, p) && forall i :: 0 <= i < p ==> !TagAt(s, i)
  }

  /** The argument's value: up to five digits after the first tag, clamped. */
  function ValueAt(s: seq<byte>, p: nat): int
    requires p + 5 <= |s|
  {
    var n := DigitRun(s, p + 5, 5);
    Min(Decimal(s[p + 5..p + 5 + n]), MAX_VLAN)
  }

  /** `parse_vlan_arg` for a non-null command line. `cmdline` ends at the terminator, so the bounds Dafny
      checks say that no byte past it is read. */
  method ParseVlanArg(cmdline: array<byte>) returns (vlan: u32)
    requires CString(cmdline[..])
    ensures vlan <= 4095
    ensures forall p :: FirstTag(cmdline[..], p) ==> vlan == ValueAt(cmdline[..], p)
    ensures (forall p :: 0 <= p < LIMIT ==> !TagAt(cmdline[..], p)) ==> vlan == 0
  {
    ghost var s := cmdline[..];
    var i := 0;
    while cmdline[i] != 0 && i < 1024
      invariant 0 <= i < cmdline.Length && i <= LIMIT
      invariant forall p :: 0 <= p < i ==> !TagAt(s, p)
      decreases cmdline.Length - i
    {
      if cmdline[i] == 86 && cmdline[i + 1] == 76 && cmdline[i + 2] == 65 && cmdline[i + 3] == 78
         && cmdline[i + 4] == 61
      {
        assert s[i..i + 5] == TAG;
        assert TagAt(s, i);
        vlan := ParseDigits(cmdline, i + 5);
        assert forall p :: FirstTag(s, p) ==> p == i;
        return;
      }
      if TagAt(s, i) {
        TagChars(s, i);
      }
      i := i + 1;
    }
    TagsEnd(s, i);
    return 0;
  }

  lemma TagChars(s: seq<byte>, i: nat)
    requires TagAt(s, i)
    ensures s[i] == 86 && s[i + 1] == 76 && s[i + 2] == 65 && s[i + 3] == 78 && s[i + 4] == 61
  {
    assert s[i..i + 5][0] == s[i] && s[i..i + 5][1] == s[i + 1] && s[i..i + 5][2] == s[i + 2];
    assert s[i..i + 5][3] == s[i + 3] && s[i..i + 5][4] == s[i + 4];
  }

  /** The scan stopped at the terminator or at the limit: no tag starts there or later. */
  lemma TagsEnd(s: seq<byte>, i: nat)
    requires CString(s) && i < |s| && (s[i] == 0 || i >= LIMIT)
    ensures forall p :: i <= p < LIMIT ==> !TagAt(s, p)
  {
  }

  /** The digit loop and the clamp. */
  method ParseDigits(cmdline: array<byte>, start: nat) returns (vlan: u32)
    requires CString(cmdline[..]) && 5 <= start < cmdline.Length
    ensures vlan <= MAX_VLAN && vlan == ValueAt(cmdline[..], start - 5)
  {
    ghost var s := cmdline[..];
    var j := start;
    var v: int := 0;
    var digits := 0;
    while cmdline[j] >= 48 && cmdline[j] <= 57 && digits < 5
      invariant 0 <= digits <= 5 && j == start + digits < cmdline.Length
      invariant v == Decimal(s[start..j]) && 0 <= v < Power10(digits)
      invariant DigitRun(s, start, 5) == digits + DigitRun(s, j, 5 - digits)
      decreases 5 - digits
    {
      assert s[start..j + 1][..j - start] == s[start..j];
      v := v * 10 + (cmdline[j] - 48);
      j := j + 1;
      digits := digits + 1;
    }
    if v > 4095 { v := 4095; }
    vlan := v;
  }

  /** Five digits stay far below 2^32. */
  function Power10(k: nat): (r: nat)
    ensures r > 0
  {
    if k == 0 then 1 else 10 * Power10(k - 1)
  }

  //
  // vga_print_vlan_status
  //

  /** The decimal digits of a number, most significant first; none for 0. */
  function Digits(v: nat): seq<byte> {
    if v == 0 then [] else Digits(v / 10) + [v % 10 + 48]
  }

  function Shown(v: nat): seq<byte> {
    if v == 0 then [48] else Digits(v)
  }

  lemma {:induction false} DigitCount(v: nat, k: nat)
    ensures |Digits(v)| <= k <==> v < Power10(k)
    decreases k
  {
    if v > 0 && k > 0 {
      DigitCount(v / 10, k - 1);
    }
  }

  /** The buffer of eight digits suffices exactly below 10^8. */
  lemma EightDigits(v: nat)
    ensures |Digits(v)| <= 8 <==> v < 1_0000_0000
  {
    DigitCount(v, 8);
    assert Power10(2) == 100;
    assert Power10(4) == 1_0000;
    assert Power10(6) == 100_0000;
  }

  /** The characters written from column 32 on: the digits are collected in a buffer of eight, last
      one first, and written out backwards. */
  method PrintVlanStatus(vlan: u32) returns (screen: seq<byte>)
    requires vlan < 1_0000_0000
    ensures screen == Shown(vlan)
  {
    if vlan == 0 {
      return [48];
    }
    hide Digits, Reversed;
    var buf := new byte[8];
    var len := Collect(vlan, buf);
    screen := [];
    var i := len - 1;
    while i >= 0
      invariant -1 <= i < len
      invariant screen + Reversed(buf[..i + 1]) == Digits(vlan)
    {
      ReversedLast(buf[..i + 1]);
      assert buf[..i + 1][..i] == buf[..i];
      assert screen + ([buf[i]] + Reversed(buf[..i])) == (screen + [buf[i]]) + Reversed(buf[..i]);
      screen := screen + [buf[i]];
      i := i - 1;
    }
    ReversedNothing(buf[..0]);
    assert screen + [] == screen;
  }

  lemma ReversedLast(s: seq<byte>)
    requires s != []
    ensures Reversed(s) == [s[|s| - 1]] + Reversed(s[..|s| - 1])
  {
  }

  lemma ReversedNothing(s: seq<byte>)
    requires s == []
    ensures Reversed(s) == []
  {
  }

  /** The loop that takes the digits off. */
  method Collect(vlan: nat, buf: array<byte>) returns (len: nat)
    requires 0 < vlan < 1_0000_0000 && buf.Length == 8
    modifies buf
    ensures len <= 8 && Reversed(buf[..len]) == Digits(vlan)
  {
    len := 0;
    var temp := vlan;
    hide Digits, Reversed;
    EightDigits(vlan);
    ReversedNothing(buf[..0]);
    assert Digits(vlan) + [] == Digits(vlan);
    while temp > 0
      invariant |Digits(temp)| + len == |Digits(vlan)| <= 8
      invariant Digits(vlan) == Digits(temp) + Reversed(buf[..len])
    {
      ghost var before := buf[..len];
      DigitTaken(vlan, temp, before);
      buf[len] := temp % 10 + 48;
      len := len + 1;
      assert buf[..len] == before + [temp % 10 + 48];
      temp := temp / 10;
    }
    DigitsOfZero(temp);
    assert [] + Reversed(buf[..len]) == Reversed(buf[..len]);
  }

  lemma DigitsOfZero(v: nat)
    ensures v == 0 <==> Digits(v) == []
  {
  }

  lemma DigitTaken(v: nat, t: nat, before: seq<byte>)
    requires t > 0 && Digits(v) == Digits(t) + Reversed(before)
    ensures |Digits(t)| == |Digits(t / 10)| + 1
    ensures Digits(v) == Digits(t / 10) + Reversed(before + [t % 10 + 48])
  {
    hide Digits, Reversed;
    var digit: byte := t % 10 + 48;
    DigitsStep(t);
    ReversedPush(before, digit);
    assert (Digits(t / 10) + [digit]) + Reversed(before) == Digits(t / 10) + ([digit] + Reversed(before));
  }

  lemma DigitsStep(v: nat)
    requires v > 0
    ensures Digits(v) == Digits(v / 10) + [v % 10 + 48]
  {
  }

  function Reversed(s: seq<byte>): seq<byte> {
    if s == [] then [] else [s[|s| - 1]] + Reversed(s[..|s| - 1])
  }

  lemma ReversedPush(s: seq<byte>, x: byte)
    ensures Reversed(s + [x]) == [x] + Reversed(s)
  {
    assert (s + [x])[..|s|] == s;
  }

  //
  // Parse undoes print.
  //

  lemma {:induction false} DecimalOfDigits(v: nat)
    ensures Decimal(Digits(v)) == v && forall i :: 0 <= i < |Digits(v)| ==> IsDigit(Digits(v)[i])
    decreases v
  {
    if v > 0 {
      DecimalOfDigits(v / 10);
      assert Digits(v)[..|Digits(v)| - 1] == Digits(v / 10);
    }
  }

  lemma DecimalOfShown(v: nat)
    ensures Decimal(Shown(v)) == v && forall i :: 0 <= i < |Shown(v)| ==> IsDigit(Shown(v)[i])
  {
    DecimalOfDigits(v);
    if v == 0 {
      assert [48 as byte][..0] == [];
    }
  }

  lemma {:induction false} DigitRunIs(s: seq<byte>, i: nat, n: nat, k: nat)
    requires i + n < |s| && n <= k && !IsDigit(s[i + n])
    requires forall j :: i <= j < i + n ==> IsDigit(s[j])
    ensures DigitRun(s, i, k) == n
    decreases n
  {
    if n > 0 {
      DigitRunIs(s, i + 1, n - 1, k - 1);
    }
  }

  /** No tag overlaps the start of another. */
  lemma TagIsFirst(prefix: seq<byte>, rest: seq<byte>)
    requires |prefix| < LIMIT && forall i :: 0 <= i < |prefix| ==> !TagAt(prefix, i)
    ensures FirstTag(prefix + TAG + rest, |prefix|)
  {
    var s := prefix + TAG + rest;
    var n := |prefix|;
    assert s[n..n + 5] == TAG;
    assert s[n] == 86;
    forall i | 0 <= i < n ensures !TagAt(s, i) {
      var part := s[i..i + 5];
      if i + 5 <= n {
        assert part == prefix[i..i + 5] && !TagAt(prefix, i);
      } else {
        assert part[n - i] == s[n] && TAG[n - i] != 86;
      }
    }
  }

  /** Whatever precedes and follows them, the digits the kernel shows for a VLAN are parsed back to it. */
  lemma ParseUndoesPrint(prefix: seq<byte>, v: nat, rest: seq<byte>)
    requires v <= MAX_VLAN && |prefix| < LIMIT && forall i :: 0 <= i < |prefix| ==> !TagAt(prefix, i)
    requires rest != [] && !IsDigit(rest[0])
    ensures var s := prefix + TAG + Shown(v) + rest;
      FirstTag(s, |prefix|) && ValueAt(s, |prefix|) == v
  {
    var s := prefix + TAG + Shown(v) + rest;
    var start, n := |prefix| + 5, |Shown(v)|;
    assert s == prefix + TAG + (Shown(v) + rest);
    TagIsFirst(prefix, Shown(v) + rest);
    DecimalOfShown(v);
    ShownLength(v);
    assert s[start..start + n] == Shown(v) && s[start + n] == rest[0];
    forall j | start <= j < start + n ensures IsDigit(s[j]) {
      assert s[j] == Shown(v)[j - start];
    }
    DigitRunIs(s, start, n, 5);
  }

  /** The digits shown have no leading zero, so they are the number's one shortest decimal form. */
  lemma {:induction false} NoLeadingZero(v: nat)
    ensures Shown(v) != [] && (Shown(v)[0] == 48 <==> v == 0)
    decreases v
  {
    if v >= 10 {
      NoLeadingZero(v / 10);
      assert Digits(v)[0] == Digits(v / 10)[0];
    } else if v > 0 {
      assert Digits(v / 10) == [];
    }
  }

  /** What any digits after a tag mean: the first five count, and what they say is cut off at 4095. */
  lemma ParsedIs(prefix: seq<byte>, ds: seq<byte>, rest: seq<byte>)
    requires |prefix| < LIMIT && forall i :: 0 <= i < |prefix| ==> !TagAt(prefix, i)
    requires forall i :: 0 <= i < |ds| ==> 48 <= ds[i] <= 57
    requires rest != [] && !(48 <= rest[0] <= 57)
    ensures var s := prefix + TAG + ds + rest; var read := if |ds| <= 5 then ds else ds[..5];
      FirstTag(s, |prefix|) && ValueAt(s, |prefix|) == if Decimal(read) > 4095 then 4095 else Decimal(read)
  {
    var s := prefix + TAG + ds + rest;
    var start, n := |prefix| + 5, if |ds| <= 5 then |ds| else 5;
    assert s == prefix + TAG + (ds + rest);
    TagIsFirst(prefix, ds + rest);
    assert s[start..start + n] == if |ds| <= 5 then ds else ds[..5];
    forall j | start <= j < start + n ensures IsDigit(s[j]) {
      assert s[j] == ds[j - start];
    }
    if |ds| <= 5 {
      assert s[start + n] == rest[0];
      DigitRunIs(s, start, n, 5);
    } else {
      DigitRunStops(s, start, 5);
    }
  }

  lemma {:induction false} DigitRunStops(s: seq<byte>, i: nat, k: nat)
    requires i + k <= |s| && forall j :: i <= j < i + k ==> IsDigit(s[j])
    ensures DigitRun(s, i, k) == k
    decreases k
  {
    if k > 0 {
      DigitRunStops(s, i + 1, k - 1);
    }
  }

  lemma ShownLength(v: nat)
    requires v <= MAX_VLAN
    ensures |Shown(v)| <= 4
  {
    DigitCount(v, 4) by { assert Power10(4) == 10000 by { assert Power10(2) == 100; } }
  }
}
