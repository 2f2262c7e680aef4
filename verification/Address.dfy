/** Dotted-quad addresses: the parser and the printer of src/host_info.c. */
module Address {
  import opened Bytes
  import opened Bits
  import opened CStrings

  const DOT: byte := 0x2e
  const ZERO: byte := 0x30

  // ----- specification of the parser

  /** A `char` is signed on the modelled host. */
  function CharValue(c: byte): int {
    if c < 0x80 then c else c - 0x100
  }

  /** The `octet` accumulated over the characters of one field. */
  function OctetValue(t: seq<byte>): int {
    if t == [] then 0 else 10 * OctetValue(t[..|t| - 1]) + (CharValue(t[|t| - 1]) - ZERO)
  }

  /** Where the first field of `s` ends: at a dot, or at the end of the string. */
  function FieldEnd(s: seq<byte>): (j: nat)
    ensures j <= |s|
    ensures forall i :: 0 <= i < j ==> s[i] != DOT
    ensures j < |s| ==> s[j] == DOT
  {
    if s == [] || s[0] == DOT then 0 else 1 + FieldEnd(s[1..])
  }

  /** `(val << 8) | octet` in 32 bits; an `int` octet is converted modulo 2^32. */
  function PushOctet(val: uint32, octet: int): uint32 {
    Or32(val * 0x100 % 0x1_0000_0000, octet % 0x1_0000_0000)
  }

  /** The value after `k` more rounds of the outer loop. */
  function ParseFields(s: seq<byte>, k: nat, val: uint32): uint32
    decreases k
  {
    if k == 0 then val
    else
      var j := FieldEnd(s);
      ParseFields(if j < |s| then s[j + 1..] else [], k - 1, PushOctet(val, OctetValue(s[..j])))
  }

  /** What `parse_ip_addr` returns for any string at all. */
  function Parse(s: seq<byte>): uint32 {
    ParseFields(s, 4, 0)
  }

  lemma {:induction false} FieldEndIs(s: seq<byte>, j: nat)
    requires j <= |s| && (forall i :: 0 <= i < j ==> s[i] != DOT) && (j < |s| ==> s[j] == DOT)
    ensures FieldEnd(s) == j
  {
    if j > 0 {
      FieldEndIs(s[1..], j - 1);
    }
  }

  lemma OctetOfNothing(t: seq<byte>)
    requires |t| == 0
    ensures OctetValue(t) == 0
  {
  }

  lemma OctetValueOfNext(t: seq<byte>, c: byte)
    ensures OctetValue(t + [c]) == 10 * OctetValue(t) + (CharValue(c) - ZERO)
  {
    assert (t + [c])[..|t|] == t;
  }

  /** One round of the outer loop. */
  lemma ParseRound(s: seq<byte>, k: nat, val: uint32, j: nat)
    requires j <= |s| && (forall i :: 0 <= i < j ==> s[i] != DOT) && (j < |s| ==> s[j] == DOT)
    ensures ParseFields(s, k + 1, val)
         == ParseFields(if j < |s| then s[j + 1..] else [], k, PushOctet(val, OctetValue(s[..j])))
  {
    hide PushOctet, OctetValue;
    FieldEndIs(s, j);
  }

  /** The same in the middle of a string. */
  lemma ParseRoundAt(s: seq<byte>, from: nat, end: nat, k: nat, val: uint32)
    requires from <= end <= |s| && (forall i :: from <= i < end ==> s[i] != DOT) && (end < |s| ==> s[end] == DOT)
    ensures ParseFields(s[from..], k + 1, val)
         == ParseFields(s[if end < |s| then end + 1 else end..], k, PushOctet(val, OctetValue(s[from..end])))
  {
    hide PushOctet, OctetValue, ParseFields;
    ParseRound(s[from..], k, val, end - from);
    assert s[from..][..end - from] == s[from..end];
    if end < |s| {
      assert s[from..][end - from + 1..] == s[end + 1..];
    } else {
      assert s[end..] == [];
    }
  }

  method ParseIpAddr(ip: cstring) returns (val: uint32)
    ensures val == Parse(ip)
  {
    hide PushOctet, ParseFields, OctetValue, FieldEnd;
    val := 0;
    var octet, start := 0, 0;
    for i := 0 to 4
      invariant 0 <= start <= |ip| && octet == 0
      invariant ParseFields(ip[start..], 4 - i, val) == ParseFields(ip, 4, 0)
    {
      ghost var from := start;
      OctetOfNothing(ip[from..start]);
      while start < |ip| && ip[start] != DOT
        invariant from <= start <= |ip|
        invariant octet == OctetValue(ip[from..start])
        invariant forall k :: from <= k < start ==> ip[k] != DOT
      {
        OctetValueOfNext(ip[from..start], ip[start]);
        assert ip[from..start + 1] == ip[from..start] + [ip[start]];
        octet := octet * 10 + (CharValue(ip[start]) - ZERO);
        start := start + 1;
      }
      ParseRoundAt(ip, from, start, 3 - i, val);
      if start < |ip| {
        start := start + 1;
      }
      val := PushOctet(val, octet);
      octet := 0;
    }
    ParseNothing(ip[start..], val);
  }

  // ----- specification of the printer

  /** The text of `%d` for a non-negative number. */
  function Decimal(n: nat): (t: cstring)
    ensures |t| >= 1
  {
    if n < 10 then [ZERO + n] else Decimal(n / 10) + [ZERO + n % 10]
  }

  function Dotted(a: seq<byte>, b: seq<byte>, c: seq<byte>, d: seq<byte>): seq<byte> {
    a + [DOT] + b + [DOT] + c + [DOT] + d
  }

  /** The text `parse_ip_addr_to_str` writes. */
  function Print(x: uint32): cstring {
    Dotted(Decimal(x / 0x100_0000), Decimal(x / 0x1_0000 % 0x100), Decimal(x / 0x100 % 0x100), Decimal(x % 0x100))
  }

  method ParseIpAddrToStr(strIpAddr: array<byte>, ipAddr: uint32)
    requires |Print(ipAddr)| + 1 <= strIpAddr.Length
    modifies strIpAddr
    ensures strIpAddr[..] == Print(ipAddr) + [0] + old(strIpAddr[|Print(ipAddr)| + 1..])
    ensures CStr(strIpAddr[..]) == Print(ipAddr)
  {
    hide Print;
    CopyInto(strIpAddr, 0, Print(ipAddr) + [0]);
    assert strIpAddr[..] == Print(ipAddr) + [0] + old(strIpAddr[|Print(ipAddr)| + 1..]);
    StrLenIs(strIpAddr[..], |Print(ipAddr)|);
  }

  // ----- canonical texts

  predicate IsDigit(c: byte) {
    ZERO <= c <= ZERO + 9
  }

  /** A number from 0 to 255 without superfluous zeros. */
  predicate IsOctetText(t: seq<byte>) {
    && 1 <= |t| <= 3
    && (forall i :: 0 <= i < |t| ==> IsDigit(t[i]))
    && (|t| > 1 ==> t[0] != ZERO)
    && OctetValue(t) <= 0xff
  }

  ghost predicate Canonical(s: seq<byte>) {
    exists a, b, c, d ::
      IsOctetText(a) && IsOctetText(b) && IsOctetText(c) && IsOctetText(d) && s == Dotted(a, b, c, d)
  }

  lemma OctetValueOfTwo(t: seq<byte>)
    requires |t| == 2 && IsDigit(t[0]) && IsDigit(t[1])
    ensures OctetValue(t) == 10 * (t[0] - ZERO) + (t[1] - ZERO)
  {
    assert t[..1] == [t[0]];
    assert OctetValue(t[..1]) == 10 * OctetValue([]) + (t[0] - ZERO);
  }

  /** The printer writes only octet texts, and the accumulation loop reads them back. */
  lemma DecimalIsOctetText(n: byte)
    ensures IsOctetText(Decimal(n)) && OctetValue(Decimal(n)) == n
  {
    if n < 10 {
      assert Decimal(n)[..0] == [];
    } else if n < 100 {
      assert Decimal(n) == [ZERO + n / 10, ZERO + n % 10];
      OctetValueOfTwo(Decimal(n));
    } else {
      assert n / 10 / 10 == n / 100;
      assert Decimal(n / 10) == [ZERO + n / 100, ZERO + n / 10 % 10];
      OctetValueOfTwo(Decimal(n / 10));
      assert Decimal(n)[..2] == Decimal(n / 10);
    }
  }

  /** Every octet text is what the printer writes for its value. */
  lemma OctetTextIsDecimal(t: seq<byte>)
    requires IsOctetText(t)
    ensures 0 <= OctetValue(t) && t == Decimal(OctetValue(t))
  {
    if |t| == 1 {
      assert t[..0] == [];
    } else if |t| == 2 {
      TwoDigits(t);
    } else {
      TwoDigits(t[..2]);
      var h := OctetValue(t[..2]);
      hide Decimal;
      DecimalEndsIn(h, t[2]);
      assert t == t[..2] + [t[2]];
    }
  }

  lemma TwoDigits(t: seq<byte>)
    requires |t| == 2 && IsDigit(t[0]) && IsDigit(t[1]) && t[0] != ZERO
    ensures 10 <= OctetValue(t) <= 99 && t == Decimal(OctetValue(t))
  {
    OctetValueOfTwo(t);
    hide OctetValue;
    DecimalEndsIn(t[0] - ZERO, t[1]);
  }

  lemma DecimalEndsIn(h: nat, c: byte)
    requires h > 0 && IsDigit(c)
    ensures Decimal(10 * h + (c - ZERO)) == Decimal(h) + [c]
  {
    assert (10 * h + (c - ZERO)) / 10 == h;
  }

  lemma PushByte(val: uint32, octet: byte)
    requires val < 0x100_0000
    ensures PushOctet(val, octet) == 0x100 * val + octet
  {
    hide Or;
    Pow2Values();
    OrDisjoint(8, val, octet);
    assert val * 0x100 % 0x1_0000_0000 == 0x100 * val;
    assert (octet as int) % 0x1_0000_0000 == octet;
  }

  lemma ParseFirstField(a: seq<byte>, rest: seq<byte>, k: nat, val: uint32)
    requires IsOctetText(a) && 0 <= OctetValue(a) && val < 0x100_0000
    ensures ParseFields(a + [DOT] + rest, k + 1, val) == ParseFields(rest, k, 0x100 * val + OctetValue(a))
    ensures ParseFields(a, k + 1, val) == ParseFields([], k, 0x100 * val + OctetValue(a))
  {
    hide PushOctet, OctetValue, ParseFields;
    var s := a + [DOT] + rest;
    assert forall c :: c in a ==> IsDigit(c);
    assert s[..|a|] == a && s[|a| + 1..] == rest && a[..|a|] == a;
    ParseRound(s, k, val, |a|);
    ParseRound(a, k, val, |a|);
    PushByte(val, OctetValue(a));
  }

  lemma ParseOfDotted(a: seq<byte>, b: seq<byte>, c: seq<byte>, d: seq<byte>)
    requires IsOctetText(a) && IsOctetText(b) && IsOctetText(c) && IsOctetText(d)
    ensures 0 <= OctetValue(a) && 0 <= OctetValue(b) && 0 <= OctetValue(c) && 0 <= OctetValue(d)
    ensures Parse(Dotted(a, b, c, d)) == Join32(OctetValue(d), OctetValue(c), OctetValue(b), OctetValue(a))
  {
    hide OctetValue, Decimal, ParseFields, Join32, IsOctetText;
    OctetRange(a);
    OctetRange(b);
    OctetRange(c);
    OctetRange(d);
    var v1 := OctetValue(a);
    var v2 := 0x100 * v1 + OctetValue(b);
    var v3 := 0x100 * v2 + OctetValue(c);
    assert Dotted(a, b, c, d) == a + [DOT] + (b + [DOT] + (c + [DOT] + d));
    ParseFirstField(a, b + [DOT] + (c + [DOT] + d), 3, 0);
    ParseFirstField(b, c + [DOT] + d, 2, v1);
    ParseFirstField(c, d, 1, v2);
    ParseFirstField(d, [], 0, v3);
    ParseNothing([], 0x100 * v3 + OctetValue(d));
    JoinByPushing(OctetValue(a), OctetValue(b), OctetValue(c), OctetValue(d));
  }

  lemma OctetRange(t: seq<byte>)
    requires IsOctetText(t)
    ensures 0 <= OctetValue(t) <= 0xff
  {
    OctetTextIsDecimal(t);
  }

  lemma ParseNothing(s: seq<byte>, val: uint32)
    ensures ParseFields(s, 0, val) == val
  {
  }

  lemma JoinByPushing(a: byte, b: byte, c: byte, d: byte)
    ensures 0x100 * (0x100 * (0x100 * (a as int) + b) + c) + d == Join32(d, c, b, a)
  {
  }

  // ----- the laws

  /** The printed text is canonical and fits the 16-byte buffers of the callers. */
  lemma PrintIsCanonical(x: uint32)
    ensures Canonical(Print(x))
    ensures |Print(x)| + 1 <= 16
  {
    DecimalIsOctetText(x / 0x100_0000);
    DecimalIsOctetText(x / 0x1_0000 % 0x100);
    DecimalIsOctetText(x / 0x100 % 0x100);
    DecimalIsOctetText(x % 0x100);
  }

  /** Parsing undoes printing, for every 32-bit address. */
  lemma ParseOfPrint(x: uint32)
    ensures Parse(Print(x)) == x
  {
    hide IsOctetText, OctetValue, Decimal, Parse, Join32;
    DecimalIsOctetText(x / 0x100_0000);
    DecimalIsOctetText(x / 0x1_0000 % 0x100);
    DecimalIsOctetText(x / 0x100 % 0x100);
    DecimalIsOctetText(x % 0x100);
    ParseOfDotted(Decimal(x / 0x100_0000), Decimal(x / 0x1_0000 % 0x100),
                  Decimal(x / 0x100 % 0x100), Decimal(x % 0x100));
    Digits32Join(x);
  }

  /** Printing undoes parsing on exactly the canonical texts. */
  lemma PrintOfParse(s: seq<byte>)
    ensures Print(Parse(s)) == s <==> Canonical(s)
  {
    PrintIsCanonical(Parse(s));
    if Canonical(s) {
      var a, b, c, d :|
        IsOctetText(a) && IsOctetText(b) && IsOctetText(c) && IsOctetText(d) && s == Dotted(a, b, c, d);
      PrintOfParseDotted(a, b, c, d);
    }
  }

  lemma PrintOfParseDotted(a: seq<byte>, b: seq<byte>, c: seq<byte>, d: seq<byte>)
    requires IsOctetText(a) && IsOctetText(b) && IsOctetText(c) && IsOctetText(d)
    ensures Print(Parse(Dotted(a, b, c, d))) == Dotted(a, b, c, d)
  {
    ParseOfDotted(a, b, c, d);
    OctetTextIsDecimal(a);
    OctetTextIsDecimal(b);
    OctetTextIsDecimal(c);
    OctetTextIsDecimal(d);
    hide OctetValue, Decimal, Parse, Join32, Dotted;
    Digits32(Parse(Dotted(a, b, c, d)), OctetValue(d), OctetValue(c), OctetValue(b), OctetValue(a));
  }

  /** The text in figures: the four octets, highest first, each without superfluous zeros, with full
      stops between them. */
  lemma PrintInFigures(a: byte, b: byte, c: byte, d: byte)
    ensures Print(0x100_0000 * (a as int) + 0x1_0000 * (b as int) + 0x100 * (c as int) + d)
         == Figures(a) + [0x2e] + Figures(b) + [0x2e] + Figures(c) + [0x2e] + Figures(d)
  {
    hide Decimal, Figures;
    Digits32(Join32(d, c, b, a), d, c, b, a);
    DecimalIsFigures(a);
    DecimalIsFigures(b);
    DecimalIsFigures(c);
    DecimalIsFigures(d);
  }

  /** The one to three figures of an octet. */
  function Figures(n: byte): seq<byte> {
    (if n >= 100 then [0x30 + n / 100] else []) + (if n >= 10 then [0x30 + n / 10 % 10] else []) + [0x30 + n % 10]
  }

  lemma DecimalIsFigures(n: byte)
    ensures Decimal(n) == Figures(n)
  {
    if n >= 100 {
      assert n / 10 / 10 == n / 100;
      assert Decimal(n / 10) == [ZERO + n / 100] + [ZERO + n / 10 % 10];
    }
  }

  // ----- texts that are not canonical

  /** A full stop at the end of any text makes no difference: a missing field counts as an empty one. */
  lemma FinalStopIsIgnored(s: seq<byte>)
    ensures Parse(s + [0x2e]) == Parse(s)
  {
    FinalStopInFields(s, 4, 0);
  }

  lemma {:induction false} FinalStopInFields(s: seq<byte>, k: nat, val: uint32)
    ensures ParseFields(s + [0x2e], k, val) == ParseFields(s, k, val)
    decreases k
  {
    hide PushOctet, OctetValue, ParseFields;
    var j := FieldEnd(s);
    var t := s + [0x2e];
    if k == 0 {
      ParseNothing(s, val);
      ParseNothing(t, val);
    } else {
      ParseRound(s, k - 1, val, j);
      ParseRound(t, k - 1, val, j);
      assert t[..j] == s[..j];
      if j < |s| {
        assert t[j + 1..] == s[j + 1..] + [0x2e];
        FinalStopInFields(s[j + 1..], k - 1, PushOctet(val, OctetValue(s[..j])));
      } else {
        assert t[j + 1..] == [];
      }
    }
  }

  /** Only the first four fields count, whatever they hold. */
  lemma RestIsIgnored(a: seq<byte>, b: seq<byte>, c: seq<byte>, d: seq<byte>, rest: seq<byte>)
    requires 0x2e !in a && 0x2e !in b && 0x2e !in c && 0x2e !in d
    ensures Parse(a + [0x2e] + b + [0x2e] + c + [0x2e] + d + [0x2e] + rest)
         == Parse(a + [0x2e] + b + [0x2e] + c + [0x2e] + d)
  {
    hide ParseFields, PushOctet, OctetValue;
    var tail := [0x2e] + rest;
    assert a + [0x2e] + b + [0x2e] + c + [0x2e] + d + [0x2e] + rest
        == a + [0x2e] + (b + [0x2e] + (c + [0x2e] + (d + [0x2e] + rest)));
    assert a + [0x2e] + b + [0x2e] + c + [0x2e] + d == a + [0x2e] + (b + [0x2e] + (c + [0x2e] + d));
    var v1 := PushOctet(0, OctetValue(a));
    var v2 := PushOctet(v1, OctetValue(b));
    var v3 := PushOctet(v2, OctetValue(c));
    var v4 := PushOctet(v3, OctetValue(d));
    FieldParsed(a, b + [0x2e] + (c + [0x2e] + (d + [0x2e] + rest)), 3, 0);
    FieldParsed(b, c + [0x2e] + (d + [0x2e] + rest), 2, v1);
    FieldParsed(c, d + [0x2e] + rest, 1, v2);
    FieldParsed(d, rest, 0, v3);
    FieldParsed(a, b + [0x2e] + (c + [0x2e] + d), 3, 0);
    FieldParsed(b, c + [0x2e] + d, 2, v1);
    FieldParsed(c, d, 1, v2);
    ParseNothing(rest, v4);
    ParseNothing([], v4);
  }

  lemma FieldParsed(a: seq<byte>, rest: seq<byte>, k: nat, val: uint32)
    requires 0x2e !in a
    ensures ParseFields(a + [0x2e] + rest, k + 1, val) == ParseFields(rest, k, PushOctet(val, OctetValue(a)))
    ensures ParseFields(a, k + 1, val) == ParseFields([], k, PushOctet(val, OctetValue(a)))
  {
    hide ParseFields, PushOctet, OctetValue;
    var s := a + [0x2e] + rest;
    assert s[..|a|] == a && s[|a| + 1..] == rest && a[..|a|] == a;
    ParseRound(s, k, val, |a|);
    ParseRound(a, k, val, |a|);
  }

  /** A zero in front of any text makes no difference. */
  lemma LeadingZeroIsIgnored(s: seq<byte>)
    ensures Parse([0x30] + s) == Parse(s)
  {
    hide ParseFields, PushOctet, OctetValue;
    var j := FieldEnd(s);
    ParseRound(s, 3, 0, j);
    ParseRound([0x30] + s, 3, 0, j + 1);
    assert ([0x30] + s)[..j + 1] == [0x30] + s[..j];
    assert j < |s| ==> ([0x30] + s)[j + 2..] == s[j + 1..];
    LeadingZeroInOctet(s[..j]);
  }

  lemma {:induction false} LeadingZeroInOctet(t: seq<byte>)
    ensures OctetValue([0x30] + t) == OctetValue(t)
  {
    var u := [0x30] + t;
    if t == [] {
      assert u[..0] == [];
    } else {
      assert u[..|u| - 1] == [0x30] + t[..|t| - 1];
      LeadingZeroInOctet(t[..|t| - 1]);
    }
  }

  /** The last field is or-ed in, whatever it holds. */
  lemma LastFieldIsOred(a: byte, b: byte, c: byte, d: seq<byte>)
    requires 0x2e !in d
    ensures Parse(Figures(a) + [0x2e] + Figures(b) + [0x2e] + Figures(c) + [0x2e] + d)
         == Or32(0x100_0000 * (a as int) + 0x1_0000 * (b as int) + 0x100 * (c as int),
                 OctetValue(d) % 0x1_0000_0000)
  {
    hide ParseFields, OctetValue, Figures, PushOctet, Or32;
    FiguresAreOctet(a);
    FiguresAreOctet(b);
    FiguresAreOctet(c);
    var v2 := 0x100 * (a as int) + b;
    var v3 := 0x100 * v2 + c;
    assert Figures(a) + [0x2e] + Figures(b) + [0x2e] + Figures(c) + [0x2e] + d
        == Figures(a) + [DOT] + (Figures(b) + [DOT] + (Figures(c) + [DOT] + d));
    ParseFirstField(Figures(a), Figures(b) + [DOT] + (Figures(c) + [DOT] + d), 3, 0);
    ParseFirstField(Figures(b), Figures(c) + [DOT] + d, 2, a);
    ParseFirstField(Figures(c), d, 1, v2);
    FieldParsed(d, [], 0, v3);
    ParseNothing([], PushOctet(v3, OctetValue(d)));
    PushIsOr(v3, OctetValue(d));
  }

  lemma PushIsOr(val: uint32, octet: int)
    requires val < 0x100_0000
    ensures PushOctet(val, octet) == Or32(0x100 * val, octet % 0x1_0000_0000)
  {
    hide Or32;
  }

  lemma FiguresAreOctet(n: byte)
    ensures IsOctetText(Figures(n)) && OctetValue(Figures(n)) == n
  {
    DecimalIsFigures(n);
    DecimalIsOctetText(n);
  }

  lemma OctetValueOf256(d: seq<byte>)
    requires d == [0x32, 0x35, 0x36]
    ensures OctetValue(d) == 256
  {
    OctetValueOfTwo(d[..2]);
  }

  /** A last octet of 256 sets the lowest bit of the octet before it. */
  lemma Octet256IsOred(a: byte, b: byte, c: byte)
    ensures Parse(Figures(a) + [0x2e] + Figures(b) + [0x2e] + Figures(c) + Ascii(".256"))
         == 0x100_0000 * (a as int) + 0x1_0000 * (b as int) + 0x100 * (if c % 2 == 1 then c as int else c + 1)
  {
    hide Parse, Figures, Or, OctetValue;
    var d: seq<byte> := [0x32, 0x35, 0x36];
    OctetValueOf256(d);
    LastFieldIsOred(a, b, c, d);
    assert Figures(a) + [0x2e] + Figures(b) + [0x2e] + Figures(c) + Ascii(".256")
        == Figures(a) + [0x2e] + Figures(b) + [0x2e] + Figures(c) + [0x2e] + d;
    var x := 0x1_0000 * (a as int) + 0x100 * (b as int) + c;
    OrShifted(8, x, 1);
    Pow2Values();
    OrWithOne(x);
  }

  /** A lone character in the last field counts as a signed number less 48, modulo 2^32. */
  lemma LoneCharacter(c: byte)
    requires c != 0x2e
    ensures Parse(Ascii("0.0.0.") + [c])
         == if c < 0x30 then 0x1_0000_0000 + c as int - 0x30
            else if c < 0x80 then c as int - 0x30
            else 0x1_0000_0000 + (c as int - 0x100) - 0x30
  {
    hide Parse, Figures, Or;
    ZeroFigure();
    LastFieldIsOred(0, 0, 0, [c]);
    assert [c][..0] == [];
    assert Ascii("0.0.0.") + [c] == [0x30] + [0x2e] + [0x30] + [0x2e] + [0x30] + [0x2e] + [c];
    OrFromZero(OctetValue([c]) % 0x1_0000_0000);
  }

  lemma ZeroFigure()
    ensures Figures(0) == [0x30]
  {
  }

  /** On canonical texts, distinct strings are distinct addresses. */
  lemma CanonicalTextsAreAddresses(s: seq<byte>, t: seq<byte>)
    requires Canonical(s) && Canonical(t)
    ensures s == t <==> Parse(s) == Parse(t)
  {
    PrintOfParse(s);
    PrintOfParse(t);
  }
}
