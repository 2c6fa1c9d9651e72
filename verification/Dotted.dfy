/**
 Dotted-decimal text: how an IPv4 address is printed, and which strings are read back.
 The daemon keys its table by addresses read from request text, prints its table as
 text, and the packet program keys the same table by raw octets.
 */
module Dotted {
  import opened Machine

  function Digit(d: nat): char
    requires d < 10
  {
    '0' + d as char
  }

  predicate IsDigit(c: char) {
    '0' <= c <= '9'
  }

  function Decimal(n: nat): (s: string)
    ensures s != []
  {
    if n < 10 then [Digit(n)] else Decimal(n / 10) + [Digit(n % 10)]
  }

  // ----- Printing -----

  function DottedTail(o: seq<Byte>): string {
    if o == [] then "" else "." + Decimal(o[0]) + DottedTail(o[1..])
  }

  /** The text of an address: its four octets in decimal, separated by dots. */
  function Text(o: Octets): string {
    Decimal(o[0]) + DottedTail(o[1..])
  }

  // ----- Reading -----

  /** Length of the run of digits a string starts with. */
  function DigitRun(s: string): (n: nat)
    ensures n <= |s|
  {
    if s == [] || !IsDigit(s[0]) then 0 else 1 + DigitRun(s[1..])
  }

  function DigitValue(c: char): nat {
    if IsDigit(c) then c as int - '0' as int else 0
  }

  function Value(s: string): nat {
    if s == [] then 0 else Value(s[..|s| - 1]) * 10 + DigitValue(s[|s| - 1])
  }

  /** One decimal octet: one to three digits, no leading zero, at most 255. */
  function ReadOctet(s: string): Option<(Byte, string)> {
    var n := DigitRun(s);
    if n == 0 || n > 3 || (n > 1 && s[0] == '0') || Value(s[..n]) > 255 then None
    else Some((Value(s[..n]), s[n..]))
  }

  /** n further octets, each after a dot. */
  function ReadTail(s: string, n: nat): (r: Option<(seq<Byte>, string)>)
    ensures r.Some? ==> |r.value.0| == n
  {
    if n == 0 then Some(([], s))
    else if s == [] || s[0] != '.' then None
    else match ReadOctet(s[1..])
      case None => None
      case Some((b, rest)) =>
        match ReadTail(rest, n - 1)
        case None => None
        case Some((bs, rest')) => Some(([b] + bs, rest'))
  }

  /** Reads a whole string as an address: at most 15 characters, nothing left over. */
  function Parse(s: string): Option<Octets> {
    if |s| > 15 then None
    else match ReadOctet(s)
      case None => None
      case Some((b, rest)) =>
        match ReadTail(rest, 3)
        case None => None
        case Some((bs, rest')) => if rest' == [] then Some([b] + bs) else None
  }

  // ----- The two agree, in both directions -----

  /** Whether reading an octet stops exactly here. */
  predicate OctetEnds(t: string) {
    t == [] || !IsDigit(t[0])
  }

  predicate AllDigits(s: string) {
    forall i :: 0 <= i < |s| ==> IsDigit(s[i])
  }

  lemma {:induction false} DigitRunStops(s: string)
    ensures AllDigits(s[..DigitRun(s)]) && OctetEnds(s[DigitRun(s)..])
  {
    if s != [] && IsDigit(s[0]) {
      DigitRunStops(s[1..]);
      assert s[1..][..DigitRun(s) - 1] == s[..DigitRun(s)][1..];
      assert s[1..][DigitRun(s) - 1..] == s[DigitRun(s)..];
      forall i | 0 <= i < DigitRun(s) ensures IsDigit(s[..DigitRun(s)][i]) {
        assert i > 0 ==> s[i] == s[1..][..DigitRun(s) - 1][i - 1];
      }
    }
  }

  lemma {:induction false} DigitRunIs(d: string, t: string)
    requires AllDigits(d) && OctetEnds(t)
    ensures DigitRun(d + t) == |d|
  {
    if d == [] {
      assert d + t == t;
    } else {
      assert (d + t)[1..] == d[1..] + t;
      assert (d + t)[0] == d[0];
      DigitRunIs(d[1..], t);
    }
  }

  lemma {:induction false} DecimalValue(n: nat)
    ensures AllDigits(Decimal(n)) && Value(Decimal(n)) == n
    ensures n > 0 ==> Decimal(n)[0] != '0'
    ensures n < 1000 ==> |Decimal(n)| <= 3
  {
    if n >= 10 {
      DecimalValue(n / 10);
      assert Decimal(n)[..|Decimal(n)| - 1] == Decimal(n / 10);
      assert n / 10 < 10 ==> |Decimal(n / 10)| == 1;
      assert 10 <= n / 10 < 100 ==> |Decimal(n / 100)| == 1 && n / 10 / 10 == n / 100;
    } else {
      assert Decimal(n)[..0] == [];
    }
  }

  /** Decimal is the only spelling of its value that has no leading zero. */
  lemma {:induction false} OneSpelling(s: string)
    requires s != [] && AllDigits(s) && (|s| > 1 ==> s[0] != '0')
    ensures s == Decimal(Value(s))
    ensures s[0] != '0' ==> Value(s) > 0
  {
    var init, last := s[..|s| - 1], s[|s| - 1];
    assert s == init + [last] && Digit(DigitValue(last)) == last;
    if |s| > 1 {
      OneSpelling(init);
      assert Value(s) / 10 == Value(init) && Value(s) % 10 == DigitValue(last);
    } else {
      assert init == [];
    }
  }

  /** The most significant digit is written first. */
  lemma DecimalSample()
    ensures Decimal(0) == "0" && Decimal(7) == "7" && Decimal(105) == "105"
  {
    assert Decimal(1) == "1";
    assert Decimal(10) == "10";
  }

  lemma ReadOctetIff(s: string, b: Byte, t: string)
    ensures ReadOctet(s) == Some((b, t)) <==> s == Decimal(b) + t && OctetEnds(t)
  {
    if s == Decimal(b) + t && OctetEnds(t) {
      DecimalValue(b);
      DigitRunIs(Decimal(b), t);
      assert s[..|Decimal(b)|] == Decimal(b) && s[|Decimal(b)|..] == t;
    }
    if ReadOctet(s) == Some((b, t)) {
      var n := DigitRun(s);
      DigitRunStops(s);
      OneSpelling(s[..n]);
      assert s == s[..n] + s[n..];
    }
  }

  lemma DottedTailSplit(b: Byte, bs: seq<Byte>, t: string)
    ensures DottedTail([b] + bs) + t == "." + (Decimal(b) + (DottedTail(bs) + t))
  {
    assert ([b] + bs)[1..] == bs;
  }

  lemma ReadTailStep(u: string, n: nat, b: Byte, rest: string)
    requires n > 0 && ReadOctet(u) == Some((b, rest))
    ensures ReadTail("." + u, n) ==
            match ReadTail(rest, n - 1) case None => None case Some((bs, t)) => Some(([b] + bs, t))
  {
    assert ("." + u)[1..] == u;
  }

  lemma {:induction false} PrintedTailReads(bs: seq<Byte>, t: string)
    requires OctetEnds(t)
    ensures ReadTail(DottedTail(bs) + t, |bs|) == Some((bs, t))
    ensures OctetEnds(DottedTail(bs) + t)
  {
    if bs == [] {
      assert DottedTail(bs) + t == t;
    } else {
      var b, tail := bs[0], bs[1..];
      assert bs == [b] + tail;
      DottedTailSplit(b, tail, t);
      PrintedTailReads(tail, t);
      var rest := DottedTail(tail) + t;
      ReadOctetIff(Decimal(b) + rest, b, rest);
      ReadTailStep(Decimal(b) + rest, |bs|, b, rest);
    }
  }

  lemma ReadTailParts(s: string, n: nat)
    requires n > 0 && ReadTail(s, n).Some?
    ensures s != [] && s == "." + s[1..] && ReadOctet(s[1..]).Some?
    ensures var (b, rest) := ReadOctet(s[1..]).value;
            ReadTail(rest, n - 1).Some? &&
            ReadTail(s, n).value == ([b] + ReadTail(rest, n - 1).value.0, ReadTail(rest, n - 1).value.1)
  {
  }

  lemma {:induction false} ReadTailIsPrinted(s: string, n: nat)
    requires ReadTail(s, n).Some?
    ensures s == DottedTail(ReadTail(s, n).value.0) + ReadTail(s, n).value.1
  {
    if n == 0 {
      assert s == DottedTail([]) + s;
    } else {
      ReadTailParts(s, n);
      var (b, rest) := ReadOctet(s[1..]).value;
      var (bs, t) := ReadTail(rest, n - 1).value;
      ReadTailIsPrinted(rest, n - 1);
      ReadOctetIff(s[1..], b, rest);
      DottedTailSplit(b, bs, t);
    }
  }

  lemma {:induction false} TailIsShort(bs: seq<Byte>)
    ensures |DottedTail(bs)| <= 4 * |bs|
  {
    if bs != [] {
      DecimalValue(bs[0]);
      TailIsShort(bs[1..]);
    }
  }

  lemma TextReads(o: Octets)
    ensures Parse(Text(o)) == Some(o)
  {
    var tail := DottedTail(o[1..]);
    PrintedTailReads(o[1..], []);
    assert tail + [] == tail;
    ReadOctetIff(Text(o), o[0], tail);
    DecimalValue(o[0]);
    TailIsShort(o[1..]);
    assert o == [o[0]] + o[1..];
  }

  lemma ReadIsText(s: string)
    requires Parse(s).Some?
    ensures s == Text(Parse(s).value)
  {
    var (b, rest) := ReadOctet(s).value;
    ReadOctetIff(s, b, rest);
    ReadTailIsPrinted(rest, 3);
    var (bs, t) := ReadTail(rest, 3).value;
    var o := [b] + bs;
    assert o[0] == b && o[1..] == bs;
    assert rest == DottedTail(bs) + t && t == [];
  }

  /** A string reads as an address exactly when it is that address's printed text. */
  lemma ParseIff(s: string, o: Octets)
    ensures Parse(s) == Some(o) <==> s == Text(o)
  {
    TextReads(o);
    if Parse(s) == Some(o) {
      ReadIsText(s);
    }
  }

  /** Addresses with the same text are the same address. */
  lemma TextInjective(x: Octets, y: Octets)
    requires Text(x) == Text(y)
    ensures x == y
  {
    ParseIff(Text(x), x);
    ParseIff(Text(x), y);
  }

  /** The first octet is written first. */
  lemma TextSample()
    ensures Text([10, 0, 0, 1]) == "10.0.0.1"
  {
    var o: Octets := [10, 0, 0, 1];
    assert Decimal(10) == "10";
    assert o[1..] == [0, 0, 1] && o[1..][1..] == [0, 1] && o[1..][1..][1..] == [1];
    assert DottedTail([1]) == ".1";
    assert DottedTail([0, 1]) == ".0.1";
    assert DottedTail([0, 0, 1]) == ".0.0.1";
  }
}
