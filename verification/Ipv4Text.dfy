/** Dotted-quad text (ipv4_address.cpp). */
module Ipv4Text {
  import opened Basics

  // ---- The canonical text of an address ----

  function DigitChar(d: nat): char
    requires d < 10
  {
    '0' + d as char
  }

  /** An octet in decimal without leading zeros. */
  function OctetText(n: byte): string
  {
    if n < 10 then [DigitChar(n)]
    else if n < 100 then [DigitChar(n / 10), DigitChar(n % 10)]
    else [DigitChar(n / 100), DigitChar(n / 10 % 10), DigitChar(n % 10)]
  }

  function Join(os: seq<byte>): string
  {
    if os == [] then ""
    else if |os| == 1 then OctetText(os[0])
    else OctetText(os[0]) + "." + Join(os[1..])
  }

  function Octets(a: u32): seq<byte>
  {
    [a / 0x100_0000, a / 0x1_0000 % 0x100, a / 0x100 % 0x100, a % 0x100]
  }

  function FromOctets(os: seq<byte>): u32
    requires |os| == 4
  {
    var v: int := os[0]; ((v * 0x100 + os[1]) * 0x100 + os[2]) * 0x100 + os[3]
  }

  lemma FromOctetsOfOctets(a: u32)
    ensures FromOctets(Octets(a)) == a
  {
    var b := a / 0x100;
    var c := b / 0x100;
    assert a / 0x1_0000 == c && a / 0x100_0000 == c / 0x100;
  }

  lemma OctetsOfFromOctets(os: seq<byte>)
    requires |os| == 4
    ensures Octets(FromOctets(os)) == os
  {
    var c: int := os[0];
    c := c * 0x100 + os[1];
    var b := c * 0x100 + os[2];
    var a := b * 0x100 + os[3];
    assert a / 0x100 == b && b / 0x100 == c && c / 0x100 == os[0];
    assert a / 0x1_0000 == c && a / 0x100_0000 == c / 0x100;
  }

  function Format(a: u32): string
  {
    Join(Octets(a))
  }

  method ToString(a: u32) returns (text: string)
    ensures text == Format(a)
  {
    text := "";
    var octets := Octets(a);
    for index := 0 to 4
      invariant text == JoinFirst(octets, index)
    {
      text := text + OctetText(octets[index]);
      if index + 1 < 4 {
        text := text + ".";
      }
    }
    JoinedBySteps(octets);
  }

  /** The text after `n` turns of the appending loop. */
  function JoinFirst(os: seq<byte>, n: nat): string
    requires |os| == 4 && n <= 4
  {
    if n == 0 then "" else JoinFirst(os, n - 1) + OctetText(os[n - 1]) + if n < 4 then "." else ""
  }

  lemma JoinedBySteps(os: seq<byte>)
    requires |os| == 4
    ensures JoinFirst(os, 4) == Join(os)
  {
    hide OctetText;
    var a, b, c, d := OctetText(os[0]), OctetText(os[1]), OctetText(os[2]), OctetText(os[3]);
    assert JoinFirst(os, 1) == a + ".";
    assert JoinFirst(os, 2) == a + "." + b + ".";
    assert JoinFirst(os, 3) == a + "." + b + "." + c + ".";
    assert JoinFirst(os, 4) == a + "." + b + "." + c + "." + d;
    assert os[1..][1..][1..] == [os[3]];
    assert Join(os[1..][1..][1..]) == d;
    assert Join(os[1..][1..]) == c + "." + d;
    assert Join(os[1..]) == b + "." + (c + "." + d);
    assert Join(os) == a + "." + (b + "." + (c + "." + d));
  }

  // ---- Reading one octet ----

  predicate IsDigit(c: char) { '0' <= c <= '9' }

  predicate AllDigits(run: string) { forall i :: 0 <= i < |run| ==> IsDigit(run[i]) }

  function Numeral(run: string): int
  {
    if run == "" then 0 else Numeral(run[..|run| - 1]) * 10 + (run[|run| - 1] as int - '0' as int)
  }

  /** The octet a run of characters spells, if it is canonical. */
  function OctetOf(run: string): Option<byte>
  {
    if 1 <= |run| <= 3 && AllDigits(run) && 0 <= Numeral(run) <= 255 && !(|run| > 1 && run[0] == '0')
    then Some(Numeral(run)) else None
  }

  lemma NumeralOfNone()
    ensures Numeral("") == 0
  {
  }

  lemma NumeralOfOne(a: char)
    ensures Numeral([a]) == a as int - '0' as int
  {
    assert [a][..0] == "";
  }

  lemma NumeralOfTwo(a: char, b: char)
    ensures Numeral([a, b]) == (a as int - '0' as int) * 10 + (b as int - '0' as int)
  {
    NumeralOfOne(a);
    assert [a, b][..1] == [a];
  }

  lemma NumeralOfThree(a: char, b: char, c: char)
    ensures Numeral([a, b, c]) == (a as int - '0' as int) * 100 + (b as int - '0' as int) * 10 + (c as int - '0' as int)
  {
    NumeralOfTwo(a, b);
    assert [a, b, c][..2] == [a, b];
  }

  lemma OctetOfText(n: byte)
    ensures OctetOf(OctetText(n)) == Some(n) && '.' !in OctetText(n)
  {
    var t := OctetText(n);
    hide Numeral;
    if n < 10 {
      NumeralOfOne(t[0]);
    } else if n < 100 {
      NumeralOfTwo(t[0], t[1]);
    } else {
      NumeralOfThree(t[0], t[1], t[2]);
    }
  }

  function DigitOf(c: char): int { c as int - '0' as int }

  lemma DigitCharOf(c: char)
    requires IsDigit(c)
    ensures 0 <= DigitOf(c) < 10 && DigitChar(DigitOf(c)) == c && (DigitOf(c) == 0 <==> c == '0')
  {
  }

  lemma TextOfTwo(a: char, b: char)
    requires OctetOf([a, b]).Some?
    ensures [a, b] == OctetText(OctetOf([a, b]).value)
  {
    var run := [a, b];
    NumeralOfTwo(a, b);
    assert IsDigit(run[0]) && IsDigit(run[1]);
    DigitCharOf(a);
    DigitCharOf(b);
    hide Numeral, DigitChar;
    var n := OctetOf(run).value;
    assert n == DigitOf(a) * 10 + DigitOf(b);
    assert n / 10 == DigitOf(a) && n % 10 == DigitOf(b);
  }

  lemma TextOfThree(a: char, b: char, c: char)
    requires OctetOf([a, b, c]).Some?
    ensures [a, b, c] == OctetText(OctetOf([a, b, c]).value)
  {
    var run := [a, b, c];
    NumeralOfThree(a, b, c);
    assert IsDigit(run[0]) && IsDigit(run[1]) && IsDigit(run[2]);
    DigitCharOf(a);
    DigitCharOf(b);
    DigitCharOf(c);
    hide Numeral, DigitChar;
    var n := OctetOf(run).value;
    assert n == DigitOf(a) * 100 + DigitOf(b) * 10 + DigitOf(c);
    assert n / 10 == DigitOf(a) * 10 + DigitOf(b) && n % 10 == DigitOf(c);
    assert n / 100 == DigitOf(a) && n / 10 % 10 == DigitOf(b);
  }

  /** A canonical run is the text of the octet it spells. */
  lemma TextOfOctet(run: string)
    requires OctetOf(run).Some?
    ensures run == OctetText(OctetOf(run).value)
  {
    if |run| == 1 {
      assert run == [run[0]];
      NumeralOfOne(run[0]);
      DigitCharOf(run[0]);
    } else if |run| == 2 {
      assert run == [run[0], run[1]];
      TextOfTwo(run[0], run[1]);
    } else {
      assert run == [run[0], run[1], run[2]];
      TextOfThree(run[0], run[1], run[2]);
    }
  }

  // ---- Reading a whole address ----

  /** The length of the text before the first dot. */
  function Span(text: string): (n: nat)
    ensures n <= |text| && (n < |text| ==> text[n] == '.')
    ensures forall i :: 0 <= i < n ==> text[i] != '.'
  {
    if text == "" || text[0] == '.' then 0 else 1 + Span(text[1..])
  }

  /** `k` octets separated by dots, and nothing after them. */
  function ParseOctets(text: string, k: nat): (r: Option<seq<byte>>)
    requires k >= 1
    ensures r.Some? ==> |r.value| == k
  {
    var n := Span(text);
    match OctetOf(text[..n])
    case None => None
    case Some(o) =>
      if k == 1 then (if n == |text| then Some([o]) else None)
      else if n == |text| then None
      else
        match ParseOctets(text[n + 1..], k - 1)
        case None => None
        case Some(os) => Some([o] + os)
  }

  lemma SpanOf(run: string, rest: string)
    requires '.' !in run && (rest == "" || rest[0] == '.')
    ensures Span(run + rest) == |run|
  {
    assert forall i :: 0 <= i < |run| ==> (run + rest)[i] == run[i];
    assert rest != "" ==> (run + rest)[|run|] == '.';
  }

  lemma {:induction false} ParseOfJoin(os: seq<byte>)
    requires |os| >= 1
    ensures ParseOctets(Join(os), |os|) == Some(os)
  {
    hide OctetText, OctetOf, Span;
    var run := OctetText(os[0]);
    OctetOfText(os[0]);
    if |os| == 1 {
      SpanOf(run, "");
      assert run + "" == run && run[..|run|] == run;
      assert os == [os[0]];
    } else {
      var rest := "." + Join(os[1..]);
      assert Join(os) == run + rest;
      SpanOf(run, rest);
      ParseOfJoin(os[1..]);
      assert Join(os)[..|run|] == run && Join(os)[|run| + 1..] == Join(os[1..]);
      assert os == [os[0]] + os[1..];
    }
  }

  lemma JoinCons(o: byte, os: seq<byte>)
    requires |os| >= 1
    ensures Join([o] + os) == OctetText(o) + "." + Join(os)
  {
    assert ([o] + os)[1..] == os;
  }

  lemma {:induction false} JoinOfParse(text: string, k: nat)
    requires k >= 1 && ParseOctets(text, k).Some?
    ensures var os := ParseOctets(text, k).value; |os| == k && text == Join(os)
    decreases k
  {
    hide OctetText, OctetOf, Span;
    var n := Span(text);
    TextOfOctet(text[..n]);
    if k > 1 {
      var os := ParseOctets(text[n + 1..], k - 1).value;
      JoinOfParse(text[n + 1..], k - 1);
      JoinCons(OctetOf(text[..n]).value, os);
      assert text == text[..n] + "." + text[n + 1..];
      hide Join;
    } else {
      assert text[..n] == text;
    }
  }

  /** Parsing accepts exactly the canonical texts: formatting then parsing is the
      identity, and whatever is accepted is the formatting of its result. */
  lemma CanonicalText(a: u32, text: string)
    ensures ParseOctets(Format(a), 4) == Some(Octets(a))
    ensures ParseOctets(text, 4).Some? ==> text == Format(FromOctets(ParseOctets(text, 4).value))
  {
    hide ParseOctets, Join;
    ParseOfJoin(Octets(a));
    if ParseOctets(text, 4).Some? {
      JoinOfParse(text, 4);
      OctetsOfFromOctets(ParseOctets(text, 4).value);
    }
  }

  /** A text, to fix the notation: most significant octet first, in decimal. */
  lemma Notation()
    ensures Format(0xC0A8010A) == "192.168.1.10"
  {
    var os: seq<byte> := [192, 168, 1, 10];
    assert Octets(0xC0A8010A) == os;
    SomeTexts();
    hide OctetText;
    assert os[1..] == [168, 1, 10] && os[1..][1..] == [1, 10] && os[1..][1..][1..] == [10];
    assert Join(os[1..][1..]) == "1" + "." + "10";
    assert Join(os[1..]) == "168" + "." + Join(os[1..][1..]);
  }

  lemma SomeTexts()
    ensures OctetText(192) == "192" && OctetText(168) == "168" && OctetText(1) == "1" && OctetText(10) == "10"
  {
  }

  // ---- The parser ----

  /** A run that has already failed cannot become an octet. */
  lemma {:induction false} NumeralGrows(run: string, n: nat)
    requires AllDigits(run) && n <= |run|
    ensures 0 <= Numeral(run[..n]) <= Numeral(run)
  {
    if n < |run| {
      NumeralGrows(run[..|run| - 1], n);
      assert run[..|run| - 1][..n] == run[..n];
    } else {
      assert run[..n] == run;
      if n > 0 {
        NumeralGrows(run[..n - 1], n - 1);
        assert run[..n - 1][..n - 1] == run[..n - 1];
      }
    }
  }

  lemma NumeralNext(run: string, n: nat)
    requires n < |run|
    ensures Numeral(run[..n + 1]) == Numeral(run[..n]) * 10 + (run[n] as int - '0' as int)
    ensures AllDigits(run[..n]) && IsDigit(run[n]) ==> AllDigits(run[..n + 1])
  {
    assert run[..n + 1][..n] == run[..n];
  }

  /** Scans one octet from `start`, as the inner loop of the source does. */
  method ScanOctet(text: string, start: nat) returns (r: Option<byte>, position: nat)
    requires start <= |text|
    ensures r == OctetOf(text[start..][..Span(text[start..])])
    ensures r.Some? ==> position == start + Span(text[start..])
  {
    hide Span, Numeral;
    ghost var span := Span(text[start..]);
    ghost var run := text[start..][..span];
    position := start;
    var value: int, digits := 0, 0;
    assert run[..0] == "" && Numeral("") == 0 by { NumeralOfNone(); }
    while position < |text| && text[position] != '.'
      invariant start <= position <= start + span
      invariant digits == position - start <= 3
      invariant AllDigits(run[..digits]) && value == Numeral(run[..digits])
      invariant 0 <= value <= 255
    {
      assert text[position] == run[digits];
      var c := text[position];
      if c < '0' || c > '9' {
        return None, position;
      }
      if digits == 3 {
        return None, position;
      }
      NumeralNext(run, digits);
      value := value * 10 + (c as int - '0' as int);
      if value > 255 {
        if AllDigits(run) { NumeralGrows(run, digits + 1); }
        return None, position;
      }
      digits := digits + 1;
      position := position + 1;
    }
    assert run[..digits] == run;
    if digits == 0 {
      return None, position;
    }
    if digits > 1 && text[start] == '0' {
      assert run[0] == '0';
      return None, position;
    }
    return Some(value), position;
  }

  /** What is still to be read decides the result. */
  ghost function Continue(done: seq<byte>, text: string, k: nat): Option<seq<byte>>
  {
    if k == 0 then (if text == "" then Some(done) else None)
    else
      match ParseOctets(text, k)
      case None => None
      case Some(os) => Some(done + os)
  }

  /** Reading one more octet. */
  lemma ContinueStep(done: seq<byte>, rest: string, k: nat)
    requires k >= 1
    ensures var n := Span(rest);
      match OctetOf(rest[..n])
      case None => Continue(done, rest, k) == None
      case Some(o) =>
        if k == 1 then Continue(done, rest, k) == Continue(done + [o], rest[n..], 0)
        else if n == |rest| then Continue(done, rest, k) == None
        else Continue(done, rest, k) == Continue(done + [o], rest[n + 1..], k - 1)
  {
    hide OctetOf, Span;
    var n := Span(rest);
    assert rest[n..] == "" <==> n == |rest|;
    match OctetOf(rest[..n])
    case None =>
    case Some(o) =>
      if k > 1 && n < |rest| && ParseOctets(rest[n + 1..], k - 1).Some? {
        var os := ParseOctets(rest[n + 1..], k - 1).value;
        assert done + ([o] + os) == done + [o] + os;
      }
  }

  lemma ContinueFrom(text: string, done: seq<byte>)
    ensures Continue([], text[0..], 4) == ParseOctets(text, 4)
    ensures Continue(done, "", 0) == Some(done)
    ensures forall k :: k >= 1 ==> Continue(done, "", k) == None
  {
    hide OctetText;
    assert text[0..] == text;
    if ParseOctets(text, 4).Some? {
      assert [] + ParseOctets(text, 4).value == ParseOctets(text, 4).value;
    }
  }

  method Parse(text: string) returns (r: Option<u32>)
    ensures r.Some? ==> text == Format(r.value)
    ensures r.None? ==> forall a: u32 :: text != Format(a)
  {
    hide OctetOf, OctetText, Format, Continue, ParseOctets, Span;
    var octets: seq<byte> := [];
    var position: nat := 0;
    ContinueFrom(text, []);
    for index := 0 to 4
      invariant |octets| == index && position <= |text|
      invariant ParseOctets(text, 4) == Continue(octets, text[position..], 4 - index)
      invariant index == 4 ==> position == |text|
    {
      if position >= |text| {
        assert text[position..] == "";
        ContinueFrom(text, octets);
        NoCanonicalText(text);
        return None;
      }
      ghost var rest := text[position..];
      ContinueStep(octets, rest, 4 - index);
      var octet, next := ScanOctet(text, position);
      if octet.None? {
        NoCanonicalText(text);
        return None;
      }
      octets := octets + [octet.value];
      if index + 1 == 4 {
        assert rest[Span(rest)..] == text[next..];
        if next != |text| {
          NotFinished(octets, text[next..]);
          NoCanonicalText(text);
          return None;
        }
        position := next;
      } else {
        if next >= |text| || text[next] != '.' {
          NoCanonicalText(text);
          return None;
        }
        position := next + 1;
        assert rest[Span(rest) + 1..] == text[position..];
      }
    }
    assert text[position..] == "";
    ContinueFrom(text, octets);
    CanonicalText(0, text);
    return Some(FromOctets(octets));
  }

  lemma NotFinished(done: seq<byte>, rest: string)
    requires rest != ""
    ensures Continue(done, rest, 0) == None
  {
  }

  lemma NoCanonicalText(text: string)
    requires ParseOctets(text, 4).None?
    ensures forall a: u32 :: text != Format(a)
  {
    hide ParseOctets, Format;
    forall a: u32 ensures text != Format(a) {
      CanonicalText(a, text);
    }
  }
}
