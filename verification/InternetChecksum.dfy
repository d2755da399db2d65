/** The Internet checksum (internet_checksum.cpp), sections 1 and 2 of RFC 1071.

    `Checksum` is the closed form: the complement of the plain word sum taken
    as a one's-complement number.  The source instead folds a carry back after
    every word; `ComputeInternetChecksum` is that loop. */
module InternetChecksum {
  import opened Basics

  function Word(high: byte, low: byte): u16
  {
    (high as int) * 256 + low
  }

  /** The big-endian 16-bit words of a byte string, an odd last byte padded with zero. */
  function Words(b: Bytes): (ws: seq<u16>)
  {
    if |b| == 0 then []
    else if |b| == 1 then [Word(b[0], 0)]
    else [Word(b[0], b[1])] + Words(b[2..])
  }

  function Sum(ws: seq<u16>): nat
  {
    if ws == [] then 0 else ws[0] + Sum(ws[1..])
  }

  /** The one's-complement reading of a plain sum: its residue modulo 65535,
      where a nonzero multiple of 65535 reads as 0xFFFF and only zero as zero. */
  function OnesComplement(n: nat): (r: u16)
    ensures r % 0xFFFF == n % 0xFFFF
    ensures r == 0 <==> n == 0
  {
    if n == 0 then 0 else (n - 1) % 0xFFFF + 1
  }

  function Checksum(b: Bytes): u16
  {
    0xFFFF - OnesComplement(Sum(Words(b)))
  }

  predicate HasValidChecksum(b: Bytes)
  {
    b != [] && Checksum(b) == 0
  }

  /** The low 16 bits plus the high bits (a 32-bit operand). */
  function FoldCarry(v: u32): u32
  {
    v % 0x1_0000 + v / 0x1_0000
  }

  /** One fold per word is enough: the accumulator stays a one's-complement
      number, at most 0xFFFF, congruent to the plain sum. */
  lemma FoldStep(n: nat, w: u16)
    ensures OnesComplement(n + w) == FoldCarry(OnesComplement(n) + w)
  {
    if n > 0 {
      var q, r := (n - 1) / 0xFFFF, OnesComplement(n);
      assert n - 1 == q * 0xFFFF + (r - 1);
      hide OnesComplement;
      if r + w <= 0xFFFF {
        Residue(n + w, q, r + w);
      } else {
        Residue(n + w, q + 1, r + w - 0xFFFF);
      }
    }
  }

  /** The number that is `q` full turns of 65535 and then `r` reads as `r`. */
  lemma Residue(n: nat, q: nat, r: nat)
    requires 1 <= r <= 0xFFFF && n == q * 0xFFFF + r
    ensures OnesComplement(n) == r
  {
    assert (n - 1) % 0xFFFF == r - 1;
  }

  lemma {:induction false} SumAppend(a: seq<u16>, b: seq<u16>)
    ensures Sum(a + b) == Sum(a) + Sum(b)
  {
    if a == [] {
      assert a + b == b;
    } else {
      SumAppend(a[1..], b);
      assert (a + b)[1..] == a[1..] + b;
    }
  }

  lemma FirstPair(a: Bytes)
    requires |a| >= 2
    ensures Words(a) == [Word(a[0], a[1])] + Words(a[2..])
  {
  }

  lemma {:induction false} WordsAppend(a: Bytes, b: Bytes)
    requires |a| % 2 == 0
    ensures Words(a + b) == Words(a) + Words(b)
  {
    hide Word;
    if a == [] {
      assert a + b == b;
    } else {
      WordsAppend(a[2..], b);
      FirstPair(a);
      FirstPair(a + b);
      hide Words;
      assert (a + b)[2..] == a[2..] + b;
      assert (a + b)[0] == a[0] && (a + b)[1] == a[1];
    }
  }

  /** The one's-complement sum of the first `n` bytes. */
  function Folded(bytes: Bytes, n: nat): u16
    requires n <= |bytes|
  {
    OnesComplement(Sum(Words(bytes[..n])))
  }

  /** Extending an even prefix by the next word, or by the last odd byte. */
  lemma FoldNext(bytes: Bytes, n: nat, width: nat, word: u16)
    requires n % 2 == 0 && 1 <= width <= 2 && n + width <= |bytes|
    requires width == 1 ==> word == Word(bytes[n], 0)
    requires width == 2 ==> word == Word(bytes[n], bytes[n + 1])
    ensures Folded(bytes, n + width) == FoldCarry(Folded(bytes, n) + word)
  {
    hide OnesComplement, FoldCarry, Word;
    var head, next := bytes[..n], bytes[n..n + width];
    assert bytes[..n + width] == head + next;
    WordsAppend(head, next);
    assert Words(next) == [word];
    SumAppend(Words(head), [word]);
    assert Sum([word]) == word + Sum([]);
    FoldStep(Sum(Words(head)), word);
  }

  lemma FoldedEnds(bytes: Bytes)
    ensures Folded(bytes, 0) == 0 && Checksum(bytes) == 0xFFFF - Folded(bytes, |bytes|)
  {
    assert bytes[..|bytes|] == bytes;
  }

  lemma FoldSmall(v: u16)
    ensures FoldCarry(v) == v
  {
  }

  method ComputeInternetChecksum(bytes: Bytes) returns (r: u16)
    ensures r == Checksum(bytes)
  {
    FoldedEnds(bytes);
    hide OnesComplement, Word, Words, Sum, Folded, FoldCarry;
    var sum: u32 := 0;
    var offset := 0;
    while offset + 1 < |bytes|
      invariant 0 <= offset <= |bytes| && offset % 2 == 0
      invariant sum == Folded(bytes, offset) <= 0xFFFF
    {
      var word := Word(bytes[offset], bytes[offset + 1]);
      FoldNext(bytes, offset, 2, word);
      sum := FoldCarry(sum + word);
      offset := offset + 2;
    }
    if offset < |bytes| {
      var finalWord := Word(bytes[offset], 0);
      FoldNext(bytes, offset, 1, finalWord);
      sum := FoldCarry(sum + finalWord);
      offset := offset + 1;
    }
    FoldSmall(sum);
    sum := FoldCarry(sum);
    return 0xFFFF - sum;
  }

  /** An odd last byte counts as if a zero byte followed it. */
  lemma {:induction false} OddPadding(b: Bytes)
    requires |b| % 2 == 1
    ensures Words(b + [0]) == Words(b) && Checksum(b + [0]) == Checksum(b)
  {
    if |b| > 1 {
      OddPadding(b[2..]);
      assert (b + [0])[2..] == b[2..] + [0];
    }
  }

  /** The checksum depends on the words only, not on their order. */
  lemma ChecksumOrderIndependent(a: Bytes, b: Bytes)
    requires multiset(Words(a)) == multiset(Words(b))
    ensures Checksum(a) == Checksum(b)
  {
    SumOfPermutation(Words(a), Words(b));
  }

  lemma {:induction false} SumOfPermutation(a: seq<u16>, b: seq<u16>)
    requires multiset(a) == multiset(b)
    ensures Sum(a) == Sum(b)
    decreases |a|
  {
    if a == [] {
      assert |multiset(b)| == 0;
      assert b == [];
    } else {
      assert a[0] in multiset(a);
      var i :| 0 <= i < |b| && b[i] == a[0];
      TakenOut(a, 0);
      TakenOut(b, i);
      assert a[..0] + a[1..] == a[1..];
      SumWithout(b, i);
      hide Sum;
      SumOfPermutation(a[1..], b[..i] + b[i + 1..]);
      SumFirst(a);
    }
  }

  lemma SumFirst(a: seq<u16>)
    requires a != []
    ensures Sum(a) == a[0] + Sum(a[1..])
  {
  }

  lemma SumWithout(b: seq<u16>, i: nat)
    requires i < |b|
    ensures Sum(b) == b[i] + Sum(b[..i] + b[i + 1..])
  {
    assert b == b[..i] + b[i..] && b[i..][1..] == b[i + 1..];
    SumAppend(b[..i], b[i..]);
    SumAppend(b[..i], b[i + 1..]);
    SumFirst(b[i..]);
  }

  lemma TakenOut(b: seq<u16>, i: nat)
    requires i < |b|
    ensures multiset(b[..i] + b[i + 1..]) == multiset(b) - multiset{b[i]}
  {
    assert b == b[..i] + [b[i]] + b[i + 1..];
  }

  /** Replacing one word of a string with a valid checksum is detected exactly
      when the two words are not the two spellings of zero, 0x0000 and 0xFFFF. */
  lemma OneWordChange(sum: nat, w: u16, w': u16)
    requires sum + w > 0 && sum + w' > 0
    requires OnesComplement(sum + w) == 0xFFFF
    ensures OnesComplement(sum + w') == 0xFFFF <==> w' == w || {w, w'} == {0, 0xFFFF}
  {
    assert (sum + w) % 0xFFFF == 0;
    if OnesComplement(sum + w') == 0xFFFF {
      assert (sum + w') % 0xFFFF == 0;
      var a, b := (sum + w) / 0xFFFF, (sum + w') / 0xFFFF;
      assert w' - w == (b - a) * 0xFFFF;
    }
    if {w, w'} == {0, 0xFFFF} {
      assert w in {0, 0xFFFF} && w' in {0, 0xFFFF} && w != w' by {
        assert w in {w, w'} && w' in {w, w'};
        assert 0 in {w, w'} && 0xFFFF in {w, w'};
      }
    } 
  }
}
