/** The Internet checksum (RFC 1071, section 1) over a packet payload.

    The payload is read as a sequence of 16-bit big-endian words, padded with
    one zero byte when its length is odd. The words are added one at a time
    into an accumulator that is folded back into 16 bits after every addition
    (end-around carry), and the result is the one's complement of the final
    accumulator, masked to 16 bits. */
module Rfc1071 {

  /** An octet of a datagram. */
  type Byte = x: int | 0 <= x < 0x100

  /** The payload as the loop sees it: one 0x00 byte appended when its length is odd. */
  function Pad(data: seq<Byte>): (d: seq<Byte>)
    ensures |d| % 2 == 0 && |data| <= |d| <= |data| + 1
    ensures d[..|data|] == data && (|d| > |data| ==> d[|data|] == 0)
  {
    if |data| % 2 == 1 then data + [0] else data
  }

  /** The j-th 16-bit big-endian word of d. */
  function Word(d: seq<Byte>, j: nat): (w: nat)
    requires 2 * j + 1 < |d|
    ensures w <= 0xFFFF
  {
    d[2 * j] as int * 256 + d[2 * j + 1] as int
  }

  /** One end-around-carry step, `(s & 0xFFFF) + (s >> 16)` for a non-negative s. */
  function Fold(s: nat): nat
  {
    s % 0x10000 + s / 0x10000
  }

  /** Folding the sum of a 16-bit accumulator and a 16-bit word removes 0xFFFF
      exactly when the sum overflows 16 bits. */
  lemma FoldStep(s: nat)
    requires s <= 2 * 0xFFFF
    ensures Fold(s) == if s <= 0xFFFF then s else s - 0xFFFF
    ensures Fold(s) <= 0xFFFF
  {
    if s >= 0x10000 {
      assert s / 0x10000 == 1;
    }
  }

  /** The accumulator after the first k words of d have been added and folded;
      it never leaves the 16-bit range. */
  function Acc(d: seq<Byte>, k: nat): (s: nat)
    requires 2 * k <= |d|
    ensures s <= 0xFFFF
  {
    if k == 0 then 0
    else
      var prev := Acc(d, k - 1);
      FoldStep(prev + Word(d, k - 1));
      Fold(prev + Word(d, k - 1))
  }

  /** `(~s) & 0xFFFF` on Python's unbounded integers. */
  function Complement(s: int): int
  {
    (-s - 1) % 0x10000
  }

  /** On a 16-bit accumulator the complement is 0xFFFF - s. */
  lemma ComplementOf(s: int)
    requires 0 <= s <= 0xFFFF
    ensures Complement(s) == (-s - 1) % 0x10000 == 0xFFFF - s
  {
    assert -s - 1 == -1 * 0x10000 + (0xFFFF - s);
  }

  /** The checksum of a payload: the complement of its folded word sum. */
  function Checksum(data: seq<Byte>): (c: nat)
    ensures c <= 0xFFFF
    ensures c == 0xFFFF - Acc(Pad(data), |Pad(data)| / 2)
  {
    var d := Pad(data);
    ComplementOf(Acc(d, |d| / 2));
    Complement(Acc(d, |d| / 2))
  }

  /** internet_checksum: the word loop, with the accumulator kept at or below
      0xFFFF after every fold. */
  method InternetChecksum(data: seq<Byte>) returns (c: nat)
    ensures c == Checksum(data)
    ensures c <= 0xFFFF
  {
    var d := data;
    if |d| % 2 == 1 {
      d := d + [0];
    }
    assert d == Pad(data);
    var s := 0;
    var i := 0;
    while i < |d|
      invariant 0 <= i <= |d| && i % 2 == 0 && |d| % 2 == 0
      invariant 0 <= s <= 0xFFFF
      invariant s == Acc(d, i / 2)
    {
      var w := d[i] as int * 256 + d[i + 1] as int;
      assert w == Word(d, i / 2);
      s := s + w;
      FoldStep(s);
      s := s % 0x10000 + s / 0x10000;
      i := i + 2;
    }
    assert i / 2 == |d| / 2;
    ComplementOf(s);
    c := (-s - 1) % 0x10000;
  }

  /** The plain (unfolded) sum of the first k words of d. */
  function Sum(d: seq<Byte>, k: nat): nat
    requires 2 * k <= |d|
  {
    if k == 0 then 0 else Sum(d, k - 1) + Word(d, k - 1)
  }

  /** The folded accumulator is the plain word sum modulo 0xFFFF, and it is
      zero only when every word is zero. */
  lemma {:induction false} AccIsSumMod(d: seq<Byte>, k: nat)
    requires 2 * k <= |d|
    ensures Acc(d, k) % 0xFFFF == Sum(d, k) % 0xFFFF
    ensures Acc(d, k) == 0 <==> Sum(d, k) == 0
  {
    if k > 0 {
      AccIsSumMod(d, k - 1);
      var x := Acc(d, k - 1) + Word(d, k - 1);
      FoldCongruent(x);
      assert Acc(d, k) == Fold(x);
      ModAdd(Acc(d, k - 1), Sum(d, k - 1), Word(d, k - 1));
    }
  }

  /** A fold keeps the value modulo 0xFFFF and keeps it non-zero. */
  lemma FoldCongruent(x: nat)
    requires x <= 2 * 0xFFFF
    ensures Fold(x) % 0xFFFF == x % 0xFFFF
    ensures Fold(x) == 0 <==> x == 0
  {
    FoldStep(x);
    if x > 0xFFFF {
      assert x % 0xFFFF == (x - 0xFFFF) % 0xFFFF by {
        assert x == (x - 0xFFFF) + 1 * 0xFFFF;
      }
    }
  }

  /** Adding the same number to two values congruent modulo 0xFFFF keeps them congruent. */
  lemma ModAdd(a: nat, b: nat, w: nat)
    requires a % 0xFFFF == b % 0xFFFF
    ensures (a + w) % 0xFFFF == (b + w) % 0xFFFF
  {
    assert a == (a / 0xFFFF) * 0xFFFF + a % 0xFFFF;
    assert b == (b / 0xFFFF) * 0xFFFF + b % 0xFFFF;
    assert (a + w) % 0xFFFF == (a % 0xFFFF + w) % 0xFFFF;
    assert (b + w) % 0xFFFF == (b % 0xFFFF + w) % 0xFFFF;
  }

  /** Two distinct values congruent modulo 0xFFFF lie at least 0xFFFF apart. */
  lemma CongruentApart(x: nat, y: nat)
    requires x % 0xFFFF == y % 0xFFFF && x != y
    ensures x - y >= 0xFFFF || y - x >= 0xFFFF
  {
    var q := x / 0xFFFF - y / 0xFFFF;
    assert x - y == q * 0xFFFF;
    assert q != 0;
  }

  /** Words that lie entirely inside a prefix are unaffected by what follows it. */
  lemma {:induction false} AccPrefix(d: seq<Byte>, e: seq<Byte>, k: nat)
    requires 2 * k <= |d|
    ensures Acc(d + e, k) == Acc(d, k)
  {
    if k > 0 {
      AccPrefix(d, e, k - 1);
      assert Word(d + e, k - 1) == Word(d, k - 1);
    }
  }

  /** Appending a zero byte never changes the checksum: for an odd-length
      payload this is the padding itself, for an even-length one the extra
      zero word leaves the folded sum as it was. */
  lemma ChecksumZeroExtend(data: seq<Byte>)
    ensures Checksum(data + [0]) == Checksum(data)
  {
    if |data| % 2 == 0 {
      var k := |data| / 2;
      var d := Pad(data + [0]);
      assert d == data + [0, 0];
      AccPrefix(data, [0, 0], k);
      assert Word(d, k) == 0;
      FoldStep(Acc(d, k));
      assert Acc(d, k + 1) == Acc(data, k);
    }
  }

  /** Changing the byte at position i changes only the word that holds it. */
  lemma {:induction false} SumChangeOne(d: seq<Byte>, i: nat, b: Byte, k: nat)
    requires i < |d| && 2 * k <= |d|
    ensures Sum(d[i := b], k) ==
      Sum(d, k) + (if i / 2 < k then Word(d[i := b], i / 2) - Word(d, i / 2) else 0)
  {
    if k > 0 {
      SumChangeOne(d, i, b, k - 1);
      if k - 1 != i / 2 {
        assert d[i := b][2 * (k - 1)] == d[2 * (k - 1)];
        assert d[i := b][2 * (k - 1) + 1] == d[2 * (k - 1) + 1];
      }
    }
  }

  /** The checksum detects every single-byte alteration of the payload: the
      word holding the byte moves by a non-zero amount of magnitude at most
      255 * 256, which is never a multiple of 0xFFFF, and the folded sum is
      determined by the word sum modulo 0xFFFF. */
  lemma ChecksumDetectsByteChange(data: seq<Byte>, i: nat, b: Byte)
    requires i < |data| && b != data[i]
    ensures Checksum(data[i := b]) != Checksum(data)
  {
    var d, d' := Pad(data), Pad(data[i := b]);
    assert d' == d[i := b];
    var k := |d| / 2;
    var j := i / 2;
    SumChangeOne(d, i, b, k);
    AccIsSumMod(d, k);
    AccIsSumMod(d', k);
    var delta := Word(d', j) - Word(d, j);
    if i % 2 == 0 {
      assert i == 2 * j;
      assert delta == (b - data[i]) * 256;
    } else {
      assert i == 2 * j + 1;
      assert delta == b - data[i];
    }
    assert delta != 0 && -0xFFFF < delta < 0xFFFF;
    assert Sum(d', k) == Sum(d, k) + delta;
    if Acc(d', k) == Acc(d, k) {
      if Acc(d, k) != 0 {
        CongruentApart(Sum(d', k), Sum(d, k));
      }
    }
  }

  /** A non-empty payload can have checksum 0: the two bytes 0xFF 0xFF. */
  lemma NonEmptyZeroChecksum()
    ensures Checksum([0xFF, 0xFF]) == 0
  {
    var d: seq<Byte> := [0xFF, 0xFF];
    assert Pad(d) == d;
    assert Word(d, 0) == 0xFFFF;
    FoldStep(0xFFFF);
    assert Acc(d, 1) == 0xFFFF;
  }
}
