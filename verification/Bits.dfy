/** What the models share: options, bytes, bitwise operations, little-endian words, byte sums and copies. */
module Bits {
  datatype Option<+T> = None | Some(value: T)

  type byte = x: int | 0 <= x < 256

  function Min(a: nat, b: nat): nat
  {
    if a <= b then a else b
  }

  /** Bitwise AND of two naturals. */
  function And(a: nat, b: nat): nat
  {
    if a == 0 || b == 0 then 0
    else 2 * And(a / 2, b / 2) + (if a % 2 == 1 && b % 2 == 1 then 1 else 0)
  }

  lemma {:induction false} AndBelow(a: nat, b: nat)
    ensures And(a, b) <= a && And(a, b) <= b
  {
    if a != 0 && b != 0 {
      AndBelow(a / 2, b / 2);
    }
  }

  function AndByte(a: byte, b: byte): byte
  {
    AndBelow(a, b);
    And(a, b)
  }

  /** Bitwise OR of two naturals. */
  function Or(a: nat, b: nat): nat
  {
    if a == 0 then b else if b == 0 then a
    else 2 * Or(a / 2, b / 2) + (if a % 2 == 1 || b % 2 == 1 then 1 else 0)
  }

  /** d shifted left by k bits. */
  function Doubled(d: nat, k: nat): nat
  {
    if k == 0 then d else 2 * Doubled(d, k - 1)
  }

  lemma {:induction false} OrBelow(a: nat, c: nat, n: nat)
    requires a < Doubled(1, n)
    ensures Or(a, Doubled(c, n)) == a + Doubled(c, n)
  {
    if n > 0 && a > 0 && Doubled(c, n) > 0 {
      OrBelow(a / 2, c, n - 1);
    }
  }

  /** The value a signed 16-bit variable holds after x is stored in it. */
  function S16(x: int): (r: int)
    ensures -32768 <= r < 32768
    ensures -32768 <= x < 32768 ==> r == x
  {
    (x + 32768) % 65536 - 32768
  }

  /** Counting in 16 bits is counting, stored in 16 bits once at the end. */
  lemma S16Step(x: int, d: int)
    ensures S16(S16(x) + d) == S16(x + d)
  {
  }

  function Ones(n: nat): nat
  {
    if n == 0 then 0 else 2 * Ones(n - 1) + 1
  }

  /** ANDing with n one bits keeps every number of at most n bits. */
  lemma {:induction false} AndOnes(n: nat, b: nat)
    requires b <= Ones(n)
    ensures And(Ones(n), b) == b
  {
    if n != 0 && b != 0 {
      assert Ones(n) / 2 == Ones(n - 1);
      AndOnes(n - 1, b / 2);
    }
  }

  /** Programming an erased cell stores exactly the data byte. */
  lemma ErasedTakesData(b: byte)
    ensures AndByte(255, b) == b
  {
    assert Ones(4) == 15;
    assert Ones(8) == 255;
    AndOnes(8, b);
  }

  /** Sum of the bytes: check_sum and checkSumFun both compute it. */
  function Sum(s: seq<byte>): nat
  {
    if s == [] then 0 else Sum(s[..|s| - 1]) + s[|s| - 1]
  }

  lemma {:induction false} SumBound(s: seq<byte>)
    ensures Sum(s) <= 255 * |s|
  {
    if s != [] {
      SumBound(s[..|s| - 1]);
    }
  }

  /** The byte sum is monotone, and only equal sequences reach equality. */
  lemma {:induction false} SumMonotone(a: seq<byte>, b: seq<byte>)
    requires |a| == |b|
    requires forall i :: 0 <= i < |a| ==> a[i] <= b[i]
    ensures Sum(a) <= Sum(b)
    ensures Sum(a) == Sum(b) ==> a == b
  {
    if a != [] {
      var n := |a| - 1;
      SumMonotone(a[..n], b[..n]);
      if Sum(a) == Sum(b) {
        assert a[..n] == b[..n];
        assert a == a[..n] + [a[n]] && b == b[..n] + [b[n]];
      }
    }
  }

  const TWO_32: nat := 0x1_0000_0000

  /** Little-endian image of a 32-bit word. */
  function Le32(v: nat): (s: seq<byte>)
    requires v < TWO_32
    ensures |s| == 4
  {
    [v % 256, v / 256 % 256, v / 256 / 256 % 256, v / 256 / 256 / 256]
  }

  function Word(s: seq<byte>): (v: nat)
    requires |s| == 4
    ensures v < TWO_32
  {
    (s[0] as int) + 256 * (s[1] as int) + 65536 * (s[2] as int) + 16777216 * (s[3] as int)
  }

  lemma WordOfLe32(v: nat)
    requires v < TWO_32
    ensures Word(Le32(v)) == v
  {
  }

  lemma LowByte(b: byte, r: nat)
    ensures (b + 256 * r) % 256 == b && (b + 256 * r) / 256 == r
  {
  }

  /** And every four bytes are the bytes of one word. */
  lemma Le32OfWord(s: seq<byte>)
    requires |s| == 4
    ensures Le32(Word(s)) == s
  {
    var b := (s[2] as int) + 256 * (s[3] as int);
    var a := (s[1] as int) + 256 * b;
    assert Word(s) == s[0] + 256 * a;
    LowByte(s[0], a);
    LowByte(s[1], b);
    LowByte(s[2], s[3]);
  }

  /** memcpy of d into s at offset at. */
  function Put(s: seq<byte>, at: nat, d: seq<byte>): (r: seq<byte>)
    requires at + |d| <= |s|
    ensures |r| == |s|
  {
    s[..at] + d + s[at + |d|..]
  }

  /** A copied field reads back, and a field that does not overlap it keeps its value. */
  lemma PutField(s: seq<byte>, at: nat, d: seq<byte>, i: nat, j: nat)
    requires at + |d| <= |s| && i <= j <= |s|
    ensures Put(s, at, d)[at..at + |d|] == d
    ensures j <= at || at + |d| <= i ==> Put(s, at, d)[i..j] == s[i..j]
  {
  }

  lemma PutNothing(s: seq<byte>, at: nat, d: seq<byte>)
    requires at <= |s| && d == []
    ensures Put(s, at, d) == s
  {
  }

  lemma PutPut(s: seq<byte>, at: nat, d: seq<byte>, e: seq<byte>)
    requires at + |d| + |e| <= |s|
    ensures Put(Put(s, at, d), at + |d|, e) == Put(s, at, d + e)
  {
  }

  lemma PutPrefix(s: seq<byte>, d: seq<byte>, e: seq<byte>)
    requires |d| + |e| <= |s| && s[..|d|] == d
    ensures Put(s, |d|, e)[..|d| + |e|] == d + e && Put(s, |d|, e)[|d| + |e|..] == s[|d| + |e|..]
  {
  }

  method MemCpy(mem: array<byte>, at: nat, d: seq<byte>)
    requires at + |d| <= mem.Length
    modifies mem
    ensures mem[..] == Put(old(mem[..]), at, d)
  {
    forall i | 0 <= i < |d| {
      mem[at + i] := d[i];
    }
  }

  /** The pieces one after the other. */
  function Joined(pieces: seq<seq<byte>>): seq<byte>
  {
    if pieces == [] then [] else pieces[0] + Joined(pieces[1..])
  }

  lemma {:induction false} JoinedMore(pieces: seq<seq<byte>>, last: seq<byte>)
    ensures Joined(pieces + [last]) == Joined(pieces) + last
  {
    if pieces == [] {
      assert [last][1..] == [];
    } else {
      JoinedMore(pieces[1..], last);
      assert (pieces + [last])[1..] == pieces[1..] + [last];
    }
  }
}
