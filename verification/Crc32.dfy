/**
 The CRC-32 of `lib/crc32.c`: a table-driven update, one byte at a time, against the
 bit-serial shift register and against schoolbook division of polynomials over GF(2)
 by the generator of clause 3.2.9 of IEEE Std 802.3.

 Bytes and words are their bits, most significant first, so that a word is also the
 polynomial whose coefficients it holds, highest power first.
 */
module Crc32 {
  import Decimal

  type Bits = seq<bool>
  type Byte = b: seq<bool> | |b| == 8 witness Zeros(8)
  type Word = w: seq<bool> | |w| == 32 witness Zeros(32)

  // The source invites other polynomials of degree 32 to be put in place of this one, and
  // everything below is proved for every generator g.
  const POLYNOMIAL: Word := OfNat(0x04c11db7, 32)

  // ----- Operations on words ------------------------------------------------------

  function Zeros(n: nat): (r: Bits)
    ensures |r| == n
  {
    seq(n, _ => false)
  }

  function Ones(n: nat): (r: Bits)
    ensures |r| == n
  {
    seq(n, _ => true)
  }

  function Xor(s: Bits, t: Bits): (r: Bits)
    requires |s| == |t|
    ensures |r| == |s|
  {
    seq(|s|, i requires 0 <= i < |s| => s[i] != t[i])
  }

  function And(s: Bits, t: Bits): (r: Bits)
    requires |s| == |t|
    ensures |r| == |s|
  {
    seq(|s|, i requires 0 <= i < |s| => s[i] && t[i])
  }

  function ShiftLeft(w: Word, n: nat): (r: Word)
    requires n <= 32
  {
    w[n..] + Zeros(n)
  }

  function ShiftRight(w: Word, n: nat): (r: Word)
    requires n <= 32
  {
    Zeros(n) + w[..32 - n]
  }

  function LowByteMask(): (r: Word) {
    Zeros(24) + Ones(8)
  }

  // The n low bits of a number, and the number that bits stand for.
  function OfNat(k: nat, n: nat): (r: Bits)
    ensures |r| == n
    decreases n, k
  {
    if n == 0 then [] else OfNat(k / 2, n - 1) + [k % 2 == 1]
  }

  function ToNat(s: Bits): nat
    decreases |s|
  {
    if s == [] then 0 else 2 * ToNat(s[..|s| - 1]) + (if s[|s| - 1] then 1 else 0)
  }

  lemma {:induction false} OfToNat(s: Bits)
    ensures OfNat(ToNat(s), |s|) == s
    decreases |s|
  {
    if s != [] {
      OfToNat(s[..|s| - 1]);
    }
  }

  lemma {:induction false} ToNatBound(n: nat, s: Bits)
    ensures ToNat(Zeros(n) + s) < Decimal.Pow2(|s|)
    decreases n + |s|
  {
    var z := Zeros(n) + s;
    if s != [] {
      ToNatBound(n, s[..|s| - 1]);
      assert z[..|z| - 1] == Zeros(n) + s[..|s| - 1];
    } else if n > 0 {
      ToNatBound(n - 1, s);
      assert z[..|z| - 1] == Zeros(n - 1) + s;
    }
  }

  // ----- The two registers --------------------------------------------------------

  // One step with no input: multiplication by x modulo the generator.
  function TimesX(g: Word, a: Word): Word {
    if a[0] then Xor(ShiftLeft(a, 1), g) else ShiftLeft(a, 1)
  }

  function TimesXn(g: Word, a: Word, n: nat): Word
    decreases n, a
  {
    if n == 0 then a else TimesXn(g, TimesX(g, a), n - 1)
  }

  // The hardware register: the message bit is added to the bit that falls out.
  function ShiftBit(g: Word, a: Word, bit: bool): Word {
    TimesX(g, a[0 := a[0] != bit])
  }

  function Serial(g: Word, a: Word, bits: Bits): Word
    decreases |bits|
  {
    if bits == [] then a else Serial(g, ShiftBit(g, a, bits[0]), bits[1..])
  }

  function MessageBits(data: seq<Byte>): Bits {
    if data == [] then [] else data[0] + MessageBits(data[1..])
  }

  // Byte by byte, and of every byte the most significant bit first.
  lemma {:induction false} MessageBitsAt(data: seq<Byte>, i: nat, j: nat)
    requires i < |data| && j < 8
    ensures |MessageBits(data)| == 8 * |data| && MessageBits(data)[8 * i + j] == data[i][j]
    decreases |data|
  {
    if i > 0 {
      MessageBitsAt(data[1..], i - 1, j);
    } else if |data| > 1 {
      MessageBitsAt(data[1..], 0, j);
    }
  }

  function Crc(g: Word, a: Word, data: seq<Byte>): Word {
    Serial(g, a, MessageBits(data))
  }

  // ----- Linearity ----------------------------------------------------------------

  lemma TimesXLinear(g: Word, a: Word, b: Word)
    ensures TimesX(g, Xor(a, b)) == Xor(TimesX(g, a), TimesX(g, b))
  {
  }

  lemma {:induction false} TimesXnLinear(g: Word, a: Word, b: Word, n: nat)
    ensures TimesXn(g, Xor(a, b), n) == Xor(TimesXn(g, a, n), TimesXn(g, b, n))
    decreases n
  {
    if n > 0 {
      TimesXLinear(g, a, b);
      TimesXnLinear(g, TimesX(g, a), TimesX(g, b), n - 1);
    }
  }

  // The checksum of a sum of messages is the sum of their checksums.
  lemma {:induction false} SerialLinear(g: Word, a: Word, b: Word, s: Bits, t: Bits)
    requires |s| == |t|
    ensures Serial(g, Xor(a, b), Xor(s, t)) == Xor(Serial(g, a, s), Serial(g, b, t))
    decreases |s|
  {
    if s != [] {
      var a', b' := a[0 := a[0] != s[0]], b[0 := b[0] != t[0]];
      assert Xor(a, b)[0 := Xor(a, b)[0] != Xor(s, t)[0]] == Xor(a', b');
      TimesXLinear(g, a', b');
      assert Xor(s, t)[1..] == Xor(s[1..], t[1..]);
      SerialLinear(g, ShiftBit(g, a, s[0]), ShiftBit(g, b, t[0]), s[1..], t[1..]);
    }
  }

  lemma {:induction false} SerialAppend(g: Word, a: Word, s: Bits, t: Bits)
    ensures Serial(g, a, s + t) == Serial(g, Serial(g, a, s), t)
    decreases |s|
  {
    if s == [] {
      assert s + t == t;
    } else {
      assert (s + t)[1..] == s[1..] + t;
      SerialAppend(g, ShiftBit(g, a, s[0]), s[1..], t);
    }
  }

  lemma {:induction false} MessageBitsAppend(s: seq<Byte>, t: seq<Byte>)
    ensures MessageBits(s + t) == MessageBits(s) + MessageBits(t)
    decreases |s|
  {
    if s == [] {
      assert s + t == t;
    } else {
      assert (s + t)[1..] == s[1..] + t;
      MessageBitsAppend(s[1..], t);
    }
  }

  // Adding up to 32 message bits up front and then shifting is the same as adding each
  // of them as it is needed.
  lemma {:induction false} SerialUpFront(g: Word, a: Word, bits: Bits)
    requires |bits| <= 32
    ensures Serial(g, a, bits) == TimesXn(g, Xor(a, bits + Zeros(32 - |bits|)), |bits|)
    decreases |bits|
  {
    var w := bits + Zeros(32 - |bits|);
    if bits == [] {
      assert Xor(a, w) == a;
    } else {
      var w' := bits[1..] + Zeros(32 - |bits[1..]|);
      assert ShiftLeft(w, 1) == w';
      assert TimesX(g, Xor(a, w)) == Xor(ShiftBit(g, a, bits[0]), w');
      SerialUpFront(g, ShiftBit(g, a, bits[0]), bits[1..]);
    }
  }

  // Leading zeros fall out without feedback.
  lemma {:induction false} ShiftOut(g: Word, s: Bits, n: nat)
    requires |s| + n == 32
    ensures TimesXn(g, Zeros(n) + s, n) == s + Zeros(n)
    decreases n
  {
    if n > 0 {
      assert TimesX(g, Zeros(n) + s) == Zeros(n - 1) + (s + [false]);
      ShiftOut(g, s + [false], n - 1);
      assert (s + [false]) + Zeros(n - 1) == s + Zeros(n);
    } else {
      assert Zeros(n) + s == s == s + Zeros(n);
    }
  }

  // Feeding a register its own content leaves it empty.
  lemma Residue(g: Word, a: Word)
    ensures Serial(g, a, a) == Zeros(32)
  {
    SerialUpFront(g, a, a);
    assert Xor(a, a + Zeros(0)) == Zeros(32) == Zeros(32) + [];
    ShiftOut(g, [], 32);
  }

  // The message followed by its own CRC, most significant byte first, leaves nothing.
  lemma CrcOfCodewordIsZero(g: Word, a: Word, data: seq<Byte>)
    ensures var c := Crc(g, a, data);
            Crc(g, a, data + [c[..8], c[8..16], c[16..24], c[24..]]) == Zeros(32)
  {
    var c := Crc(g, a, data);
    var tail := [c[..8], c[8..16], c[16..24], c[24..]];
    MessageBitsAppend(data, tail);
    assert MessageBits(tail) == c by {
      assert MessageBits(tail[3..]) == c[24..] + MessageBits(tail[3..][1..]) == c[24..];
      assert MessageBits(tail[2..]) == c[16..24] + MessageBits(tail[2..][1..]);
      assert tail[2..][1..] == tail[3..];
      assert MessageBits(tail[1..]) == c[8..16] + MessageBits(tail[1..][1..]);
      assert tail[1..][1..] == tail[2..];
    }
    SerialAppend(g, a, MessageBits(data), c);
    Residue(g, c);
  }

  // ----- Polynomial division ------------------------------------------------------

  // The generator with its leading coefficient.
  function Generator(g: Word): (r: Bits)
    ensures |r| == 33
  {
    [true] + g
  }

  // Schoolbook division: subtract the generator under the leading coefficient.
  function Remainder(g: Word, m: Bits): Word
    requires |m| >= 32
    decreases |m|
  {
    if |m| == 32 then m else Remainder(g, Subtracted(g, m))
  }

  function Subtracted(g: Word, m: Bits): (r: Bits)
    requires |m| > 32
    ensures |r| == |m| - 1
  {
    seq(|m| - 1, i requires 0 <= i < |m| - 1 =>
      if m[0] && i < 32 then m[i + 1] != g[i] else m[i + 1])
  }

  // The product of a polynomial and the generator.
  function TimesGenerator(g: Word, q: Bits): (r: Bits)
    ensures |r| == |q| + 32
    decreases |q|
  {
    if q == [] then Zeros(32)
    else Xor(Multiple(g, q[0], |q| - 1), [false] + TimesGenerator(g, q[1..]))
  }

  // The generator with n zeros behind it, or nothing.
  function Multiple(g: Word, bit: bool, n: nat): (r: Bits)
    ensures |r| == n + 33
  {
    if bit then Generator(g) + Zeros(n) else Zeros(n + 33)
  }

  // Remainder is the remainder: m is a multiple of the generator plus it.
  lemma {:induction false} RemainderExists(g: Word, m: Bits) returns (q: Bits)
    requires |m| >= 32
    ensures |q| + 32 == |m|
    ensures m == Xor(TimesGenerator(g, q), Zeros(|q|) + Remainder(g, m))
    decreases |m|
  {
    if |m| == 32 {
      q := [];
    } else {
      var m' := Subtracted(g, m);
      var q' := RemainderExists(g, m');
      q := [m[0]] + q';
      assert q[1..] == q';
      var h := if q[0] then Generator(g) + Zeros(|q'|) else Zeros(|q'| + 33);
      assert |h| == |m|;
      assert TimesGenerator(g, q) == Xor(h, [false] + TimesGenerator(g, q'));
      SubtractedStep(g, m, h, TimesGenerator(g, q'), Zeros(|q'|) + Remainder(g, m'));
      assert Zeros(|q|) + Remainder(g, m) == [false] + (Zeros(|q'|) + Remainder(g, m'));
    }
  }

  lemma SubtractedStep(g: Word, m: Bits, h: Bits, p: Bits, r: Bits)
    requires |m| > 32 && |p| == |r| == |m| - 1
    requires h == if m[0] then Generator(g) + Zeros(|m| - 33) else Zeros(|m|)
    requires Subtracted(g, m) == Xor(p, r)
    ensures m == Xor(Xor(h, [false] + p), [false] + r)
  {
    var m' := [false] + Subtracted(g, m);
    forall i | 0 <= i < |m| ensures m[i] == (h[i] != m'[i]) {
      if 0 < i {
        assert m'[i] == Subtracted(g, m)[i - 1];
      }
    }
    assert m' == Xor([false] + p, [false] + r);
  }

  // And there is no other: whatever is left over from a multiple of the generator is it.
  lemma {:induction false} RemainderUnique(g: Word, m: Bits, q: Bits, r: Word)
    requires |m| == |q| + 32 && m == Xor(TimesGenerator(g, q), Zeros(|q|) + r)
    ensures r == Remainder(g, m)
    decreases |q|
  {
    hide Xor, Raised;
    if |q| == 0 {
      NothingDivided(g, m, q, r);
    } else {
      ProductStep(g, q);
      LeftOverStep(g, m, q[0], TimesGenerator(g, q), TimesGenerator(g, q[1..]), r);
      RemainderUnique(g, Subtracted(g, m), q[1..], r);
    }
  }

  // p is p' with the generator, times a bit, added under its leading coefficient.
  ghost predicate Raised(g: Word, bit: bool, p: Bits, p': Bits) {
    |p| == |p'| + 1 && p[0] == bit
    && forall i :: 0 <= i < |p'| ==> p[i + 1] == ((bit && i < 32 && g[i]) != p'[i])
  }

  lemma NothingDivided(g: Word, m: Bits, q: Bits, r: Word)
    requires |q| == 0 && |m| == 32 && m == Xor(TimesGenerator(g, q), Zeros(|q|) + r)
    ensures m == r
  {
    assert Zeros(0) + r == r && TimesGenerator(g, q) == Zeros(32);
  }

  lemma LeftOverStep(g: Word, m: Bits, bit: bool, p: Bits, p': Bits, r: Word)
    requires |m| == |p| == |p'| + 1 > 32 && m == Xor(p, Zeros(|p| - 32) + r) && Raised(g, bit, p, p')
    ensures Subtracted(g, m) == Xor(p', Zeros(|p'| - 32) + r)
  {
    var z, z' := Zeros(|p| - 32) + r, Zeros(|p'| - 32) + r;
    assert m[0] == bit && forall i :: 0 <= i < |p'| ==> z[i + 1] == z'[i];
    forall i | 0 <= i < |p'| ensures Subtracted(g, m)[i] == Xor(p', z')[i] {
      assert m[i + 1] == (p[i + 1] != z[i + 1]);
    }
  }

  lemma ProductStep(g: Word, q: Bits)
    requires |q| > 0
    ensures Raised(g, q[0], TimesGenerator(g, q), TimesGenerator(g, q[1..]))
  {
    hide Generator, TimesGenerator;
    ProductParts(g, q);
    var h := Multiple(g, q[0], |q| - 1);
    MultipleBits(g, q[0], |q| - 1);
    forall i | 0 <= i < |q| + 31
      ensures Xor(h, [false] + TimesGenerator(g, q[1..]))[i + 1]
           == ((q[0] && i < 32 && g[i]) != TimesGenerator(g, q[1..])[i])
    {
      assert h[i + 1] == (q[0] && i < 32 && g[i]);
    }
  }

  lemma MultipleBits(g: Word, bit: bool, n: nat)
    ensures var h := Multiple(g, bit, n);
            h[0] == bit && forall i :: 0 <= i < n + 32 ==> h[i + 1] == (bit && i < 32 && g[i])
  {
    GeneratorBits(g, n);
  }

  lemma ProductParts(g: Word, q: Bits)
    requires |q| > 0
    ensures TimesGenerator(g, q) == Xor(Multiple(g, q[0], |q| - 1), [false] + TimesGenerator(g, q[1..]))
  {
  }

  lemma GeneratorBits(g: Word, n: nat)
    ensures var x := Generator(g) + Zeros(n);
            x[0] && forall i :: 0 <= i < n + 32 ==> x[i + 1] == (i < 32 && g[i])
  {
  }

  // The register of long division takes the next coefficient at its low end.
  function BringDown(g: Word, r: Word, bits: Bits): Word
    decreases |bits|
  {
    if bits == [] then r
    else var t := TimesX(g, r); BringDown(g, t[31 := t[31] != bits[0]], bits[1..])
  }

  lemma {:induction false} BringDownIsRemainder(g: Word, r: Word, bits: Bits)
    ensures Remainder(g, r + bits) == BringDown(g, r, bits)
    decreases |bits|
  {
    var m := r + bits;
    if bits == [] {
      assert m == r;
    } else {
      var t := TimesX(g, r);
      var r' := t[31 := t[31] != bits[0]];
      BringDownIsRemainder(g, r', bits[1..]);
      BroughtDown(g, r, bits);
    }
  }

  lemma BroughtDown(g: Word, r: Word, bits: Bits)
    requires bits != []
    ensures var t := TimesX(g, r); Subtracted(g, r + bits) == t[31 := t[31] != bits[0]] + bits[1..]
  {
    var m, t := r + bits, TimesX(g, r);
    var r' := t[31 := t[31] != bits[0]] + bits[1..];
    forall i | 0 <= i < |m| - 1 ensures Subtracted(g, m)[i] == r'[i] {
      if i < 31 {
        assert m[i + 1] == r[i + 1];
      } else {
        assert m[i + 1] == bits[i - 31];
      }
    }
  }

  // The shift register runs 32 multiplications by x ahead of long division.
  lemma {:induction false} RegisterRunsAhead(g: Word, r: Word, bits: Bits)
    ensures Serial(g, TimesXn(g, r, 32), bits) == BringDown(g, r, bits + Zeros(32))
    decreases |bits|
  {
    if bits == [] {
      assert bits + Zeros(32) == Zeros(32);
      BringDownZeros(g, r, 32);
    } else {
      var t := TimesX(g, r);
      assert (bits + Zeros(32))[1..] == bits[1..] + Zeros(32);
      RegisterRunsAhead(g, t[31 := t[31] != bits[0]], bits[1..]);
      RegisterStep(g, r, bits[0]);
    }
  }

  lemma RegisterStep(g: Word, r: Word, bit: bool)
    ensures var t := TimesX(g, r);
            ShiftBit(g, TimesXn(g, r, 32), bit) == TimesXn(g, t[31 := t[31] != bit], 32)
  {
    var t, one, z := TimesX(g, r), Zeros(31) + [bit], TimesXn(g, r, 32);
    assert t[31 := t[31] != bit] == Xor(t, one);
    TimesXnLinear(g, t, one, 32);
    TimesXnCommutes(g, r, 32);
    OneTimesX32(g, bit);
    assert ShiftBit(g, z, bit) == Xor(TimesX(g, z), if bit then g else Zeros(32));
  }

  lemma {:induction false} BringDownZeros(g: Word, r: Word, n: nat)
    ensures BringDown(g, r, Zeros(n)) == TimesXn(g, r, n)
    decreases n
  {
    if n > 0 {
      assert Zeros(n) == [false] + Zeros(n - 1);
      var t := TimesX(g, r);
      assert t[31 := t[31] != false] == t;
      BringDownZeros(g, t, n - 1);
    }
  }

  lemma {:induction false} TimesXnCommutes(g: Word, r: Word, n: nat)
    ensures TimesXn(g, TimesX(g, r), n) == TimesX(g, TimesXn(g, r, n))
    decreases n
  {
    if n > 0 {
      TimesXnCommutes(g, TimesX(g, r), n - 1);
    }
  }

  // x to the 32 is the generator without its leading coefficient.
  lemma OneTimesX32(g: Word, bit: bool)
    ensures TimesXn(g, Zeros(31) + [bit], 32) == if bit then g else Zeros(32)
  {
    ShiftOut(g, [bit], 31);
    TimesXnCommutes(g, Zeros(31) + [bit], 31);
    assert TimesX(g, [bit] + Zeros(31)) == if bit then g else Zeros(32);
  }

  // The CRC is the remainder of the message, with the initial accumulator added to its
  // leading coefficients, times x to the 32.
  lemma CrcIsRemainder(g: Word, a: Word, data: seq<Byte>)
    ensures var m := MessageBits(data) + Zeros(32);
            Crc(g, a, data) == Remainder(g, Xor(m, a + Zeros(|m| - 32)))
  {
    var bits := MessageBits(data);
    var m, n := bits + Zeros(32), |bits|;
    var zero := Zeros(32);
    assert Xor(zero, a) == a && Xor(bits, Zeros(n)) == bits;
    SerialLinear(g, zero, a, bits, Zeros(n));
    assert Serial(g, zero, bits) == BringDown(g, zero, m) by {
      ShiftOut(g, [], 32);
      assert Zeros(32) + [] == zero == [] + Zeros(32);
      RegisterRunsAhead(g, zero, bits);
    }
    SerialZeros(g, a, n);
    BringDownLoad(g, a, n);
    BringDownLinear(g, zero, zero, m, a + Zeros(n));
    var am := Xor(m, a + Zeros(n));
    assert Xor(zero, zero) == zero;
    BringDownIsRemainder(g, zero, am);
    RemainderLeadingZeros(g, 32, am);
  }

  lemma {:induction false} SerialZeros(g: Word, a: Word, n: nat)
    ensures Serial(g, a, Zeros(n)) == TimesXn(g, a, n)
    decreases n
  {
    if n > 0 {
      assert Zeros(n) == [false] + Zeros(n - 1);
      assert a[0 := false != a[0]] == a;
      SerialZeros(g, TimesX(g, a), n - 1);
    }
  }

  lemma {:induction false} BringDownLinear(g: Word, r: Word, u: Word, s: Bits, t: Bits)
    requires |s| == |t|
    ensures BringDown(g, Xor(r, u), Xor(s, t)) == Xor(BringDown(g, r, s), BringDown(g, u, t))
    decreases |s|
  {
    if s != [] {
      TimesXLinear(g, r, u);
      var r', u', v' := TimesX(g, r), TimesX(g, u), TimesX(g, Xor(r, u));
      var r'', u'' := r'[31 := r'[31] != s[0]], u'[31 := u'[31] != t[0]];
      assert v'[31 := v'[31] != Xor(s, t)[0]] == Xor(r'', u'');
      assert Xor(s, t)[1..] == Xor(s[1..], t[1..]);
      BringDownLinear(g, r'', u'', s[1..], t[1..]);
    }
  }

  // Loading a word into an empty register, then n zeros.
  lemma BringDownLoad(g: Word, a: Word, n: nat)
    ensures BringDown(g, Zeros(32), a + Zeros(n)) == TimesXn(g, a, n)
  {
    BringDownIsRemainder(g, Zeros(32), a + Zeros(n));
    RemainderLeadingZeros(g, 32, a + Zeros(n));
    BringDownIsRemainder(g, a, Zeros(n));
    BringDownZeros(g, a, n);
  }

  lemma {:induction false} RemainderLeadingZeros(g: Word, k: nat, m: Bits)
    requires |m| >= 32
    ensures Remainder(g, Zeros(k) + m) == Remainder(g, m)
    decreases k
  {
    if k > 0 {
      assert Subtracted(g, Zeros(k) + m) == Zeros(k - 1) + m;
      RemainderLeadingZeros(g, k - 1, m);
    } else {
      assert Zeros(k) + m == m;
    }
  }

  // ----- The table step -----------------------------------------------------------

  function SignExtend(b: Byte): (r: Word) {
    (if b[0] then Ones(24) else Zeros(24)) + b
  }

  function TableIndex(a: Word, b: Byte): (r: Word) {
    And(Xor(ShiftRight(a, 24), SignExtend(b)), LowByteMask())
  }

  lemma TableIndexInRange(a: Word, b: Byte)
    ensures ToNat(TableIndex(a, b)) < 256
    ensures OfNat(ToNat(TableIndex(a, b)), 32) == TableIndex(a, b)
  {
    var i := TableIndex(a, b);
    assert i == Zeros(24) + i[24..];
    ToNatBound(24, i[24..]);
    OfToNat(i);
  }

  // The table step of update_crc performs eight steps of the register.
  lemma TableStep(g: Word, a: Word, b: Byte)
    ensures Xor(ShiftLeft(a, 8), TimesXn(g, ShiftLeft(TableIndex(a, b), 24), 8)) == Serial(g, a, b)
  {
    var lo, hi := Zeros(8) + a[8..], ShiftLeft(TableIndex(a, b), 24);
    SerialUpFront(g, a, b);
    SplitTop(a, b);
    TimesXnLinear(g, lo, hi, 8);
    ShiftOut(g, a[8..], 8);
  }

  // The low bits of the register, and its high byte together with the data.
  lemma SplitTop(a: Word, b: Byte)
    ensures Xor(a, b + Zeros(24)) == Xor(Zeros(8) + a[8..], ShiftLeft(TableIndex(a, b), 24))
  {
    var x, y := Xor(a, b + Zeros(24)), Xor(Zeros(8) + a[8..], ShiftLeft(TableIndex(a, b), 24));
    forall i | 0 <= i < 32 ensures x[i] == y[i] {
    }
  }

  // ----- The generator ------------------------------------------------------------

  // The powers of x in the generator of the Autodin, Ethernet and ADCCP standards.
  const EXPONENTS: set<nat> := {32, 26, 23, 22, 16, 12, 11, 10, 8, 7, 5, 4, 2, 1, 0}

  // The generator is the sum of exactly those powers.
  ghost predicate IsStandard(g: Word) {
    forall k: nat :: k <= 32 ==> (Generator(g)[32 - k] <==> k in EXPONENTS)
  }

  function Nibble(d: nat): (r: Bits)
    ensures |r| == 4
  {
    [d / 8 % 2 == 1, d / 4 % 2 == 1, d / 2 % 2 == 1, d % 2 == 1]
  }
  lemma OfNatHalf(k: nat, q: nat, n: nat)
    requires q == k / 2
    ensures OfNat(k, n + 1) == OfNat(q, n) + [k % 2 == 1]
  {
  }

  lemma OfNatNibble(q: nat, d: nat, n: nat)
    requires d < 16
    ensures OfNat(16 * q + d, n + 4) == OfNat(q, n) + Nibble(d)
  {
    hide OfNat;
    OfNatHalf(16 * q + d, 8 * q + d / 2, n + 3);
    OfNatHalf(8 * q + d / 2, 4 * q + d / 4, n + 2);
    OfNatHalf(4 * q + d / 4, 2 * q + d / 8, n + 1);
    OfNatHalf(2 * q + d / 8, q, n);
  }
  lemma PolynomialIsStandard()
    ensures IsStandard(POLYNOMIAL)
  {
    hide OfNat;
    PolynomialIs();
  }

  lemma PolynomialIs()
    ensures POLYNOMIAL == [false, false, false, false, false, true, false, false,
                           true, true, false, false, false, false, false, true,
                           false, false, false, true, true, true, false, true,
                           true, false, true, true, false, true, true, true]
  {
    hide OfNat, Nibble;
    OfNatNibble(0x04c11db, 0x7, 28);
    OfNatNibble(0x04c11d, 0xb, 24);
    OfNatNibble(0x04c11, 0xd, 20);
    OfNatNibble(0x04c1, 0x1, 16);
    HighHalf();
    Nibbles();
  }

  lemma HighHalf()
    ensures OfNat(0x04c1, 16) == [false, false, false, false, false, true, false, false,
                                  true, true, false, false, false, false, false, true]
  {
    hide OfNat, Nibble;
    OfNatNibble(0x04c, 0x1, 12);
    OfNatNibble(0x04, 0xc, 8);
    OfNatNibble(0, 0x4, 4);
    OfNatNibble(0, 0, 0);
    Nibbles();
    assert |OfNat(0, 0)| == 0;
  }

  lemma Nibbles()
    ensures Nibble(0) == [false, false, false, false] && Nibble(1) == [false, false, false, true]
    ensures Nibble(4) == [false, true, false, false] && Nibble(7) == [false, true, true, true]
    ensures Nibble(0xb) == [true, false, true, true] && Nibble(0xc) == [true, true, false, false]
    ensures Nibble(0xd) == [true, true, false, true]
  {
  }

  // ----- The code -----------------------------------------------------------------

  function TableEntry(g: Word, i: nat): Word {
    TimesXn(g, ShiftLeft(OfNat(i, 32), 24), 8)
  }

  ghost predicate TableFilled(g: Word, table: seq<Word>) {
    forall i :: 0 <= i < |table| ==> table[i] == TableEntry(g, i)
  }

  ghost predicate IsCrcTable(g: Word, table: seq<Word>) {
    |table| == 256 && TableFilled(g, table)
  }

  /** The static variables of the file and its two functions. */
  class CrcState {
    var initialized: bool
    const polynomial: Word
    const crcTable: array<Word>

    ghost predicate Valid()
      reads this, crcTable
    {
      crcTable.Length == 256 && (initialized ==> IsCrcTable(polynomial, crcTable[..]))
    }

    constructor ()
      ensures Valid() && fresh(crcTable) && polynomial == POLYNOMIAL && IsStandard(polynomial)
    {
      PolynomialIsStandard();
      polynomial := POLYNOMIAL;
      crcTable := new Word[256];
      initialized := false;
    }

    method GenCrcTable()
      requires crcTable.Length == 256
      modifies crcTable
      ensures IsCrcTable(polynomial, crcTable[..])
    {
      hide TableEntry;
      var i := 0;
      while i < 256
        invariant 0 <= i <= 256
        invariant TableFilled(polynomial, crcTable[..i])
      {
        var crcAccum := ShiftByte(i);
        ghost var filled := crcTable[..i];
        crcTable[i] := crcAccum;
        assert crcTable[..i + 1] == filled + [crcAccum];
        i := i + 1;
      }
      assert crcTable[..256] == crcTable[..];
    }

    // The inner loop: the register after one byte.
    method ShiftByte(i: nat) returns (crcAccum: Word)
      ensures crcAccum == TableEntry(polynomial, i)
    {
      hide TimesXn, OfNat;
      crcAccum := ShiftLeft(OfNat(i, 32), 24);
      ghost var entry := TableEntry(polynomial, i);
      var j := 0;
      while j < 8
        invariant 0 <= j <= 8
        invariant TimesXn(polynomial, crcAccum, 8 - j) == entry
      {
        TimesXnStep(polynomial, crcAccum, 8 - j);
        if crcAccum[0] {
          crcAccum := Xor(ShiftLeft(crcAccum, 1), polynomial);
        } else {
          crcAccum := ShiftLeft(crcAccum, 1);
        }
        j := j + 1;
      }
      TimesXnNone(polynomial, crcAccum);
    }

    method UpdateCrc(accum: Word, data: seq<Byte>) returns (crcAccum: Word)
      requires Valid()
      modifies this, crcTable
      ensures Valid() && initialized
      ensures crcAccum == Crc(polynomial, accum, data)
    {
      if !initialized {
        initialized := true;
        GenCrcTable();
      }
      crcAccum := accum;
      var j := 0;
      while j < |data|
        invariant 0 <= j <= |data|
        invariant initialized && Valid()
        invariant Crc(polynomial, crcAccum, data[j..]) == Crc(polynomial, accum, data)
      {
        var i := And(Xor(ShiftRight(crcAccum, 24), SignExtend(data[j])), LowByteMask());
        TableIndexInRange(crcAccum, data[j]);
        TableStep(polynomial, crcAccum, data[j]);
        SerialAppend(polynomial, crcAccum, data[j], MessageBits(data[j + 1..]));
        assert data[j..][1..] == data[j + 1..];
        crcAccum := Xor(ShiftLeft(crcAccum, 8), crcTable[ToNat(i)]);
        j := j + 1;
      }
    }
  }

  lemma TimesXnStep(g: Word, a: Word, n: nat)
    requires n > 0
    ensures TimesXn(g, a, n) == TimesXn(g, TimesX(g, a), n - 1)
  {
  }

  lemma TimesXnNone(g: Word, a: Word)
    ensures TimesXn(g, a, 0) == a
  {
  }
}
