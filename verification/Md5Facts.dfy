/** What the operations of MD5 compute: bit by bit, as arithmetic, and as 32-bit machine words. */
module Md5Facts {
  import opened Words
  import opened Md5

  // ----- The auxiliary functions, bit by bit -----

  /** Where x has a one, F has the bit of y, and elsewhere that of z. */
  lemma FSelects(x: bv32, y: bv32, z: bv32)
    ensures F(x, y, z) & x == y & x
    ensures F(x, y, z) & !x == z & !x
  {
  }

  /** Where z has a one, G has the bit of x, and elsewhere that of y. */
  lemma GSelects(x: bv32, y: bv32, z: bv32)
    ensures G(x, y, z) & z == x & z
    ensures G(x, y, z) & !z == y & !z
  {
  }

  /** H is parity: the bit of x where y and z have zeros, and turning bits of one of them turns the same bits. */
  lemma HIsParity(x: bv32, y: bv32, z: bv32)
    ensures H(x, y, z) & !(y | z) == x & !(y | z)
  {
  }

  lemma HTurnsX(x: bv32, y: bv32, z: bv32, m: bv32)
    ensures H(x ^ m, y, z) == H(x, y, z) ^ m
  {
  }

  lemma HTurnsY(x: bv32, y: bv32, z: bv32, m: bv32)
    ensures H(x, y ^ m, z) == H(x, y, z) ^ m
  {
  }

  lemma HTurnsZ(x: bv32, y: bv32, z: bv32, m: bv32)
    ensures H(x, y, z ^ m) == H(x, y, z) ^ m
  {
  }

  /** I has the bit of y where x has a zero and z a one, and elsewhere the other one. */
  lemma ITurns(x: bv32, y: bv32, z: bv32)
    ensures I(x, y, z) & (!x & z) == y & (!x & z)
    ensures I(x, y, z) & !(!x & z) == !y & !(!x & z)
  {
  }

  // ----- Words and their values -----

  lemma WordOfValue(v: bv32)
    ensures Word(Value(v)) == v
  {
  }

  lemma SameValue(y: bv32, z: bv32)
    requires Value(y) == Value(z)
    ensures y == z
  {
    hide Value, Word;
    WordOfValue(y);
    WordOfValue(z);
  }

  /** A word from its upper bits and its lowest. */
  function Double(u: bv32, odd: bool): bv32 { if odd then (u << 1) | 1 else u << 1 }
  function Half(x: bv32): bv32 { x >> 1 }
  predicate Odd(x: bv32) { x & 1 == 1 }

  lemma ShiftIs(u: bv32)
    requires u as int < 0x8000_0000
    ensures (u << 1) as int == 2 * u as int
  {
  }

  lemma WithOneIs(u: bv32)
    ensures ((u << 1) | 1) as int == (u << 1) as int + 1
  {
  }

  lemma DoubleIs(u: bv32)
    requires Value(u) < 0x8000_0000
    ensures Value(u << 1) == 2 * Value(u) && Value((u << 1) | 1) == 2 * Value(u) + 1
  {
    ShiftIs(u);
    WithOneIs(u);
  }

  lemma DoubleValue(u: bv32, odd: bool)
    requires Value(u) < 0x8000_0000
    ensures Value(Double(u, odd)) == 2 * Value(u) + if odd then 1 else 0
  {
    DoubleIs(u);
    hide Value;
  }

  lemma Zero()
    ensures Value(0) == 0
  {
  }

  /** Every number of 32 bits is the value of a word. */
  lemma {:induction false} BitsOf(x: u32) returns (v: bv32)
    ensures Value(v) == x
  {
    hide Value, Double;
    if x == 0 {
      v := 0;
      Zero();
    } else {
      var u := BitsOf(x / 2);
      DoubleValue(u, x % 2 == 1);
      v := Double(u, x % 2 == 1);
    }
  }

  lemma ValueOfWord(x: u32)
    ensures Value(Word(x)) == x
  {
    hide Value, Word;
    var v := BitsOf(x);
    WordOfValue(v);
  }

  // ----- Addition of words -----

  lemma HalfSmall(x: bv32)
    ensures (x >> 1) & 0x8000_0000 == 0
  {
  }

  lemma SmallShiftIs(u: bv32)
    requires u & 0x8000_0000 == 0
    ensures (u << 1) as int == 2 * u as int
  {
  }

  lemma SmallIs(u: bv32)
    requires u & 0x8000_0000 == 0
    ensures Value(u) < 0x8000_0000
  {
    SmallShiftIs(u);
    assert Value(u << 1) < 0x1_0000_0000;
  }

  lemma HalfValue(x: bv32)
    ensures Value(Half(x)) < 0x8000_0000
  {
    HalfSmall(x);
    SmallIs(x >> 1);
    hide Value;
  }

  lemma NotOdd(x: bv32)
    ensures !Odd(x) ==> x & 1 == 0
  {
  }

  lemma EvenHalf(x: bv32)
    requires x & 1 == 0
    ensures x == (x >> 1) << 1
  {
  }

  lemma OddHalf(x: bv32)
    requires x & 1 == 1
    ensures x == ((x >> 1) << 1) | 1
  {
  }

  lemma DoubleHalf(x: bv32)
    ensures x == Double(Half(x), Odd(x))
  {
    NotOdd(x);
    if Odd(x) { OddHalf(x); } else { EvenHalf(x); }
  }

  lemma AfterEven(u: bv32)
    ensures (u << 1) + 1 == (u << 1) | 1
  {
  }

  lemma AfterOdd(u: bv32)
    ensures ((u << 1) | 1) + 1 == (u + 1) << 1
  {
  }

  lemma NextEven(u: bv32)
    requires Value(u) < 0x8000_0000
    ensures Value((u << 1) + 1) == 2 * Value(u) + 1
  {
    DoubleIs(u);
    hide Value;
    AfterEven(u);
  }

  lemma NextOdd(u: bv32)
    requires Value(u) < 0x7fff_ffff && Value(u + 1) == Value(u) + 1
    ensures Value(((u << 1) | 1) + 1) == 2 * Value(u) + 2
  {
    hide Value;
    DoubleIs(u + 1);
    AfterOdd(u);
  }

  lemma NextDouble(x: bv32, u: bv32, odd: bool)
    requires x == Double(u, odd) && Value(u) < 0x8000_0000
    requires odd ==> Value(u) < 0x7fff_ffff && Value(u + 1) == Value(u) + 1
    ensures Value(x + 1) == 2 * Value(u) + if odd then 2 else 1
  {
    hide Value;
    if odd { NextOdd(u); } else { NextEven(u); }
  }

  function Plus(x: bv32, y: bv32): bv32 { x + y }

  lemma {:induction false} NextIs(x: bv32)
    requires Value(x) < 0xffff_ffff
    ensures Value(x + 1) == Value(x) + 1
    decreases Value(x)
  {
    hide Value, Double, Odd, Half;
    var u, odd := Half(x), Odd(x);
    HalfValue(x);
    DoubleHalf(x);
    DoubleValue(u, odd);
    if odd { NextIs(u); }
    NextDouble(x, u, odd);
  }

  lemma AfterAll(x: bv32)
    requires Value(x) == 0xffff_ffff
    ensures x + 1 == 0
  {
    assert x as int == 0xffff_ffff;
  }

  lemma NextWraps(x: bv32)
    ensures Value(x + 1) == Wrap32(Value(x) + 1)
  {
    Zero();
    hide Value;
    if Value(x) == 0xffff_ffff { AfterAll(x); } else { NextIs(x); }
  }

  lemma Before(y: bv32) returns (z: bv32)
    requires Value(y) > 0
    ensures y == z + 1 && Value(z) == Value(y) - 1
  {
    hide Value;
    z := BitsOf(Value(y) - 1);
    NextIs(z);
    SameValue(y, z + 1);
  }

  lemma PlusNext(x: bv32, z: bv32)
    ensures Plus(x, z + 1) == Plus(x + 1, z)
  {
  }

  lemma PlusNothing(x: bv32, y: bv32)
    requires Value(y) == 0
    ensures Plus(x, y) == x
  {
  }

  /** Adding words is adding their values modulo 2^32. */
  lemma {:induction false} PlusIs(x: bv32, y: bv32)
    ensures Value(Plus(x, y)) == Wrap32(Value(x) + Value(y))
    decreases Value(y)
  {
    hide Value, Wrap32, Plus;
    if Value(y) == 0 {
      PlusNothing(x, y);
      InRange(Value(x));
    } else {
      var z := Before(y);
      PlusNext(x, z);
      PlusIs(x + 1, z);
      NextWraps(x);
      WrapSum(Value(x) + 1, Value(z));
    }
  }

  // ----- Rotation is arithmetic -----

  function Pow2(n: nat): (p: nat)
    ensures p > 0
  {
    if n == 0 then 1 else 2 * Pow2(n - 1)
  }

  lemma {:induction false} PowSum(m: nat, n: nat)
    ensures Pow2(m + n) == Pow2(m) * Pow2(n)
  {
    if m > 0 {
      PowSum(m - 1, n);
      Twice(Pow2(m - 1), Pow2(n));
    }
  }

  lemma Twice(x: int, y: int)
    ensures 2 * x * y == 2 * (x * y)
  {
  }

  function Amount(s: bv6): (n: nat)
    requires s <= 32
    ensures n <= 32
  {
    s as int
  }

  lemma RotateOne(w: bv32)
    ensures RotateLeft(w, 1) == (w << 1) | (w >> 31)
  {
  }

  lemma RotateOneIs(w: bv32)
    ensures Value((w << 1) | (w >> 31))
            == if Value(w) < 0x8000_0000 then 2 * Value(w) else 2 * Value(w) - 0x1_0000_0000 + 1
  {
  }

  lemma RotateNone(w: bv32)
    ensures RotateLeft(w, 0) == w
  {
  }

  function Left(w: bv32, s: bv6): bv32 requires s <= 32 { w << s }
  function Right(w: bv32, s: bv6): bv32 requires s <= 32 { w >> s }
  function Or(u: bv32, v: bv32): bv32 { u | v }

  lemma RotateOf(w: bv32, s: bv6)
    requires s <= 32
    ensures RotateLeft(w, s) == Or(Left(w, s), Right(w, 32 - s))
  {
  }

  lemma OrShifts(u: bv32, v: bv32)
    ensures Left(Or(u, v), 1) == Or(Left(u, 1), Left(v, 1))
    ensures Right(Or(u, v), 31) == Or(Right(u, 31), Right(v, 31))
  {
  }

  lemma OrGroups(a: bv32, b: bv32, c: bv32)
    ensures Or(Or(a, b), Or(c, 0)) == Or(a, Or(b, c))
  {
  }

  lemma LeftNext(w: bv32, s: bv6)
    requires s < 32
    ensures Left(Left(w, s), 1) == Left(w, s + 1)
  {
  }

  lemma RightNext(w: bv32, s: bv6)
    requires s < 32
    ensures Or(Left(Right(w, 32 - s), 1), Right(Left(w, s), 31)) == Right(w, 32 - (s + 1))
  {
  }

  lemma RightTop(w: bv32, s: bv6)
    requires s < 32
    ensures Right(Right(w, 32 - s), 31) == 0
  {
  }

  lemma RotateNext(w: bv32, s: bv6)
    requires s < 32
    ensures RotateLeft(w, s + 1) == RotateLeft(RotateLeft(w, s), 1)
  {
    hide RotateLeft, Left, Right, Or;
    var u, v := Left(w, s), Right(w, 32 - s);
    RotateOf(w, s);
    RotateOf(w, s + 1);
    RotateOf(Or(u, v), 1);
    OrShifts(u, v);
    LeftNext(w, s);
    RightNext(w, s);
    RightTop(w, s);
    OrGroups(Left(u, 1), Left(v, 1), Right(u, 31));
  }

  lemma AmountNext(s: bv6)
    requires s < 32
    ensures Amount(s + 1) == Amount(s) + 1
  {
  }

  /** The high part of `n` bits and the low part of a value, and how they make up its rotation. */
  predicate Parted(value: int, rotated: int, n: nat, high: nat, low: nat)
    requires n <= 32
  {
    && high < Pow2(n) && low < Pow2(32 - n)
    && value == high * Pow2(32 - n) + low
    && rotated == low * Pow2(n) + high
  }

  lemma PartedNone(value: u32)
    ensures Parted(value, value, 0, 0, value)
  {
    Pow32();
    hide Pow2;
    assert Pow2(0) == 1 by { PowNone(); }
  }

  lemma PowNone()
    ensures Pow2(0) == 1
  {
  }

  lemma PartedNext(value: int, r: int, n: nat, h: nat, l: nat) returns (high: nat, low: nat)
    requires n < 32 && Parted(value, r, n, h, l)
    ensures Parted(value, if r < 0x8000_0000 then 2 * r else 2 * r - 0x1_0000_0000 + 1, n + 1, high, low)
  {
    var p, q := Pow2(n), Pow2(31 - n);
    var top := if l < q then 0 else 1;
    high, low := 2 * h + top, l - top * q;
    PowSum(n, 31 - n);
    PowSum(n, 32 - n);
    Pow32();
    TopBit(p, q, h, l, top);
  }

  lemma {:induction false} RotateParts(w: bv32, s: bv6) returns (high: nat, low: nat)
    requires s <= 32
    ensures Parted(Value(w), Value(RotateLeft(w, s)), Amount(s), high, low)
    decreases Amount(s)
  {
    hide RotateLeft, Value, Parted;
    if s == 0 {
      RotateNone(w);
      PartedNone(Value(w));
      high, low := 0, Value(w);
    } else {
      var r := RotateLeft(w, s - 1);
      AmountNext(s - 1);
      var h, l := RotateParts(w, s - 1);
      RotateNext(w, s - 1);
      RotateOne(r);
      RotateOneIs(r);
      high, low := PartedNext(Value(w), Value(r), Amount(s - 1), h, l);
    }
  }

  lemma Pow32()
    ensures Pow2(32) == 0x1_0000_0000
  {
    assert Pow2(8) == 0x100;
    PowSum(8, 8);
    PowSum(16, 16);
  }

  lemma TopBit(p: nat, q: nat, h: nat, l: nat, top: nat)
    requires p * q == 0x8000_0000 && h < p && top * q <= l < (top + 1) * q && top <= 1
    ensures l * p + h < 0x8000_0000 <==> top == 0
    ensures (2 * h + top) * q + (l - top * q) == h * (2 * q) + l
    ensures (l - top * q) * (2 * p) + (2 * h + top) == 2 * (l * p + h) - top * 0x1_0000_0000 + top
  {
    if top == 0 {
      assert l * p <= (q - 1) * p;
    } else {
      assert l * p >= q * p;
    }
  }

  /** Rotation by any amount, as arithmetic: the low bits shifted up, the high ones down. */
  lemma RotateIs(w: bv32, s: bv6)
    requires s <= 32
    ensures Value(RotateLeft(w, s))
            == Value(w) * Pow2(Amount(s)) % 0x1_0000_0000 + Value(w) / Pow2(32 - Amount(s))
  {
    hide RotateLeft, Value, Amount;
    var high, low := RotateParts(w, s);
    var p, q := Pow2(Amount(s)), Pow2(32 - Amount(s));
    PowSum(Amount(s), 32 - Amount(s));
    Pow32();
    Parts(high, low, p, q);
  }

  lemma Parts(high: nat, low: nat, p: nat, q: nat)
    requires p * q == 0x1_0000_0000 && low < q && high < p
    ensures (high * q + low) * p % 0x1_0000_0000 == low * p
    ensures (high * q + low) / q == high
  {
    assert (high * q + low) * p == 0x1_0000_0000 * high + low * p;
    assert low * p < q * p;
    Quotient(0x1_0000_0000, high, low * p);
    Quotient(q, high, low);
  }

  lemma Quotient(m: nat, k: nat, r: nat)
    requires r < m
    ensures (m * k + r) % m == r && (k * m + r) / m == k
  {
    var x := m * k + r;
    var d := x / m - k;
    assert x == m * (x / m) + x % m;
    Smaller(m, d, r - x % m);
  }

  lemma Smaller(m: int, d: int, e: int)
    requires m * d == e && -m < e < m
    ensures d == 0
  {
  }

  /** So each operation ends in an arithmetic left rotation of its sum. */
  lemma RotateAddIs(b: u32, sum: int, s: bv6)
    requires s <= 32
    ensures var x := Wrap32(sum);
            RotateAdd(b, sum, s) == Wrap32(b + x * Pow2(Amount(s)) % 0x1_0000_0000 + x / Pow2(32 - Amount(s)))
  {
    hide RotateLeft, Value, Word, Amount, Pow2, Wrap32;
    ValueOfWord(Wrap32(sum));
    RotateIs(Word(Wrap32(sum)), s);
  }

  // ----- The operations on words -----

  /** The auxiliary function of operation `n`. */
  function Aux(n: nat, b: bv32, c: bv32, d: bv32): bv32 {
    if n < 16 then F(b, c, d) else if n < 32 then G(b, c, d) else if n < 48 then H(b, c, d) else I(b, c, d)
  }

  /** The new word of an operation, computed as md5.h does on unsigned ints. */
  function WordOp(n: nat, a: bv32, b: bv32, c: bv32, d: bv32, x: bv32, s: bv6, t: bv32): bv32
    requires s <= 32
  {
    Plus(b, RotateLeft(Plus(Plus(Plus(a, Aux(n, b, c, d)), x), t), s))
  }

  /** The registers that four words stand for. */
  function RegsOf(a: bv32, b: bv32, c: bv32, d: bv32): Regs {
    Regs(Value(a), Value(b), Value(c), Value(d))
  }

  lemma SumOfFour(a: bv32, f: bv32, x: bv32, t: bv32)
    ensures Value(Plus(Plus(Plus(a, f), x), t)) == Wrap32(Value(a) + Value(f) + Value(x) + Value(t))
  {
    hide Value, Wrap32, Plus;
    PlusIs(a, f);
    PlusIs(Plus(a, f), x);
    PlusIs(Plus(Plus(a, f), x), t);
    WrapSum(Value(a) + Value(f), Value(x));
    WrapSum(Value(a) + Value(f) + Value(x), Value(t));
  }

  lemma RotateAddWords(b: bv32, v: bv32, sum: int, s: bv6)
    requires s <= 32 && Value(v) == Wrap32(sum)
    ensures RotateAdd(Value(b), sum, s) == Value(Plus(b, RotateLeft(v, s)))
  {
    hide Wrap32, RotateLeft, Value, Word, Plus;
    WordOfValue(v);
    PlusIs(b, RotateLeft(v, s));
  }

  lemma OpSum(a: bv32, b: bv32, f: bv32, x: bv32, s: bv6, t: bv32)
    requires s <= 32
    ensures RotateAdd(Value(b), Value(a) + Value(f) + Value(x) + Value(t), s)
            == Value(Plus(b, RotateLeft(Plus(Plus(Plus(a, f), x), t), s)))
  {
    hide Value, RotateLeft, RotateAdd, Plus, Wrap32;
    SumOfFour(a, f, x, t);
    RotateAddWords(b, Plus(Plus(Plus(a, f), x), t), Value(a) + Value(f) + Value(x) + Value(t), s);
  }

  lemma FFOnWords(a: bv32, b: bv32, c: bv32, d: bv32, x: bv32, s: bv6, t: bv32)
    requires s <= 32
    ensures FF(Value(a), Value(b), Value(c), Value(d), Value(x), s, Value(t))
            == Value(Plus(b, RotateLeft(Plus(Plus(Plus(a, F(b, c, d)), x), t), s)))
  {
    hide F, RotateLeft, RotateAdd, Value, Word, Plus;
    WordOfValue(b);
    WordOfValue(c);
    WordOfValue(d);
    OpSum(a, b, F(b, c, d), x, s, t);
  }

  lemma GGOnWords(a: bv32, b: bv32, c: bv32, d: bv32, x: bv32, s: bv6, t: bv32)
    requires s <= 32
    ensures GG(Value(a), Value(b), Value(c), Value(d), Value(x), s, Value(t))
            == Value(Plus(b, RotateLeft(Plus(Plus(Plus(a, G(b, c, d)), x), t), s)))
  {
    hide G, RotateLeft, RotateAdd, Value, Word, Plus;
    WordOfValue(b);
    WordOfValue(c);
    WordOfValue(d);
    OpSum(a, b, G(b, c, d), x, s, t);
  }

  lemma HHOnWords(a: bv32, b: bv32, c: bv32, d: bv32, x: bv32, s: bv6, t: bv32)
    requires s <= 32
    ensures HH(Value(a), Value(b), Value(c), Value(d), Value(x), s, Value(t))
            == Value(Plus(b, RotateLeft(Plus(Plus(Plus(a, H(b, c, d)), x), t), s)))
  {
    hide H, RotateLeft, RotateAdd, Value, Word, Plus;
    WordOfValue(b);
    WordOfValue(c);
    WordOfValue(d);
    OpSum(a, b, H(b, c, d), x, s, t);
  }

  lemma IIOnWords(a: bv32, b: bv32, c: bv32, d: bv32, x: bv32, s: bv6, t: bv32)
    requires s <= 32
    ensures II(Value(a), Value(b), Value(c), Value(d), Value(x), s, Value(t))
            == Value(Plus(b, RotateLeft(Plus(Plus(Plus(a, I(b, c, d)), x), t), s)))
  {
    hide I, RotateLeft, RotateAdd, Value, Word, Plus;
    WordOfValue(b);
    WordOfValue(c);
    WordOfValue(d);
    OpSum(a, b, I(b, c, d), x, s, t);
  }

  /** The operations on numbers, which the code is proved to do, are those on words. */
  lemma OpOnWords(n: nat, a: bv32, b: bv32, c: bv32, d: bv32, x: bv32, s: bv6, t: bv32)
    requires s <= 32
    ensures var a', b', c', d', x', t' := Value(a), Value(b), Value(c), Value(d), Value(x), Value(t);
            Value(WordOp(n, a, b, c, d, x, s, t))
            == if n < 16 then FF(a', b', c', d', x', s, t') else if n < 32 then GG(a', b', c', d', x', s, t')
               else if n < 48 then HH(a', b', c', d', x', s, t') else II(a', b', c', d', x', s, t')
  {
    hide F, G, H, I, FF, GG, HH, II, RotateLeft, Value, Plus;
    FFOnWords(a, b, c, d, x, s, t);
    GGOnWords(a, b, c, d, x, s, t);
    HHOnWords(a, b, c, d, x, s, t);
    IIOnWords(a, b, c, d, x, s, t);
  }
}
