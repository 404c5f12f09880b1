/**
  Arithmetic on 128-bit numbers made of 64-bit halves and 32-bit words, and the multiplication followed by
  a division that avoids them. Machine numbers are naturals below their bound.
 */
module WideMath {

  import opened Common

  /** The halves of the number; its words share their storage. */
  datatype Wide = Wide(low: uint64, high: uint64)

  function Value(a: Wide): nat {
    a.low + 0x1_0000_0000_0000_0000 * a.high
  }

  /** The `i`-th word, the lowest first. */
  function Word(a: Wide, i: nat): uint32
    requires i < 4
  {
    if i == 0 then a.low % 0x1_0000_0000
    else if i == 1 then a.low / 0x1_0000_0000
    else if i == 2 then a.high % 0x1_0000_0000
    else a.high / 0x1_0000_0000
  }

  function FromWords(w0: uint32, w1: uint32, w2: uint32, w3: uint32): Wide {
    Wide(w0 + 0x1_0000_0000 * w1, w2 + 0x1_0000_0000 * w3)
  }

  /** The number with these words. */
  function Number(w0: nat, w1: nat, w2: nat, w3: nat): nat {
    w0 + 0x1_0000_0000 * w1 + 0x1_0000_0000_0000_0000 * w2 + 0x1_0000_0000_0000_0000_0000_0000 * w3
  }

  lemma WordsMakeValue(a: Wide)
    ensures Value(a) == Number(Word(a, 0), Word(a, 1), Word(a, 2), Word(a, 3))
  {
  }

  // -------- Addition and multiplication --------

  /** The lower half of a column stays, the upper half is carried. */
  function Kept(val: nat): uint32 {
    val % 0x1_0000_0000
  }

  function Carried(val: nat): nat {
    val / 0x1_0000_0000
  }

  function Add128(a: Wide, b: Wide): Wide {
    var val0: nat := Word(a, 0) + Word(b, 0);
    var val1: nat := Carried(val0) + (Word(a, 1) + Word(b, 1));
    var val2: nat := Carried(val1) + (Word(a, 2) + Word(b, 2));
    var val3: nat := Carried(val2) + (Word(a, 3) + Word(b, 3));
    FromWords(Kept(val0), Kept(val1), Kept(val2), Kept(val3))
  }

  /** Carrying from column to column keeps the sum. */
  lemma Columns(a0: nat, a1: nat, a2: nat, a3: nat, b0: nat, b1: nat, b2: nat, b3: nat)
    ensures var v0: nat := a0 + b0;
            var v1: nat := Carried(v0) + (a1 + b1);
            var v2: nat := Carried(v1) + (a2 + b2);
            var v3: nat := Carried(v2) + (a3 + b3);
            Number(a0, a1, a2, a3) + Number(b0, b1, b2, b3)
            == Number(Kept(v0), Kept(v1), Kept(v2), Kept(v3))
               + 0x1_0000_0000_0000_0000_0000_0000_0000_0000 * Carried(v3)
  {
  }

  /** The sum loses only what does not fit in 128 bits. */
  lemma AddIsExact(a: Wide, b: Wide)
    ensures Value(Add128(a, b)) == (Value(a) + Value(b)) % 0x1_0000_0000_0000_0000_0000_0000_0000_0000
  {
    WordsMakeValue(a);
    WordsMakeValue(b);
    ValueFits(Add128(a, b));
    var carry := CarryOut(a, b);
    Wraps(Value(a) + Value(b), Value(Add128(a, b)), carry);
  }

  /** What does not fit. */
  lemma CarryOut(a: Wide, b: Wide) returns (carry: nat)
    ensures Value(a) + Value(b) == Value(Add128(a, b)) + 0x1_0000_0000_0000_0000_0000_0000_0000_0000 * carry
  {
    hide Word, Value, Number, Kept, Carried, FromWords;
    WordsMakeValue(a);
    WordsMakeValue(b);
    Columns(Word(a, 0), Word(a, 1), Word(a, 2), Word(a, 3), Word(b, 0), Word(b, 1), Word(b, 2), Word(b, 3));
    var v0: nat := Word(a, 0) + Word(b, 0);
    var v1: nat := Carried(v0) + (Word(a, 1) + Word(b, 1));
    var v2: nat := Carried(v1) + (Word(a, 2) + Word(b, 2));
    var v3: nat := Carried(v2) + (Word(a, 3) + Word(b, 3));
    WordsValue(Kept(v0), Kept(v1), Kept(v2), Kept(v3));
    carry := Carried(v3);
  }

  lemma WordsValue(w0: uint32, w1: uint32, w2: uint32, w3: uint32)
    ensures Value(FromWords(w0, w1, w2, w3)) == Number(w0, w1, w2, w3)
  {
  }

  lemma ValueFits(a: Wide)
    ensures Value(a) < 0x1_0000_0000_0000_0000_0000_0000_0000_0000
  {
  }

  lemma Wraps(x: nat, r: nat, carry: nat)
    requires x == r + 0x1_0000_0000_0000_0000_0000_0000_0000_0000 * carry
    requires r < 0x1_0000_0000_0000_0000_0000_0000_0000_0000
    ensures x % 0x1_0000_0000_0000_0000_0000_0000_0000_0000 == r
  {
  }

  function Lshift32(a: uint64): (r: Wide)
    ensures Value(r) == 0x1_0000_0000 * a
  {
    Wide(a % 0x1_0000_0000 * 0x1_0000_0000, a / 0x1_0000_0000)
  }

  function Lshift64(a: uint64): (r: Wide)
    ensures Value(r) == 0x1_0000_0000_0000_0000 * a
  {
    Wide(0, a)
  }

  lemma ProductBound(x: nat, y: nat, m: nat)
    requires x <= m && y <= m
    ensures 0 <= x * y <= m * m
  {
    TimesMonotone(x, m, y);
    TimesMonotone(y, m, m);
  }

  lemma TimesMonotone(x: nat, m: nat, y: nat)
    requires x <= m
    ensures x * y <= m * y
  {
    assert m * y == x * y + (m - x) * y;
  }

  function Low32(a: uint64): uint32 {
    a % 0x1_0000_0000
  }

  function High32(a: uint64): uint32 {
    a / 0x1_0000_0000
  }

  /** The product of two words fits in 64 bits. */
  function Product(x: uint32, y: uint32): (m: uint64)
    ensures m == x * y && m <= 0xffff_fffe_0000_0001
  {
    ProductFits(x, y);
    x * y
  }

  lemma ProductFits(x: uint32, y: uint32)
    ensures 0 <= x * y <= 0xffff_fffe_0000_0001
  {
    ProductBound(x, y, 0xffff_ffff);
  }

  /** The four partial products, shifted and added. */
  function Mul64(a: uint64, b: uint64): Wide {
    var a0, a1, b0, b1 := Low32(a), High32(a), Low32(b), High32(b);
    Sum4(Product(a0, b0), Product(a1, b0), Product(a0, b1), Product(a1, b1))
  }

  function Sum4(m00: uint64, m10: uint64, m01: uint64, m11: uint64): Wide {
    Add128(Add128(Add128(Wide(m00, 0), Lshift32(m10)), Lshift32(m01)), Lshift64(m11))
  }

  lemma SumIsExact(m00: uint64, m10: uint64, m01: uint64, m11: uint64)
    requires m00 <= 0xffff_fffe_0000_0001 && m10 <= 0xffff_fffe_0000_0001
    requires m01 <= 0xffff_fffe_0000_0001 && m11 <= 0xffff_fffe_0000_0001
    ensures Value(Sum4(m00, m10, m01, m11))
            == m00 + 0x1_0000_0000 * m10 + 0x1_0000_0000 * m01 + 0x1_0000_0000_0000_0000 * m11
  {
    hide Add128;
    var first := Wide(m00, 0);
    var second := Add128(first, Lshift32(m10));
    var third := Add128(second, Lshift32(m01));
    AddFits(first, Lshift32(m10));
    AddFits(second, Lshift32(m01));
    AddFits(third, Lshift64(m11));
  }

  lemma AddFits(a: Wide, b: Wide)
    requires Value(a) + Value(b) < 0x1_0000_0000_0000_0000_0000_0000_0000_0000
    ensures Value(Add128(a, b)) == Value(a) + Value(b)
  {
    hide Value, Add128;
    var _ := CarryOut(a, b);
  }

  lemma Expand(a0: nat, a1: nat, b0: nat, b1: nat, p: nat)
    ensures (a0 + p * a1) * (b0 + p * b1) == a0 * b0 + p * (a1 * b0) + p * (a0 * b1) + p * p * (a1 * b1)
  {
  }

  /** The product is exact. */
  lemma MulIsExact(a: uint64, b: uint64)
    ensures Value(Mul64(a, b)) == a * b
  {
    hide Sum4, Value;
    var a0, a1, b0, b1 := Low32(a), High32(a), Low32(b), High32(b);
    SumIsExact(Product(a0, b0), Product(a1, b0), Product(a0, b1), Product(a1, b1));
    Expand(a0, a1, b0, b1, 0x1_0000_0000);
  }

  // -------- Division --------

  lemma DivModBounds(x: nat, b: nat)
    requires b > 0
    ensures x == b * (x / b) + x % b && x % b < b
  {
  }

  lemma QuotientIs(x: nat, b: nat, q: nat, r: nat)
    requires b > 0 && x == b * q + r && r < b
    ensures x / b == q && x % b == r
  {
    DivModBounds(x, b);
    var d := x / b - q;
    assert b * d == r - x % b;
    Smaller(b, d);
  }

  lemma Smaller(b: int, d: int)
    requires b > 0
    ensures d >= 1 ==> b * d >= b
    ensures d <= -1 ==> b * d <= -b
  {
    if d >= 1 {
      assert b * (d - 1) >= 0;
    } else if d <= -1 {
      assert b * (-d - 1) >= 0;
    }
  }

  /** The quotient of a remainder with another word behind it is a word. */
  lemma WordQuotient(val: nat, word: nat, b: nat)
    requires 0 < b < 0x1_0000_0000 && val < b && word < 0x1_0000_0000
    ensures (0x1_0000_0000 * val + word) / b < 0x1_0000_0000
    ensures 0x1_0000_0000 * val + word < 0x1_0000_0000_0000_0000
  {
    var x := 0x1_0000_0000 * val + word;
    DivModBounds(x, b);
    if x / b >= 0x1_0000_0000 {
      TimesMonotone(0x1_0000_0000, x / b, b);
      assert false;
    }
  }

  /** Long division, the highest word first. */
  method Div128By32(a: Wide, b: uint32) returns (out: Wide)
    requires b > 0
    ensures Value(out) == Value(a) / b
  {
    hide Word, Upper, Written, Number;
    var words := new nat[4](i => 0);
    var val: uint64 := 0;
    var i := 3;
    ghost var upper, quotient := 0, 0;
    UpperEnds(a, words[..]);
    while i >= 0
      invariant -1 <= i <= 3 && val < b
      invariant forall k :: 0 <= k < 4 ==> words[k] < 0x1_0000_0000
      invariant upper == Upper(a, i) && quotient == Written(words[..], i)
      invariant upper == b * quotient + val
    {
      WordQuotient(val, Word(a, i), b);
      var dividend: uint64 := 0x1_0000_0000 * val + Word(a, i);
      DivModBounds(dividend, b);
      ghost var before := words[..];
      if dividend < b {
        QuotientIs(dividend, b, 0, dividend);
        words[i] := 0;
        val := dividend;
      } else {
        words[i] := dividend / b;
        val := dividend % b;
      }
      WrittenBelow(before, words[..], i);
      UpperStep(a, i);
      Bring(upper, quotient, b, 0x1_0000_0000, dividend, words[i], val, Word(a, i));
      upper := 0x1_0000_0000 * upper + Word(a, i);
      quotient := 0x1_0000_0000 * quotient + words[i];
      i := i - 1;
    }
    out := FromWords(words[0], words[1], words[2], words[3]);
    WordsMakeValue(a);
    UpperEnds(a, words[..]);
    WordsValue(words[0], words[1], words[2], words[3]);
    QuotientIs(Value(a), b, quotient, val);
  }

  /** The number in the words above the `i`-th. */
  function Upper(a: Wide, i: int): nat
    requires -1 <= i <= 3
  {
    match i
    case 3 => 0
    case 2 => Word(a, 3)
    case 1 => Word(a, 2) + 0x1_0000_0000 * Word(a, 3)
    case 0 => Word(a, 1) + 0x1_0000_0000 * Word(a, 2) + 0x1_0000_0000_0000_0000 * Word(a, 3)
    case _ => Number(Word(a, 0), Word(a, 1), Word(a, 2), Word(a, 3))
  }

  lemma UpperStep(a: Wide, i: int)
    requires 0 <= i <= 3
    ensures Upper(a, i - 1) == 0x1_0000_0000 * Upper(a, i) + Word(a, i)
  {
    hide Word;
  }

  lemma UpperEnds(a: Wide, words: seq<nat>)
    requires |words| == 4
    ensures Upper(a, 3) == 0 && Written(words, 3) == 0
    ensures Upper(a, -1) == Number(Word(a, 0), Word(a, 1), Word(a, 2), Word(a, 3))
    ensures Written(words, -1) == Number(words[0], words[1], words[2], words[3])
  {
  }

  function Written(words: seq<nat>, i: int): nat
    requires -1 <= i <= 3 && |words| == 4
  {
    match i
    case 3 => 0
    case 2 => words[3]
    case 1 => words[2] + 0x1_0000_0000 * words[3]
    case 0 => words[1] + 0x1_0000_0000 * words[2] + 0x1_0000_0000_0000_0000 * words[3]
    case _ => Number(words[0], words[1], words[2], words[3])
  }

  lemma WrittenBelow(before: seq<nat>, after: seq<nat>, i: int)
    requires 0 <= i <= 3 && |before| == |after| == 4 && forall k :: i < k < 4 ==> before[k] == after[k]
    ensures Written(after, i - 1) == 0x1_0000_0000 * Written(before, i) + after[i]
  {
  }

  lemma Bring(upper: nat, quotient: nat, b: nat, p: nat, dividend: nat, q: nat, r: nat, word: nat)
    requires exists val :: upper == b * quotient + val && dividend == p * val + word
    requires dividend == b * q + r
    ensures p * upper + word == b * (p * quotient + q) + r
  {
    var val :| upper == b * quotient + val && dividend == p * val + word;
    assert p * (b * quotient) == b * (p * quotient);
    assert p * (b * quotient + val) == p * (b * quotient) + p * val;
    assert b * (p * quotient + q) == b * (p * quotient) + b * q;
  }

  // -------- Multiplying and dividing without 128 bits --------

  function Wrap(x: nat): uint64 {
    x % 0x1_0000_0000_0000_0000
  }

  function Over(x: nat, div: nat): nat
    requires div > 0
  {
    x / div
  }

  /** The product of the quotient, and that of the remainder, in full. */
  function Whole(num: nat, mul: nat, div: nat): nat
    requires div > 0
  {
    num / div * mul
  }

  function Rest(num: nat, mul: nat, div: nat): nat
    requires div > 0
  {
    num % div * mul
  }

  /** Every operation wraps around at 64 bits. */
  function MulDiv64(num: uint64, mul: uint64, div: uint64): uint64
    requires div > 0
  {
    Wrap(Whole(num, mul, div) + Over(Wrap(Rest(num, mul, div)), div))
  }

  /** With the remainder's product in full, the sum is the quotient. */
  lemma QuotientSplits(num: nat, mul: nat, div: nat)
    requires div > 0
    ensures num * mul / div == Whole(num, mul, div) + Over(Rest(num, mul, div), div)
  {
    var q, r := num / div, num % div;
    DivModBounds(num, div);
    DivModBounds(r * mul, div);
    Regroup(num, mul, div, q, r, r * mul / div, r * mul % div);
    QuotientIs(num * mul, div, q * mul + r * mul / div, r * mul % div);
  }

  lemma Regroup(num: nat, mul: nat, div: nat, q: nat, r: nat, q': nat, r': nat)
    requires num == div * q + r && r * mul == div * q' + r'
    ensures num * mul == div * (q * mul + q') + r'
  {
    assert (div * q + r) * mul == div * (q * mul) + r * mul;
  }

  /** The part that wraps around is less than a whole turn, so it is always missed. */
  lemma TurnIsMissed(x: nat, mul: nat, div: nat)
    requires 0 < div < 0x1_0000_0000_0000_0000 && x < div * mul && mul < 0x1_0000_0000_0000_0000
    requires x >= 0x1_0000_0000_0000_0000
    ensures 0 < Over(x, div) - Over(Wrap(x), div) < 0x1_0000_0000_0000_0000
  {
    var low := Wrap(x);
    WrapTakesTurns(x);
    DivModBounds(x, div);
    DivModBounds(low, div);
    hide Wrap;
    Apart(x, low, div, x / div, low / div, x % div, low % div, 0x1_0000_0000_0000_0000);
    QuotientBelow(x, mul, div);
  }

  lemma WrapTakesTurns(x: nat)
    ensures x >= 0x1_0000_0000_0000_0000 ==> Wrap(x) + 0x1_0000_0000_0000_0000 <= x
  {
  }

  lemma Apart(x: nat, low: nat, div: nat, q: nat, q': nat, r: nat, r': nat, turn: nat)
    requires x == div * q + r && low == div * q' + r' && r < div && r' < div
    requires low + turn <= x && div < turn
    ensures q' < q
  {
    assert div * (q - q') == x - low + r' - r;
    Smaller2(div, q - q');
  }

  lemma Smaller2(b: int, d: int)
    requires b > 0 && b * d > 0
    ensures d > 0
  {
  }

  lemma QuotientBelow(x: nat, mul: nat, div: nat)
    requires div > 0 && x < div * mul
    ensures x / div < mul
  {
    DivModBounds(x, div);
    Smaller2(div, mul - x / div);
  }

  /** What the wrapped product of the remainder misses. */
  lemma MulDivMisses(num: uint64, mul: uint64, div: uint64) returns (missed: nat)
    requires div > 0
    ensures missed <= num * mul / div && MulDiv64(num, mul, div) == Wrap(num * mul / div - missed)
    ensures if Rest(num, mul, div) < 0x1_0000_0000_0000_0000 then missed == 0
            else 0 < missed < 0x1_0000_0000_0000_0000
  {
    QuotientSplits(num, mul, div);
    var rest := Rest(num, mul, div);
    if rest >= 0x1_0000_0000_0000_0000 {
      RestBelow(num % div, mul, div);
      TurnIsMissed(rest, mul, div);
    } else {
      Unwrapped(rest);
    }
    hide Wrap, Over, Whole, Rest;
    missed := Over(rest, div) - Over(Wrap(rest), div);
  }

  lemma Unwrapped(x: nat)
    requires x < 0x1_0000_0000_0000_0000
    ensures Wrap(x) == x
  {
  }

  lemma RestBelow(r: nat, mul: nat, div: nat)
    requires r < div && r * mul > 0
    ensures r * mul < div * mul
  {
    assert div * mul == r * mul + (div - r) * mul;
    assert mul > 0;
    assert (div - r) * mul > 0;
  }

  lemma Congruent(x: nat, missed: nat)
    requires missed <= x
    ensures missed == 0 ==> (Wrap(x - missed) == x <==> x < 0x1_0000_0000_0000_0000)
    ensures 0 < missed < 0x1_0000_0000_0000_0000 ==> Wrap(x - missed) != x
  {
  }

  /** Main result: the quotient is exact precisely if it fits and the remainder's product does. */
  lemma MulDivIsExact(num: uint64, mul: uint64, div: uint64)
    requires div > 0
    ensures MulDiv64(num, mul, div) == num * mul / div
            <==> num % div * mul < 0x1_0000_0000_0000_0000 && num * mul / div < 0x1_0000_0000_0000_0000
  {
    hide MulDiv64, Wrap;
    var missed := MulDivMisses(num, mul, div);
    Congruent(num * mul / div, missed);
  }

  /** The short way agrees with the quotient of the exact product, under the same condition. */
  lemma ShortWayAgrees(num: uint64, mul: uint64, div: uint64)
    requires div > 0
    ensures MulDiv64(num, mul, div) == Value(Mul64(num, mul)) / div
            <==> num % div * mul < 0x1_0000_0000_0000_0000 && num * mul / div < 0x1_0000_0000_0000_0000
  {
    hide MulDiv64, Mul64, Value;
    MulIsExact(num, mul);
    MulDivIsExact(num, mul, div);
  }
}
