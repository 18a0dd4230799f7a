/**
 Packed-memory layout: lines of values packed into words, words striped over
 banks, and the test for values that straddle a word boundary.
 */
module MemoryLayout {
  import opened IntArithmetic
  import opened IntegerSum
  import opened Quantum

  /** _array: every line packed on its own. */
  function ArrayWords(lines: nat, lineBits: nat, wordBits: Positive): nat {
    MulNonnegative(lines, CeilDiv(lineBits, wordBits));
    lines * CeilDiv(lineBits, wordBits)
  }

  /** Lines of equal length, each on the fewest words of its own that hold its bits. */
  ghost predicate IsPacked(words: nat, lines: nat, lineBits: nat, wordBits: Positive) {
    exists perLine: nat :: words == lines * perLine && IsLeast(perLine, lineBits, wordBits)
  }

  /** The fewest units that hold an amount. */
  ghost predicate IsLeast(units: nat, amount: nat, unit: Positive) {
    units * unit >= amount && forall fewer: nat :: fewer < units ==> fewer * unit < amount
  }

  lemma ArrayPacked(lines: nat, lineBits: nat, wordBits: Positive)
    ensures IsPacked(ArrayWords(lines, lineBits, wordBits), lines, lineBits, wordBits)
  {
    CeilLeast(lineBits, wordBits);
    hide CeilDiv, IsLeast;
    assert ArrayWords(lines, lineBits, wordBits) == lines * CeilDiv(lineBits, wordBits);
  }

  lemma CeilLeast(amount: nat, unit: Positive)
    ensures IsLeast(CeilDiv(amount, unit), amount, unit)
    ensures forall units: nat :: CeilDiv(amount, unit) <= units <==> amount <= units * unit
  {
    var least := CeilDiv(amount, unit);
    forall units: nat
      ensures least <= units <==> amount <= units * unit
    {
      hide CeilDiv;
      if least <= units {
        MulNonnegative(units - least, unit);
        assert (units - least) * unit == units * unit - least * unit;
      } else {
        MulNonnegative(least - 1 - units, unit);
        assert (least - 1 - units) * unit == (least - 1) * unit - units * unit;
      }
    }
  }

  // ----- striping over banks -----

  /** Words dealt to the banks one after the other: how many one bank receives. */
  function Dealt(words: nat, banks: Positive, bank: nat): nat {
    if words == 0 then 0 else Dealt(words - 1, banks, bank) + if (words - 1) % banks == bank then 1 else 0
  }

  /** The load of a bank is what it receives when the words are dealt round robin. */
  lemma {:induction false} LoadDealt(words: nat, banks: Positive, bank: nat)
    requires bank < banks
    ensures BankLoads(words, banks)[bank] == Dealt(words, banks, bank)
  {
    DivIdentity(words, banks);
    if words == 0 {
      DivUnique(0, banks, 0, 0);
    } else {
      LoadDealt(words - 1, banks, bank);
      DivIdentity(words - 1, banks);
      hide BankLoads;
      NextWord(words - 1, banks);
    }
  }

  lemma NextWord(words: nat, banks: Positive)
    ensures if words % banks == banks - 1
            then (words + 1) / banks == words / banks + 1 && (words + 1) % banks == 0
            else (words + 1) / banks == words / banks && (words + 1) % banks == words % banks + 1
  {
    DivIdentity(words, banks);
    if words % banks == banks - 1 {
      assert (words / banks + 1) * banks == words / banks * banks + banks;
      DivUnique(words + 1, banks, words / banks + 1, 0);
    } else {
      DivUnique(words + 1, banks, words / banks, words % banks + 1);
    }
  }

  /** _bank_loads: words over banks, each array starting at bank zero. */
  function BankLoads(words: nat, banks: Positive): (loads: seq<nat>)
    ensures |loads| == banks
    ensures forall b :: 0 <= b < banks ==> loads[b] == words / banks + if b < words % banks then 1 else 0
  {
    DivNonnegative(words, banks);
    seq(banks, b requires 0 <= b < banks => words / banks + if b < words % banks then 1 else 0)
  }

  lemma {:induction false} StripedSum(loads: seq<int>, q: int, r: nat)
    requires forall b :: 0 <= b < |loads| ==> loads[b] == q + if b < r then 1 else 0
    ensures IntSum(loads) == |loads| * q + if |loads| < r then |loads| else r
  {
    if |loads| > 0 {
      StripedSum(loads[..|loads| - 1], q, r);
      assert |loads| * q == (|loads| - 1) * q + q;
    }
  }

  /** The bank loads add up to the words, and the fullest bank holds ceil(words/banks). */
  lemma BankLoadsTotal(words: nat, banks: Positive)
    ensures IntSum(BankLoads(words, banks)) == words
    ensures BankLoads(words, banks)[0] == CeilDiv(words, banks)
    ensures forall b :: 0 <= b < banks ==> BankLoads(words, banks)[b] <= CeilDiv(words, banks)
  {
    StripedTotal(words, banks);
    CeilOfQuotient(words, banks);
    hide CeilDiv, IntSum;
    DivIdentity(words, banks);
  }

  lemma CeilOfQuotient(words: nat, banks: Positive)
    ensures CeilDiv(words, banks) == words / banks + if words % banks > 0 then 1 else 0
  {
    DivIdentity(words, banks);
    DivNonnegative(words, banks);
    RoundedUp(words, banks, words / banks, words % banks, CeilDiv(words, banks));
  }

  lemma RoundedUp(a: nat, b: Positive, q: nat, r: nat, c: nat)
    requires a == q * b + r && r < b && c * b >= a && (a > 0 ==> (c - 1) * b < a) && (a == 0 ==> c == 0)
    ensures c == q + if r > 0 then 1 else 0
  {
    var d := if r > 0 then q + 1 else q;
    assert (q + 1) * b == q * b + b;
    assert (q - 1) * b == q * b - b;
    SameQuotient(c, d, b, a);
  }

  lemma StripedTotal(words: nat, banks: Positive)
    ensures IntSum(BankLoads(words, banks)) == words
  {
    DivIdentity(words, banks);
    StripedSum(BankLoads(words, banks), words / banks, words % banks);
    hide IntSum;
  }

  lemma SameQuotient(c: nat, q: int, b: Positive, a: nat)
    requires c * b >= a && (a > 0 ==> (c - 1) * b < a) && (a == 0 ==> c == 0)
    requires q * b >= a && (q - 1) * b < a
    ensures c == q
  {
    if a == 0 {
      MulOrder(q - 1, 0, b, (q - 1) * b, 0);
      MulOrder(0, q + 1, b, 0, (q + 1) * b);
      assert (q + 1) * b == q * b + b;
    } else {
      MulOrder(q - 1, c, b, (q - 1) * b, c * b);
      MulOrder(c - 1, q, b, (c - 1) * b, q * b);
    }
  }

  // ----- word boundaries -----

  /** The i-th value of a line has bits in two words. */
  predicate Straddles(i: nat, bits: Positive, word: Positive) {
    (i * bits) / word != (i * bits + bits - 1) / word
  }

  predicate CrossingTest(i: nat, bits: Positive, word: Positive) {
    (i * bits) % word + bits > word
  }

  /** The modular test finds exactly the straddling values. */
  lemma TestIsStraddling(i: nat, bits: Positive, word: Positive)
    ensures CrossingTest(i, bits, word) <==> Straddles(i, bits, word)
  {
    var s := i * bits;
    DivIdentity(s, word);
    DivIdentity(s + bits - 1, word);
    var q, r := s / word, s % word;
    if r + bits <= word {
      DivUnique(s + bits - 1, word, q, r + bits - 1);
    }
  }

  function Period(bits: Positive, word: Positive): Positive {
    PeriodPositive(bits, word);
    word / Gcd(word, bits)
  }

  lemma PeriodPositive(bits: Positive, word: Positive)
    ensures Gcd(word, bits) > 0 && word / Gcd(word, bits) > 0
    ensures exists k: int :: (word / Gcd(word, bits)) * bits == Multiple(k, word)
  {
    var g := Gcd(word, bits);
    GcdDivides(word, bits);
    var i: int :| word == Multiple(i, g);
    var j: int :| bits == Multiple(j, g);
    QuotientOfMultiple(i, g);
    MulOrder(0, i, g, 0, word);
    assert i * bits == i * (j * g) == j * (i * g);
    assert (word / g) * bits == Multiple(j, word);
  }

  /** The straddling pattern repeats. */
  lemma TestRepeats(i: nat, bits: Positive, word: Positive)
    ensures 0 <= i % Period(bits, word) <= i
    ensures CrossingTest(i, bits, word) <==> CrossingTest(i % Period(bits, word), bits, word)
  {
    var p := Period(bits, word);
    PeriodPositive(bits, word);
    var k: int :| p * bits == Multiple(k, word);
    DivIdentity(i, p);
    DivNonnegative(i, p);
    var q, r := i / p, i % p;
    MulNonnegative(q, p);
    PeriodShift(q, p, r, bits, k, word);
    SameRemainder(i * bits, r * bits, q * k, word);
  }

  /** A position moves by whole words over whole periods. */
  lemma PeriodShift(q: int, p: int, r: int, bits: int, k: int, word: int)
    requires p * bits == Multiple(k, word)
    ensures (q * p + r) * bits == (q * k) * word + r * bits
  {
    assert (q * p + r) * bits == q * (p * bits) + r * bits;
    assert q * (k * word) == (q * k) * word;
  }

  lemma SameRemainder(n: int, s: int, words: int, word: Positive)
    requires n == words * word + s
    ensures n % word == s % word
  {
    DivIdentity(s, word);
    assert (words + s / word) * word == words * word + (s / word) * word;
    DivUnique(n, word, words + s / word, s % word);
  }

  /** tensor_layout: one period of positions decides whether any value of the line straddles a boundary. */
  method CrossesWord(lineValues: nat, bits: Positive, word: Positive) returns (crosses: bool)
    ensures crosses <==> exists i: nat :: i < lineValues && Straddles(i, bits, word)
  {
    var period := Period(bits, word);
    var count := if lineValues < period then lineValues else period;
    hide Straddles, CrossingTest, Period;
    crosses := false;
    for i := 0 to count
      invariant crosses <==> exists j: nat :: j < i && CrossingTest(j, bits, word)
    {
      if CrossingTest(i, bits, word) {
        crosses := true;
      }
    }
    forall i: nat | i < lineValues
      ensures Straddles(i, bits, word) ==> crosses
    {
      TestIsStraddling(i, bits, word);
      TestRepeats(i, bits, word);
      assert i % period < count by { DivIdentity(i, period); }
    }
    if crosses {
      var j: nat :| j < count && CrossingTest(j, bits, word);
      TestIsStraddling(j, bits, word);
    }
  }
}
