/**
 * The Roman numeral codec: `roman_to_int` (a right-to-left scan with a
 * running sum) and `int_to_roman` (a greedy walk over a fixed table of
 * thirteen value/symbol pairs).
 *
 * Each of the two is modelled twice: as a specification function (Decode,
 * Encode) on which the lemmas are proved, and as a method with the loops of
 * `roman_to_int` and `int_to_roman` (RomanToInt, IntToRoman) proved equal to
 * that function.
 */
module RomanCodec {

  /** True for the seven letters the decoder gives a value to. */
  predicate IsNumeralLetter(c: char) {
    c in "IVXLCDM"
  }

  /** The value of one character; every other character counts as 0. */
  function SymbolValue(c: char): (v: nat)
    ensures v == 0 <==> !IsNumeralLetter(c)
  {
    match c
    case 'I' => 1
    case 'V' => 5
    case 'X' => 10
    case 'L' => 50
    case 'C' => 100
    case 'D' => 500
    case 'M' => 1000
    case _ => 0
  }

  /**
   * What the first character of a non-empty string contributes: its value
   * is subtracted when it is strictly smaller than the value of the
   * character right after it, and added otherwise.
   */
  function LeadTerm(s: string): int
    requires s != ""
  {
    var v: int := SymbolValue(s[0]);
    if |s| > 1 && v < SymbolValue(s[1]) then -v else v
  }

  /** The decoded value of a string: the sum of the terms of its characters. */
  function Decode(s: string): int
  {
    if s == "" then 0 else LeadTerm(s) + Decode(s[1..])
  }

  /**
   * The decoder as the source writes it: the characters are visited from
   * the last to the first, `prev` holds the value of the character visited
   * just before, and a value strictly below `prev` is subtracted.
   */
  method RomanToInt(roman: string) returns (sum: int)
    ensures sum == Decode(roman)
  {
    sum := 0;
    var prev := 0;
    var i := |roman|;
    while i > 0
      invariant 0 <= i <= |roman|
      invariant sum == Decode(roman[i..])
      invariant prev == if i < |roman| then SymbolValue(roman[i]) else 0
    {
      i := i - 1;
      var val := SymbolValue(roman[i]);
      if val < prev {
        sum := sum - val;
      } else {
        sum := sum + val;
      }
      prev := val;
      assert roman[i..][1..] == roman[i + 1..];
    }
  }

  /**
   * Decoding is additive over a concatenation whenever the join is not a
   * subtraction: the last letter of the left part is worth at least the
   * first letter of the right part.
   */
  lemma {:induction false} DecodeAppend(a: string, b: string)
    requires a == "" || b == "" || SymbolValue(a[|a| - 1]) >= SymbolValue(b[0])
    ensures Decode(a + b) == Decode(a) + Decode(b)
  {
    if a == "" {
      assert a + b == b;
    } else {
      assert (a + b)[1..] == a[1..] + b;
      if |a| == 1 {
        assert Decode(a) == SymbolValue(a[0]);
      } else {
        assert LeadTerm(a + b) == LeadTerm(a);
        DecodeAppend(a[1..], b);
      }
    }
  }

  /**
   * A character outside IVXLCDM contributes nothing, and it also separates
   * its neighbours: the letter before it is never subtracted because of it.
   */
  lemma DecodeSkipsNonNumeral(a: string, c: char, b: string)
    requires !IsNumeralLetter(c)
    ensures Decode(a + [c] + b) == Decode(a) + Decode(b)
  {
    assert a + [c] + b == a + ([c] + b);
    DecodeAppend(a, [c] + b);
    assert ([c] + b)[1..] == b;
  }

  /** A string without any numeral letter (the empty one included) decodes to 0. */
  lemma {:induction false} DecodeNonNumeral(s: string)
    requires forall i :: 0 <= i < |s| ==> !IsNumeralLetter(s[i])
    ensures Decode(s) == 0
  {
    if s != "" {
      DecodeNonNumeral(s[1..]);
    }
  }

  /** The encoder's table, largest value first, with the six subtractive pairs. */
  const Table: seq<(int, string)> := [
    (1000, "M"), (900, "CM"), (500, "D"), (400, "CD"),
    (100, "C"), (90, "XC"), (50, "L"), (40, "XL"),
    (10, "X"), (9, "IX"), (5, "V"), (4, "IV"), (1, "I")
  ]

  /** The value of the last letter of table entry k. */
  function LastValue(k: nat): nat
    requires k < |Table|
  {
    var sym := Table[k].1;
    if sym == "" then 0 else SymbolValue(sym[|sym| - 1])
  }

  /**
   * The table's values are positive and strictly decreasing, and the last
   * letters of its symbols never grow from one entry to the next.
   */
  lemma TableOrder(k: nat)
    requires k < |Table|
    ensures Table[k].0 >= 1 && Table[k].1 != ""
    ensures k + 1 < |Table| ==> Table[k + 1].0 < Table[k].0 && LastValue(k + 1) <= LastValue(k)
  {
  }

  /** Each symbol of the table is made of numeral letters. */
  lemma TableLetters(k: nat)
    requires k < |Table|
    ensures forall c :: c in Table[k].1 ==> IsNumeralLetter(c)
  {
  }

  /**
   * Each symbol of the table decodes to its value and begins with a letter
   * worth no more than its last letter.
   */
  lemma TableSymbol(k: nat)
    requires k < |Table|
    ensures Table[k].1 != "" && Decode(Table[k].1) == Table[k].0
    ensures SymbolValue(Table[k].1[0]) <= LastValue(k)
  {
    assert Decode("CM") == 900 && Decode("CD") == 400 && Decode("XC") == 90;
    assert Decode("XL") == 40 && Decode("IX") == 9 && Decode("IV") == 4;
  }

  /** The greedy encoding of n, starting at table entry k. */
  function EncodeFrom(k: nat, n: int): string
    requires k <= |Table|
    decreases |Table| - k, n
  {
    if k == |Table| then ""
    else if n >= Table[k].0 then
      TableOrder(k);
      Table[k].1 + EncodeFrom(k, n - Table[k].0)
    else EncodeFrom(k + 1, n)
  }

  /** The encoding of n: the greedy walk over the whole table. */
  function Encode(n: int): string
  {
    EncodeFrom(0, n)
  }

  /**
   * The encoder as the source writes it: for each table entry, append its
   * symbol and subtract its value as long as the remainder is at least that
   * value.
   */
  method IntToRoman(num: int) returns (res: string)
    ensures res == Encode(num)
    ensures num >= 0 ==> Decode(res) == num
    ensures num <= 0 ==> res == ""
  {
    res := "";
    var n := num;
    ghost var target := Encode(num);
    for k := 0 to |Table|
      invariant res + EncodeFrom(k, n) == target
      invariant Decode(res) + n == num
      invariant num >= 0 ==> n >= 0
      invariant 0 < k ==> n < Table[k - 1].0
      invariant res != "" ==> k < |Table| ==> SymbolValue(res[|res| - 1]) >= LastValue(k)
    {
      TableOrder(k);
      var val, digit := Table[k].0, Table[k].1;
      while n >= val
        invariant res + EncodeFrom(k, n) == target
        invariant Decode(res) + n == num
        invariant num >= 0 ==> n >= 0
        invariant res != "" ==> SymbolValue(res[|res| - 1]) >= LastValue(k)
      {
        AppendTake(res, k, n, target);
        AppendDecode(res, k, n, num);
        res := res + digit;
        n := n - val;
      }
      EncodeFromSkip(k, n);
      if k + 1 < |Table| {
        TableOrder(k + 1);
      }
    }
    if num <= 0 {
      EncodeNonPositive(0, num);
    }
  }

  /** Taking table entry k once, when the remainder allows it. */
  lemma EncodeFromTake(k: nat, n: int)
    requires k < |Table| && n >= Table[k].0
    ensures EncodeFrom(k, n) == Table[k].1 + EncodeFrom(k, n - Table[k].0)
  {
  }

  /** Moving on to entry k + 1 once the remainder is below entry k's value. */
  lemma EncodeFromSkip(k: nat, n: int)
    requires k < |Table| && n < Table[k].0
    ensures EncodeFrom(k, n) == EncodeFrom(k + 1, n)
  {
  }

  /** One step of the inner loop keeps `res` a prefix of the greedy encoding. */
  lemma AppendTake(res: string, k: nat, n: int, target: string)
    requires k < |Table| && n >= Table[k].0
    requires res + EncodeFrom(k, n) == target
    ensures res + Table[k].1 + EncodeFrom(k, n - Table[k].0) == target
  {
    var sym, later := Table[k].1, EncodeFrom(k, n - Table[k].0);
    EncodeFromTake(k, n);
    assert res + (sym + later) == (res + sym) + later;
  }

  /**
   * One step of the inner loop keeps `Decode(res) + n == num`, and leaves
   * `res` ending with the last letter of entry k.
   */
  lemma AppendDecode(res: string, k: nat, n: int, num: int)
    requires k < |Table|
    requires Decode(res) + n == num
    requires res != "" ==> SymbolValue(res[|res| - 1]) >= LastValue(k)
    ensures Decode(res + Table[k].1) + (n - Table[k].0) == num
    ensures SymbolValue((res + Table[k].1)[|res + Table[k].1| - 1]) == LastValue(k)
  {
    TableSymbol(k);
    AppendSymbol(res, Table[k].1, Table[k].0);
  }

  /**
   * Appending a symbol that decodes to v, after a letter at least as large
   * as its first, adds v and ends the string with the symbol's last letter.
   */
  lemma AppendSymbol(res: string, sym: string, v: int)
    requires sym != "" && Decode(sym) == v
    requires res != "" ==> SymbolValue(res[|res| - 1]) >= SymbolValue(sym[0])
    ensures Decode(res + sym) == Decode(res) + v
    ensures (res + sym)[|res + sym| - 1] == sym[|sym| - 1]
  {
    DecodeAppend(res, sym);
  }

  /**
   * Decoding the greedy encoding from entry k gives back n; the encoding
   * starts with a letter no larger than the last letter of entry k.
   */
  lemma {:induction false} DecodeEncodeFrom(k: nat, n: int)
    requires k < |Table| && n >= 0
    ensures Decode(EncodeFrom(k, n)) == n
    ensures EncodeFrom(k, n) != "" ==> SymbolValue(EncodeFrom(k, n)[0]) <= LastValue(k)
    decreases |Table| - k, n
  {
    TableOrder(k);
    TableSymbol(k);
    if n >= Table[k].0 {
      DecodeEncodeFrom(k, n - Table[k].0);
      DecodeAppend(Table[k].1, EncodeFrom(k, n - Table[k].0));
    } else if k + 1 < |Table| {
      DecodeEncodeFrom(k + 1, n);
    }
  }

  /** Round trip: decoding the encoding of any n >= 0 gives back n. */
  lemma RoundTrip(n: int)
    requires n >= 0
    ensures Decode(Encode(n)) == n
  {
    DecodeEncodeFrom(0, n);
  }

  /** Zero and negative numbers encode to the empty string. */
  lemma {:induction false} EncodeNonPositive(k: nat, n: int)
    requires k <= |Table| && n <= 0
    ensures EncodeFrom(k, n) == ""
    decreases |Table| - k
  {
    if k < |Table| {
      TableOrder(k);
      EncodeNonPositive(k + 1, n);
    }
  }

  /** Every character of an encoding is one of the seven numeral letters. */
  lemma {:induction false} EncodeLetters(k: nat, n: int)
    requires k <= |Table|
    ensures forall c :: c in EncodeFrom(k, n) ==> IsNumeralLetter(c)
    decreases |Table| - k, n
  {
    if k < |Table| {
      TableOrder(k);
      TableLetters(k);
      if n >= Table[k].0 {
        EncodeLetters(k, n - Table[k].0);
      } else {
        EncodeLetters(k + 1, n);
      }
    }
  }
}
