/**
 * The canonical shape of Roman numerals, place value by place value, and
 * what the codec guarantees about it.
 *
 * Places(th, h, t, u) spells thousands as a run of M and each lower place
 * with the standard pattern for its digit (nothing, one to three of the
 * unit letter, the subtractive pair for 4, the five letter followed by up
 * to three unit letters, the subtractive pair for 9). It is the reference
 * the greedy encoder is proved against, and the numerals the grammar admits
 * at a `roman` leaf are exactly the non-empty strings of that shape with at
 * most three M.
 */
module RomanCanonical {
  import opened RomanCodec

  /** count copies of s, one after the other. */
  function Repeat(s: string, count: nat): string
  {
    if count == 0 then "" else s + Repeat(s, count - 1)
  }

  /** A repetition holds only letters of the repeated string. */
  lemma {:induction false} RepeatLetters(s: string, count: nat)
    ensures forall c :: c in Repeat(s, count) ==> c in s
  {
    if count > 0 {
      RepeatLetters(s, count - 1);
    }
  }

  /**
   * The canonical spelling of the decimal digit d at one place, given the
   * letters for one, five and ten units of that place.
   */
  function Digit(d: nat, one: char, five: char, ten: char): string
    requires d <= 9
  {
    if d == 9 then [one, ten]
    else if d >= 5 then [five] + Repeat([one], d - 5)
    else if d == 4 then [one, five]
    else Repeat([one], d)
  }

  /** A numeral spelled place by place. */
  function Places(th: nat, h: nat, t: nat, u: nat): string
    requires h <= 9 && t <= 9 && u <= 9
  {
    Repeat("M", th) + (Digit(h, 'C', 'D', 'M') + (Digit(t, 'X', 'L', 'C') + Digit(u, 'I', 'V', 'X')))
  }

  /** The canonical numeral for n >= 0, read off its decimal digits. */
  function CanonicalNumeral(n: nat): string
  {
    var belowThousand := n % 1000;
    var belowHundred := belowThousand % 100;
    Places(n / 1000, belowThousand / 100, belowHundred / 10, belowHundred % 10)
  }

  /**
   * The strings the grammar accepts as a `roman` leaf: at most three M,
   * then a canonical hundreds, tens and units pattern, and not empty.
   */
  ghost predicate WellFormedNumeral(s: string) {
    s != "" &&
    exists th: nat, h: nat, t: nat, u: nat
      | th <= 3 && h <= 9 && t <= 9 && u <= 9 :: s == Places(th, h, t, u)
  }

  /** The same symbol at positions i, i + 1, i + 2 and i + 3. */
  predicate RunAt(s: string, i: nat)
    requires i + 3 < |s|
  {
    s[i] == s[i + 1] && s[i + 1] == s[i + 2] && s[i + 2] == s[i + 3]
  }

  /** No symbol occurs four or more times in a row. */
  predicate NoRunOfFour(s: string) {
    forall i: nat :: i + 3 < |s| ==> !RunAt(s, i)
  }

  /**
   * One table stage of the greedy encoder: from entry k, q * value + r
   * with r below the entry's value yields q copies of its symbol and then
   * the encoding of r from the next entry.
   */
  lemma {:induction false} EncodeStage(k: nat, q: nat, r: int)
    requires k < |Table| && 0 <= r < Table[k].0
    ensures EncodeFrom(k, q * Table[k].0 + r) == Repeat(Table[k].1, q) + EncodeFrom(k + 1, r)
  {
    TableOrder(k);
    EncodeRepeat(k, Table[k].0, Table[k].1, q, r);
  }

  /** EncodeStage, with the entry's value v and symbol sym named. */
  lemma {:induction false} EncodeRepeat(k: nat, v: int, sym: string, q: nat, r: int)
    requires k < |Table| && v == Table[k].0 && sym == Table[k].1 && 0 <= r < v
    ensures EncodeFrom(k, q * v + r) == Repeat(sym, q) + EncodeFrom(k + 1, r)
  {
    if q == 0 {
      assert q * v + r == r;
      EncodeFromSkip(k, r);
    } else {
      EncodeRepeat(k, v, sym, q - 1, r);
      assert q * v + r == ((q - 1) * v + r) + v;
      TakeOnce(k, v, sym, q * v + r, (q - 1) * v + r, Repeat(sym, q - 1), EncodeFrom(k + 1, r));
    }
  }

  /** One more copy of entry k's symbol in front of an encoding from entry k. */
  lemma TakeOnce(k: nat, v: int, sym: string, m: int, m': int, copies: string, later: string)
    requires k < |Table| && v == Table[k].0 && sym == Table[k].1 && 0 < v
    requires m == m' + v && m' >= 0
    requires EncodeFrom(k, m') == copies + later
    ensures EncodeFrom(k, m) == sym + copies + later
  {
    EncodeFromTake(k, m);
    assert sym + (copies + later) == sym + copies + later;
  }

  /**
   * The four table entries of one place, starting at entry k: the 9, 5, 4
   * and 1 multiples of the place's unit p, spelled with its one, five and
   * ten letters.
   */
  ghost predicate PlaceEntries(k: nat, p: int, one: char, five: char, ten: char) {
    k + 4 <= |Table| && p >= 1 &&
    Table[k].0 == 9 * p && Table[k].1 == [one, ten] &&
    Table[k + 1].0 == 5 * p && Table[k + 1].1 == [five] &&
    Table[k + 2].0 == 4 * p && Table[k + 2].1 == [one, five] &&
    Table[k + 3].0 == p && Table[k + 3].1 == [one]
  }

  /** The place entries spell a 9 as the subtractive pair of one and ten. */
  lemma PlaceNine(k: nat, p: int, one: char, five: char, ten: char, rest: int)
    requires PlaceEntries(k, p, one, five, ten) && 0 <= rest < p
    ensures EncodeFrom(k, 9 * p + rest) == [one, ten] + EncodeFrom(k + 4, rest)
  {
    EncodeFromTake(k, 9 * p + rest);
    EncodeFromSkip(k, rest);
    EncodeFromSkip(k + 1, rest);
    EncodeFromSkip(k + 2, rest);
    EncodeFromSkip(k + 3, rest);
  }

  /** The place entries spell 5 to 8 as five followed by up to three ones. */
  lemma PlaceFiveToEight(k: nat, p: int, one: char, five: char, ten: char, q: nat, rest: int)
    requires PlaceEntries(k, p, one, five, ten) && q <= 3 && 0 <= rest < p
    ensures EncodeFrom(k, 5 * p + (q * p + rest)) == [five] + Repeat([one], q) + EncodeFrom(k + 4, rest)
  {
    var ones, later := Repeat([one], q), EncodeFrom(k + 4, rest);
    PlaceBelowFour(k, p, one, five, ten, q, rest);
    FiveThenLow(k, p, one, five, ten, q * p + rest, ones + later);
    assert [five] + (ones + later) == [five] + ones + later;
  }

  /** Five units and then fewer than four: the five letter, then the rest. */
  lemma FiveThenLow(k: nat, p: int, one: char, five: char, ten: char, low: int, tail: string)
    requires PlaceEntries(k, p, one, five, ten) && 0 <= low < 4 * p
    requires EncodeFrom(k, low) == tail
    ensures EncodeFrom(k, 5 * p + low) == [five] + tail
  {
    EncodeFromSkip(k, 5 * p + low);
    EncodeFromTake(k + 1, 5 * p + low);
    EncodeFromSkip(k, low);
  }

  /** The place entries spell a 4 as the subtractive pair of one and five. */
  lemma PlaceFour(k: nat, p: int, one: char, five: char, ten: char, rest: int)
    requires PlaceEntries(k, p, one, five, ten) && 0 <= rest < p
    ensures EncodeFrom(k, 4 * p + rest) == [one, five] + EncodeFrom(k + 4, rest)
  {
    var m := 4 * p + rest;
    EncodeFromSkip(k, m);
    EncodeFromSkip(k + 1, m);
    EncodeFromTake(k + 2, m);
    EncodeFromSkip(k + 2, rest);
    EncodeFromSkip(k + 3, rest);
  }

  /** The place entries spell 0 to 3 as that many ones. */
  lemma PlaceBelowFour(k: nat, p: int, one: char, five: char, ten: char, d: nat, rest: int)
    requires PlaceEntries(k, p, one, five, ten) && d <= 3 && 0 <= rest < p
    ensures d * p + rest < 4 * p
    ensures EncodeFrom(k, d * p + rest) == Repeat([one], d) + EncodeFrom(k + 4, rest)
  {
    var m := d * p + rest;
    BelowFourUnits(d, p, rest);
    EncodeFromSkip(k, m);
    EncodeFromSkip(k + 1, m);
    EncodeFromSkip(k + 2, m);
    EncodeStage(k + 3, d, rest);
  }

  /** Up to three units plus a remainder stay below four units. */
  lemma BelowFourUnits(d: nat, p: int, rest: int)
    requires d <= 3 && 0 <= rest < p
    ensures d * p + rest < 4 * p
  {
    if d == 0 {
    } else if d == 1 {
    } else if d == 2 {
      assert d * p == p + p;
    } else {
      assert d * p == p + p + p;
    }
  }

  /** The four entries of one place spell its digit d canonically. */
  lemma PlaceStage(k: nat, p: int, one: char, five: char, ten: char, d: nat, rest: int)
    requires PlaceEntries(k, p, one, five, ten) && d <= 9 && 0 <= rest < p
    ensures EncodeFrom(k, d * p + rest) == Digit(d, one, five, ten) + EncodeFrom(k + 4, rest)
  {
    if d == 9 {
      PlaceNine(k, p, one, five, ten, rest);
    } else if d >= 5 {
      assert d * p + rest == 5 * p + ((d - 5) * p + rest);
      PlaceFiveToEight(k, p, one, five, ten, d - 5, rest);
    } else if d == 4 {
      PlaceFour(k, p, one, five, ten, rest);
    } else {
      PlaceBelowFour(k, p, one, five, ten, d, rest);
    }
  }

  /** The last four entries spell the units digit. */
  lemma UnitsPlace(u: nat)
    requires u <= 9
    ensures EncodeFrom(9, u) == Digit(u, 'I', 'V', 'X')
  {
    assert u == u * 1 + 0;
    PlaceStage(9, 1, 'I', 'V', 'X', u, 0);
    assert Digit(u, 'I', 'V', 'X') + "" == Digit(u, 'I', 'V', 'X');
  }

  /** Entries 5 to 8 spell the tens digit, then the units follow. */
  lemma TensPlace(t: nat, rest: int)
    requires t <= 9 && 0 <= rest < 10
    ensures EncodeFrom(5, t * 10 + rest) == Digit(t, 'X', 'L', 'C') + EncodeFrom(9, rest)
  {
    PlaceStage(5, 10, 'X', 'L', 'C', t, rest);
  }

  /** Entries 1 to 4 spell the hundreds digit, then the tens follow. */
  lemma HundredsPlace(h: nat, rest: int)
    requires h <= 9 && 0 <= rest < 100
    ensures EncodeFrom(1, h * 100 + rest) == Digit(h, 'C', 'D', 'M') + EncodeFrom(5, rest)
  {
    PlaceStage(1, 100, 'C', 'D', 'M', h, rest);
  }

  /** Entry 0 spells the thousands as a run of M, then the hundreds follow. */
  lemma ThousandsPlace(th: nat, rest: int)
    requires 0 <= rest < 1000
    ensures EncodeFrom(0, th * 1000 + rest) == Repeat("M", th) + EncodeFrom(1, rest)
  {
    assert Table[0] == (1000, "M");
    EncodeStage(0, th, rest);
  }

  /** The greedy encoding of a number given by its decimal digits, place by place. */
  lemma EncodePlaces(th: nat, h: nat, t: nat, u: nat)
    requires h <= 9 && t <= 9 && u <= 9
    ensures Encode(th * 1000 + h * 100 + t * 10 + u) == Places(th, h, t, u)
  {
    var r2 := t * 10 + u;
    var r1 := h * 100 + r2;
    UnitsPlace(u);
    TensPlace(t, u);
    HundredsPlace(h, r2);
    ThousandsPlace(th, r1);
  }

  /**
   * The greedy encoder produces the canonical numeral: thousands as a run
   * of M, and the standard pattern for each lower digit, with the
   * subtractive pair CM, CD, XC, XL, IX or IV for every 4 and 9.
   */
  lemma EncodeIsCanonical(n: nat)
    ensures Encode(n) == CanonicalNumeral(n)
  {
    var r1 := n % 1000;
    var r2 := r1 % 100;
    var th, h, t, u := n / 1000, r1 / 100, r2 / 10, r2 % 10;
    assert r2 == t * 10 + u;
    assert r1 == h * 100 + r2;
    assert n == th * 1000 + r1;
    EncodePlaces(th, h, t, u);
  }

  /** A repetition is as long as the repeated string times the count. */
  lemma {:induction false} RepeatLength(s: string, count: nat)
    ensures |Repeat(s, count)| == count * |s|
  {
    if count > 0 {
      RepeatLength(s, count - 1);
      assert count * |s| == (count - 1) * |s| + |s|;
    }
  }

  /** The shape of one canonical digit, for the run argument below. */
  lemma DigitShape(d: nat, one: char, five: char, ten: char)
    requires d <= 9 && one != five && one != ten
    ensures NoRunOfFour(Digit(d, one, five, ten))
    ensures forall c :: c in Digit(d, one, five, ten) ==> c in {one, five, ten}
    ensures Digit(d, one, five, ten) != "" ==> Digit(d, one, five, ten)[0] in {one, five}
  {
    var s := Digit(d, one, five, ten);
    assert Repeat([one], 1) == [one];
    assert Repeat([one], 2) == [one, one];
    assert Repeat([one], 3) == [one, one, one];
    if d == 8 {
      assert s == [five, one, one, one];
    } else if 5 <= d {
      assert |s| <= 3;
    } else if d <= 3 {
      assert s == Repeat([one], d);
    }
  }

  /** Gluing two strings at a change of letter cannot create a run of four. */
  lemma JoinNoRun(a: string, b: string)
    requires NoRunOfFour(a) && NoRunOfFour(b)
    requires a == "" || b == "" || a[|a| - 1] != b[0]
    ensures NoRunOfFour(a + b)
  {
    var s := a + b;
    forall i: nat | i + 3 < |s|
      ensures !RunAt(s, i)
    {
      if i + 3 < |a| {
        assert !RunAt(a, i);
        assert s[i..i + 4] == a[i..i + 4];
      } else if |a| <= i {
        var j := i - |a|;
        assert !RunAt(b, j);
        assert s[i..i + 4] == b[j..j + 4];
      } else {
        var j := |a| - 1;
        assert s[j] == a[j] && s[j + 1] == b[0];
      }
    }
  }

  /** A numeral with at most three M never repeats a symbol four times in a row. */
  lemma PlacesNoRunOfFour(th: nat, h: nat, t: nat, u: nat)
    requires th <= 3 && h <= 9 && t <= 9 && u <= 9
    ensures NoRunOfFour(Places(th, h, t, u))
  {
    var ms, hs := Repeat("M", th), Digit(h, 'C', 'D', 'M');
    var ts, us := Digit(t, 'X', 'L', 'C'), Digit(u, 'I', 'V', 'X');
    DigitShape(u, 'I', 'V', 'X');
    DigitShape(t, 'X', 'L', 'C');
    var tu := ts + us;
    assert NoRunOfFour(tu) && (tu != "" ==> tu[0] in {'X', 'L', 'I', 'V'}) by {
      if ts != "" {
        assert ts[|ts| - 1] in ts;
      }
      JoinNoRun(ts, us);
    }
    DigitShape(h, 'C', 'D', 'M');
    var htu := hs + tu;
    assert NoRunOfFour(htu) && (htu != "" ==> htu[0] in {'C', 'D', 'X', 'L', 'I', 'V'}) by {
      if hs != "" {
        assert hs[|hs| - 1] in hs;
      }
      JoinNoRun(hs, tu);
    }
    assert NoRunOfFour(ms) by {
      RepeatLength("M", th);
    }
    if ms != "" {
      RepeatLetters("M", th);
      assert ms[|ms| - 1] in ms;
    }
    JoinNoRun(ms, htu);
  }

  /**
   * A units digit of 4 or 9 is written with its subtractive pair: the
   * encoding ends in IV or IX.
   */
  lemma UnitsSubtractivePair(n: nat)
    requires n % 10 == 4 || n % 10 == 9
    ensures |Encode(n)| >= 2
    ensures Encode(n)[|Encode(n)| - 2..] == (if n % 10 == 4 then "IV" else "IX")
  {
    var r1 := n % 1000;
    var r2 := r1 % 100;
    var th, h, t, u := n / 1000, r1 / 100, r2 / 10, r2 % 10;
    assert u == n % 10;
    assert Encode(n) == Places(th, h, t, u) by {
      EncodeIsCanonical(n);
    }
    var pair := Digit(u, 'I', 'V', 'X');
    assert pair == (if u == 4 then "IV" else "IX");
    var front := Repeat("M", th) + (Digit(h, 'C', 'D', 'M') + Digit(t, 'X', 'L', 'C'));
    assert Places(th, h, t, u) == front + pair;
  }

  /**
   * For 1 <= n <= 3999 the encoding is a well-formed numeral, it uses only
   * the letters IVXLCDM, and no symbol appears more than three times in a
   * row.
   */
  lemma EncodeCanonicalProperties(n: int)
    requires 1 <= n <= 3999
    ensures WellFormedNumeral(Encode(n))
    ensures forall c :: c in Encode(n) ==> IsNumeralLetter(c)
    ensures NoRunOfFour(Encode(n))
  {
    var r1 := n % 1000;
    var r2 := r1 % 100;
    var th, h, t, u := n / 1000, r1 / 100, r2 / 10, r2 % 10;
    assert Encode(n) == Places(th, h, t, u) by {
      EncodeIsCanonical(n);
    }
    assert Encode(n) != "" by {
      RoundTrip(n);
    }
    EncodeLetters(0, n);
    PlacesNoRunOfFour(th, h, t, u);
  }

  /**
   * A numeral spelled place by place decodes to the number with those
   * digits, and it is the encoding of that number.
   */
  lemma PlacesRoundTrip(th: nat, h: nat, t: nat, u: nat)
    requires th <= 3 && h <= 9 && t <= 9 && u <= 9
    ensures Decode(Places(th, h, t, u)) == th * 1000 + h * 100 + t * 10 + u
    ensures Encode(Decode(Places(th, h, t, u))) == Places(th, h, t, u)
  {
    var s, n := Places(th, h, t, u), th * 1000 + h * 100 + t * 10 + u;
    assert Encode(n) == s by {
      EncodePlaces(th, h, t, u);
    }
    assert Decode(s) == n by {
      RoundTrip(n);
    }
  }

  /**
   * Every well-formed numeral is the encoding of its own value, and that
   * value lies in 1..3999: the canonical numerals and the encodings of
   * 1..3999 are the same strings.
   */
  lemma WellFormedNumeralRoundTrip(s: string)
    requires WellFormedNumeral(s)
    ensures 1 <= Decode(s) <= 3999
    ensures Encode(Decode(s)) == s
  {
    var th: nat, h: nat, t: nat, u: nat :|
      th <= 3 && h <= 9 && t <= 9 && u <= 9 && s == Places(th, h, t, u);
    PlacesRoundTrip(th, h, t, u);
    EncodeNonPositive(0, 0);
  }

  /** A string that is not the encoding of its own value is not well formed. */
  lemma NotWellFormed(s: string)
    requires Encode(Decode(s)) != s
    ensures !WellFormedNumeral(s)
  {
    if WellFormedNumeral(s) {
      WellFormedNumeralRoundTrip(s);
    }
  }

  /** The grammar rejects IIII, VV, IC and the empty string. */
  lemma RejectedNumerals()
    ensures !WellFormedNumeral("IIII") && !WellFormedNumeral("VV")
    ensures !WellFormedNumeral("IC") && !WellFormedNumeral("")
  {
    assert Encode(4) == "IV" by {
      EncodePlaces(0, 0, 0, 4);
      assert Repeat("I", 0) == "";
    }
    NotWellFormed("IIII");
    assert Encode(10) == "X" by {
      EncodePlaces(0, 0, 1, 0);
      assert Repeat("X", 1) == "X";
    }
    NotWellFormed("VV");
    assert Encode(99) == "XCIX" by {
      EncodePlaces(0, 0, 9, 9);
    }
    NotWellFormed("IC");
  }
}
