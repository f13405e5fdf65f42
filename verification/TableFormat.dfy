/** num_fmt of src/output/table.rs: decimal numbers with thousands separators. */
module TableFormat {
  import opened Bytes
  import opened Sequences

  function Digit(d: nat): char
    requires d < 10
  {
    '0' + d as char
  }

  function Decimal(n: nat): string {
    if n < 10 then [Digit(n)] else Decimal(n / 10) + [Digit(n % 10)]
  }

  /** Reading a decimal numeral, most significant digit first. */
  function ReadDecimal(s: string): int {
    if s == [] then 0 else 10 * ReadDecimal(Front(s)) + (Last(s) as int - '0' as int)
  }

  predicate NotComma(c: char) {
    c != ','
  }

  lemma {:induction false} DecimalReads(n: nat)
    ensures ReadDecimal(Decimal(n)) == n
    ensures Decimal(n) != [] && forall c | c in Decimal(n) :: NotComma(c)
  {
    if n < 10 {
      assert Front(Decimal(n)) == [];
    } else {
      DecimalReads(n / 10);
      Snoc(Decimal(n / 10), Digit(n % 10));
    }
  }

  predicate IsDigit(c: char) {
    '0' <= c <= '9'
  }

  /** The number of decimal digits of n: the least d from 1 on with n below ten to the d. */
  predicate DigitCount(n: nat, d: nat) {
    d >= 1 && n < Pow(10, d) && (d > 1 ==> Pow(10, d - 1) <= n)
  }

  lemma {:induction false} DecimalShape(n: nat)
    ensures DigitCount(n, |Decimal(n)|) && forall c | c in Decimal(n) :: IsDigit(c)
    ensures Decimal(n)[0] == '0' <==> n == 0
  {
    if n < 10 {
      assert Pow(10, 1) == 10;
    } else {
      DecimalShape(n / 10);
    }
  }

  lemma {:induction false} TensAscend(c: nat, d: nat)
    requires c <= d
    ensures Pow(10, c) <= Pow(10, d)
    decreases d
  {
    if c == d {
    } else {
      TensAscend(c, d - 1);
    }
  }

  lemma DigitCountUnique(n: nat, c: nat, d: nat)
    requires DigitCount(n, c) && DigitCount(n, d)
    ensures c == d
  {
    if c < d { TensAscend(c, d - 1); }
    if d < c { TensAscend(d, c - 1); }
  }

  function Reverse(s: string): string {
    seq(|s|, i requires 0 <= i < |s| => s[|s| - 1 - i])
  }

  lemma ReverseSnoc(s: string, c: char)
    ensures Reverse(s + [c]) == [c] + Reverse(s)
  {
  }

  lemma {:induction false} FilterReverse(s: string)
    ensures Filter(Reverse(s), NotComma) == Reverse(Filter(s, NotComma))
  {
    if s == [] {
    } else {
      FilterReverse(Front(s));
      ReverseSnoc(Front(s), Last(s));
      assert s == Front(s) + [Last(s)];
      FilterConcat([Last(s)], Reverse(Front(s)), NotComma);
      ReverseSnoc(Filter(Front(s), NotComma), Last(s));
      assert Filter([Last(s)], NotComma) == if NotComma(Last(s)) then [Last(s)] else [];
    }
  }

  /** Commas stand exactly at every fourth place counted from the right. */
  ghost predicate GroupedByThree(s: string) {
    forall j | 0 <= j < |s| :: s[|s| - 1 - j] == ',' <==> j % 4 == 3
  }

  /** The reversed numeral after `digits` digits: a comma after every third one that is followed by another. */
  ghost predicate Pushed(s: string, digits: nat) {
    && |s| == (if digits == 0 then 0 else digits + (digits - 1) / 3)
    && forall j | 0 <= j < |s| :: s[j] == ',' <==> j % 4 == 3
  }

  lemma PlaceOfComma(digits: nat)
    requires digits > 0
    ensures (digits + (digits - 1) / 3) % 4 == if digits % 3 == 0 then 3 else digits % 3
  {
    var q, r := digits / 3, digits % 3;
    if r == 0 {
      ModUnique(digits - 1, 3, q - 1, 2);
      ModUnique(digits + q - 1, 4, q - 1, 3);
    } else {
      ModUnique(digits - 1, 3, q, r - 1);
      ModUnique(digits + q, 4, q, r);
    }
  }

  lemma PushDigit(s: string, digits: nat, c: char)
    requires Pushed(s, digits) && NotComma(c)
    ensures var t := if digits > 0 && digits % 3 == 0 then s + [','] else s;
            Pushed(t + [c], digits + 1) && Filter(t + [c], NotComma) == Filter(s, NotComma) + [c]
  {
    if digits > 0 {
      PlaceOfComma(digits);
    }
    if digits > 0 && digits % 3 == 0 {
      assert ((digits + 1) - 1) / 3 == (digits - 1) / 3 + 1;
      assert forall j | 0 <= j < |s| :: (s + [','] + [c])[j] == s[j];
      FilterSnoc(s, ',', NotComma);
      FilterSnoc(s + [','], c, NotComma);
    } else {
      FilterSnoc(s, c, NotComma);
    }
  }

  lemma ReverseCons(c: char, s: string)
    ensures Reverse([c] + s) == Reverse(s) + [c]
  {
  }

  lemma TailCons(s: string, i: nat)
    requires i < |s|
    ensures s[|s| - (i + 1)..] == [s[|s| - 1 - i]] + s[|s| - i..]
  {
  }

  /** The loop over the reversed digits. */
  method PushAll(s: string) returns (result: string)
    requires forall c | c in s :: NotComma(c)
    ensures Pushed(result, |s|) && Filter(result, NotComma) == Reverse(s)
  {
    result := "";
    ghost var tail := "";
    for i := 0 to |s|
      invariant tail == s[|s| - i..]
      invariant Pushed(result, i) && Filter(result, NotComma) == Reverse(tail)
    {
      var c := s[|s| - 1 - i];
      TailCons(s, i);
      PushDigit(result, i, c);
      ReverseCons(c, tail);
      if i > 0 && i % 3 == 0 {
        result := result + [','];
      }
      result := result + [c];
      tail := [c] + tail;
    }
  }

  lemma UnReverse(s: string, r: string)
    requires Filter(s, NotComma) == Reverse(r)
    ensures Filter(Reverse(s), NotComma) == r
  {
    FilterReverse(s);
    assert Reverse(Reverse(r)) == r;
  }

  lemma ReversePlaces(s: string, digits: nat)
    requires Pushed(s, digits)
    ensures GroupedByThree(Reverse(s))
  {
  }

  lemma {:induction false} FirstPasses(s: string)
    requires s != [] && NotComma(s[0])
    ensures Filter(s, NotComma) != [] && Filter(s, NotComma)[0] == s[0]
  {
    if |s| == 1 {
      assert Front(s) == [];
    } else {
      FirstPasses(Front(s));
    }
  }

  lemma StartsAsNumeral(r: string, n: nat)
    requires GroupedByThree(r) && Filter(r, NotComma) == Decimal(n)
    requires |r| == |Decimal(n)| + (|Decimal(n)| - 1) / 3
    ensures r != [] && (r[0] == '0' <==> n == 0) && (n == 0 ==> r == "0")
    ensures forall c | c in r :: c == ',' || IsDigit(c)
    ensures forall d: nat | DigitCount(n, d) :: |r| == d + (d - 1) / 3
  {
    DecimalShape(n);
    PlaceOfComma(|Decimal(n)|);
    var top := |r| - 1;
    assert top % 4 != 3 && r[|r| - 1 - top] == r[0];
    FirstPasses(r);
    forall c | c in r ensures c == ',' || IsDigit(c) { FilterMembers(r, NotComma, c); }
    forall d: nat | DigitCount(n, d) ensures d == |Decimal(n)| { DigitCountUnique(n, d, |Decimal(n)|); }
  }

  /** Digits with commas at every fourth place, which without the commas read as
      the number. There is no leading zero but in "0", and the d digits that the
      number has take (d - 1) / 3 commas. */
  method NumFmt(n: nat) returns (r: string)
    ensures GroupedByThree(r) && forall c | c in r :: c == ',' || IsDigit(c)
    ensures Filter(r, NotComma) == Decimal(n) && ReadDecimal(Filter(r, NotComma)) == n
    ensures r != [] && (r[0] == '0' <==> n == 0) && (n == 0 ==> r == "0")
    ensures forall d: nat | DigitCount(n, d) :: |r| == d + (d - 1) / 3
  {
    var s := Decimal(n);
    DecimalReads(n);
    var result := PushAll(s);
    UnReverse(result, s);
    ReversePlaces(result, |s|);
    r := Reverse(result);
    StartsAsNumeral(r, n);
  }
}
