/**
  Question identifiers. A record's ID is the text `Q<n>` (Python's f"Q{n}"),
  and a new ID is derived from the existing ones by taking the greatest ID
  *as a string*, deleting every 'Q' from it, parsing the rest as an integer
  and adding one. This module gives the decimal text of integers, its parse,
  Python's ordering of strings, and the "greatest string" of a sequence.
*/
module Ids {
  import opened Wrappers

  // ---------------------------------------------------------------------------
  // Decimal text of integers (Python's str(int))
  // ---------------------------------------------------------------------------

  predicate IsDigit(c: char) { '0' <= c <= '9' }

  function DigitChar(d: nat): (c: char)
    requires d < 10
    ensures IsDigit(c)
  {
    (('0' as int) + d) as char
  }

  function DigitValue(c: char): (d: nat)
    requires IsDigit(c)
    ensures d < 10 && DigitChar(d) == c
  {
    (c as int) - ('0' as int)
  }

  /** The decimal digits of `n`, most significant first, without leading zeros. */
  function Digits(n: nat): (s: string)
    ensures |s| >= 1
    ensures forall i | 0 <= i < |s| :: IsDigit(s[i])
    ensures s[0] == '0' ==> n == 0
    ensures n >= 10 <==> |s| >= 2
    decreases n
  {
    if n < 10 then [DigitChar(n)] else Digits(n / 10) + [DigitChar(n % 10)]
  }

  /** `str(n)` for any integer: a minus sign before the digits of a negative number. */
  function IntText(n: int): string {
    if n < 0 then "-" + Digits(-n) else Digits(n)
  }

  /** The ID the source writes for question number `n`: f"Q{n}". */
  function IdOf(n: int): string {
    "Q" + IntText(n)
  }

  /** The value of a non-empty run of decimal digits; None for anything else. */
  function ParseDigits(s: string): (r: Option<nat>)
    ensures r.Some? <==> |s| > 0 && forall i | 0 <= i < |s| :: IsDigit(s[i])
  {
    if |s| == 0 || !IsDigit(s[|s| - 1]) then None
    else if |s| == 1 then Some(DigitValue(s[0]))
    else match ParseDigits(s[..|s| - 1])
      case None => None
      case Some(v) => Some(v * 10 + DigitValue(s[|s| - 1]))
  }

  /** Python's int(s) on an optional minus sign followed by digits; None stands for the ValueError. */
  function ParseInt(s: string): Option<int> {
    if |s| > 0 && s[0] == '-' then
      match ParseDigits(s[1..])
      case None => None
      case Some(v) => Some(-(v as int))
    else
      match ParseDigits(s)
      case None => None
      case Some(v) => Some(v as int)
  }

  /** Python's s.replace('Q', ''): every 'Q' removed. */
  function StripQ(s: string): (r: string)
    ensures |r| <= |s|
    ensures forall i | 0 <= i < |r| :: r[i] != 'Q'
  {
    if s == [] then []
    else (if s[0] == 'Q' then [] else [s[0]]) + StripQ(s[1..])
  }

  lemma {:induction false} ParseDigitsOfDigits(n: nat)
    ensures ParseDigits(Digits(n)) == Some(n)
    decreases n
  {
    if n >= 10 {
      var s := Digits(n);
      assert s[..|s| - 1] == Digits(n / 10);
      ParseDigitsOfDigits(n / 10);
    }
  }

  lemma {:induction false} StripQOfQFree(s: string)
    requires forall i | 0 <= i < |s| :: s[i] != 'Q'
    ensures StripQ(s) == s
  {
    if s != [] {
      StripQOfQFree(s[1..]);
    }
  }

  lemma StripQOfId(n: int)
    ensures StripQ(IdOf(n)) == IntText(n)
  {
    var t := IntText(n);
    assert IdOf(n) == ['Q'] + t;
    assert IdOf(n)[1..] == t;
    StripQOfQFree(t);
  }

  lemma ParseIntOfText(n: int)
    ensures ParseInt(IntText(n)) == Some(n)
  {
    if n < 0 {
      assert IntText(n) == "-" + Digits(-n);
      ParseIntOfNegative(-n);
    } else {
      assert IntText(n) == Digits(n);
      ParseIntOfDigits(n);
    }
  }

  lemma ParseIntOfDigits(n: nat)
    ensures ParseInt(Digits(n)) == Some(n)
  {
    ParseDigitsOfDigits(n);
    assert IsDigit(Digits(n)[0]);
  }

  lemma ParseIntOfNegative(n: nat)
    requires n > 0
    ensures ParseInt("-" + Digits(n)) == Some(-(n as int))
  {
    var t := "-" + Digits(n);
    assert t[1..] == Digits(n);
    ParseDigitsOfDigits(n);
  }

  /** Parsing an ID the way the source does gives back the number it was made from. */
  lemma IdRoundTrip(n: int)
    ensures ParseInt(StripQ(IdOf(n))) == Some(n)
  {
    StripQOfId(n);
    ParseIntOfText(n);
  }

  /** Distinct numbers have distinct IDs. */
  lemma IdInjective(a: int, b: int)
    requires IdOf(a) == IdOf(b)
    ensures a == b
  {
    IdRoundTrip(a);
    IdRoundTrip(b);
  }

  lemma DigitsInjective(a: nat, b: nat)
    requires Digits(a) == Digits(b)
    ensures a == b
  {
    ParseDigitsOfDigits(a);
    ParseDigitsOfDigits(b);
  }

  // ---------------------------------------------------------------------------
  // Python's ordering of strings (code point by code point)
  // ---------------------------------------------------------------------------

  /** Python's `a < b` on str: the first differing character decides, and a proper prefix is smaller. */
  predicate Below(a: string, b: string) {
    if |a| == 0 then |b| > 0
    else if |b| == 0 then false
    else a[0] < b[0] || (a[0] == b[0] && Below(a[1..], b[1..]))
  }

  lemma {:induction false} BelowIrreflexive(a: string)
    ensures !Below(a, a)
  {
    if |a| > 0 {
      BelowIrreflexive(a[1..]);
    }
  }

  lemma {:induction false} BelowTransitive(a: string, b: string, c: string)
    requires Below(a, b) && Below(b, c)
    ensures Below(a, c)
  {
    if |a| > 0 && a[0] == b[0] && b[0] == c[0] {
      BelowTransitive(a[1..], b[1..], c[1..]);
    }
  }

  lemma {:induction false} BelowTotal(a: string, b: string)
    requires a != b
    ensures Below(a, b) || Below(b, a)
  {
    if |a| > 0 && |b| > 0 && a[0] == b[0] {
      assert a == [a[0]] + a[1..] && b == [b[0]] + b[1..];
      BelowTotal(a[1..], b[1..]);
    }
  }

  /** On strings of equal length, appending one character to each refines the order by that character. */
  lemma {:induction false} BelowSnoc(a: string, b: string, x: char, y: char)
    requires |a| == |b|
    ensures Below(a + [x], b + [y]) <==> Below(a, b) || (a == b && x < y)
  {
    if |a| > 0 {
      assert (a + [x])[1..] == a[1..] + [x];
      assert (b + [y])[1..] == b[1..] + [y];
      BelowSnoc(a[1..], b[1..], x, y);
      assert a == b <==> a[0] == b[0] && a[1..] == b[1..];
    }
  }

  /** Digit strings of the same width are ordered as the numbers they denote. */
  lemma {:induction false} SameWidthBelow(a: nat, b: nat)
    requires |Digits(a)| == |Digits(b)|
    ensures Below(Digits(a), Digits(b)) <==> a < b
    decreases a
  {
    if a >= 10 {
      SameWidthBelow(a / 10, b / 10);
      BelowSnoc(Digits(a / 10), Digits(b / 10), DigitChar(a % 10), DigitChar(b % 10));
      if Digits(a / 10) == Digits(b / 10) {
        DigitsInjective(a / 10, b / 10);
      } else if a / 10 == b / 10 {
        assert false;
      }
    }
  }

  /** Two IDs of non-negative numbers whose digits have the same width are ordered as the numbers. */
  lemma SameWidthIdBelow(a: nat, b: nat)
    requires |Digits(a)| == |Digits(b)|
    ensures Below(IdOf(a), IdOf(b)) <==> a < b
  {
    assert IdOf(a)[1..] == Digits(a) && IdOf(b)[1..] == Digits(b);
    SameWidthBelow(a, b);
  }

  // ---------------------------------------------------------------------------
  // Python's max() of a sequence of strings, and the next question number
  // ---------------------------------------------------------------------------

  /** max(ids): an element no other element is above. */
  function MaxText(ids: seq<string>): (m: string)
    requires |ids| > 0
    ensures m in ids
    ensures forall x | x in ids :: !Below(m, x)
    ensures forall x | x in ids && x != m :: Below(x, m)
  {
    if |ids| == 1 then
      BelowIrreflexive(ids[0]);
      ids[0]
    else
      var rest := MaxText(ids[1..]);
      if Below(rest, ids[0]) then
        MaxBeyond(rest, ids[0], ids[1..]);
        BelowIrreflexive(ids[0]);
        Greatest(ids, ids[0]);
        ids[0]
      else
        Greatest(ids, rest);
        rest
  }

  /** An element no other element is above is above every other element. */
  lemma Greatest(ids: seq<string>, m: string)
    requires forall x | x in ids :: !Below(m, x)
    ensures forall x | x in ids && x != m :: Below(x, m)
  {
    forall x | x in ids && x != m
      ensures Below(x, m)
    {
      BelowTotal(x, m);
    }
  }

  lemma MaxBeyond(m: string, top: string, xs: seq<string>)
    requires Below(m, top)
    requires forall x | x in xs :: !Below(m, x)
    ensures forall x | x in xs :: !Below(top, x)
  {
    forall x | x in xs
      ensures !Below(top, x)
    {
      if Below(top, x) {
        BelowTransitive(m, top, x);
      }
    }
  }

  /**
    The number the source gives the next question:
    int(max(ids).replace('Q', '')) + 1. None stands for the ValueError that
    max() raises on an empty table or int() raises on text that is not a number.
  */
  function NextNumber(ids: seq<string>): Option<int> {
    if |ids| == 0 then None
    else match ParseInt(StripQ(MaxText(ids)))
      case None => None
      case Some(v) => Some(v + 1)
  }

  /** max() and hence the next number depend only on which IDs the table holds, not on their order. */
  lemma NextNumberReorder(a: seq<string>, b: seq<string>)
    requires multiset(a) == multiset(b)
    ensures NextNumber(a) == NextNumber(b)
  {
    assert |multiset(a)| == |a| && |multiset(b)| == |b|;
    if |a| > 0 {
      var ma, mb := MaxText(a), MaxText(b);
      assert ma in multiset(b) && mb in multiset(a);
      assert !Below(mb, ma);
      assert ma == mb;
    }
  }

  /** When the greatest ID is Q`n`, the next number is `n` + 1. */
  lemma NextNumberOfMax(ids: seq<string>, n: int)
    requires |ids| > 0 && MaxText(ids) == IdOf(n)
    ensures NextNumber(ids) == Some(n + 1)
  {
    IdRoundTrip(n);
  }

  /** `x` is the ID of a non-negative number written with `w` digits. */
  ghost predicate HasWidth(x: string, w: nat) {
    exists n: nat :: x == IdOf(n) && |Digits(n)| == w
  }

  /** Numbers from 1000 to 9999 are written with four digits. */
  lemma FourDigits(n: nat)
    requires 1000 <= n <= 9999
    ensures |Digits(n)| == 4
  {
    assert Digits(n) == Digits(n / 10) + [DigitChar(n % 10)];
    assert Digits(n / 10) == Digits(n / 100) + [DigitChar(n / 10 % 10)];
    assert Digits(n / 100) == Digits(n / 1000) + [DigitChar(n / 100 % 10)];
  }

  /** Only numbers from 1000 to 9999 are written with four digits. */
  lemma FourDigitRange(n: nat)
    ensures |Digits(n)| == 4 <==> 1000 <= n <= 9999
  {
    if 1000 <= n <= 9999 {
      FourDigits(n);
    } else if n >= 10000 {
      AtLeastFiveDigits(n);
    } else if n >= 10 {
      assert Digits(n) == Digits(n / 10) + [DigitChar(n % 10)];
      if n >= 100 {
        assert Digits(n / 10) == Digits(n / 100) + [DigitChar(n / 10 % 10)];
      }
    }
  }

  lemma {:induction false} AtLeastFiveDigits(n: nat)
    requires n >= 10000
    ensures |Digits(n)| >= 5
    decreases n
  {
    assert Digits(n) == Digits(n / 10) + [DigitChar(n % 10)];
    if n / 10 >= 10000 {
      AtLeastFiveDigits(n / 10);
    } else {
      FourDigits(n / 10);
    }
  }

  /**
    While all IDs have the same number of digits, the string maximum is the
    numeric maximum: the next number is one more than the greatest number in
    use, and its ID is not in use.
  */
  lemma NextNumberSameWidth(ids: seq<string>, w: nat)
    requires |ids| > 0
    requires forall x | x in ids :: HasWidth(x, w)
    ensures NextNumber(ids).Some?
    ensures IdOf(NextNumber(ids).value - 1) in ids
    ensures forall n: nat | IdOf(n) in ids :: n < NextNumber(ids).value
    ensures IdOf(NextNumber(ids).value) !in ids
  {
    var top := TopNumber(ids, w);
    NumbersUpToTop(ids, w, top);
  }

  /** The greatest ID, read back as a number; the next number is one more. */
  lemma TopNumber(ids: seq<string>, w: nat) returns (top: nat)
    requires |ids| > 0
    requires forall x | x in ids :: HasWidth(x, w)
    ensures MaxText(ids) == IdOf(top) && |Digits(top)| == w
    ensures NextNumber(ids) == Some(top + 1)
  {
    var m := MaxText(ids);
    assert HasWidth(m, w);
    top :| m == IdOf(top) && |Digits(top)| == w;
    NextNumberOfMax(ids, top);
  }

  /** With all IDs `w` digits wide, no ID in use has a number above the greatest ID's. */
  lemma NumbersUpToTop(ids: seq<string>, w: nat, top: nat)
    requires |ids| > 0
    requires forall x | x in ids :: HasWidth(x, w)
    requires MaxText(ids) == IdOf(top) && |Digits(top)| == w
    ensures forall n: nat | IdOf(n) in ids :: n <= top
  {
    forall n: nat | IdOf(n) in ids
      ensures n <= top
    {
      assert HasWidth(IdOf(n), w);
      var k: nat :| IdOf(n) == IdOf(k) && |Digits(k)| == w;
      IdInjective(n, k);
      SameWidthIdBelow(top, n);
    }
  }

  /**
    Once the numbers outgrow four digits the string maximum stops being the
    numeric one: with Q9999 and Q10000 in the table, max() picks "Q9999",
    so the next ID is Q10000 again.
  */
  lemma WiderIdRepeats()
    ensures NextNumber(["Q9999", "Q10000"]) == Some(10000)
    ensures IdOf(10000) == "Q10000"
  {
    WiderIdIsBelow();
    NinesParse();
    TenThousandId();
  }

  /**
    The repetition lasts: while Q9999 is in the table and every ID is f"Q{n}"
    for some n in 1000..10000, max() keeps picking "Q9999" and every
    submission is numbered 10000. Adding Q10000 keeps both conditions, so each
    later submission gets Q10000 as well.
  */
  lemma NinesStayGreatest(ids: seq<string>)
    requires IdOf(9999) in ids
    requires forall x | x in ids :: exists n: int :: 1000 <= n <= 10000 && x == IdOf(n)
    ensures MaxText(ids) == IdOf(9999)
    ensures NextNumber(ids) == Some(10000)
  {
    var m := MaxText(ids);
    var n: int :| 1000 <= n <= 10000 && m == IdOf(n);
    if n == 10000 {
      TenThousandBelowNines();
    } else {
      FourDigits(n);
      FourDigits(9999);
      SameWidthIdBelow(9999, n);
    }
    assert !Below(IdOf(9999), m);
    NextNumberOfMax(ids, 9999);
  }

  /** "Q10000" < "Q9999" and not the other way round. */
  lemma TenThousandBelowNines()
    ensures Below(IdOf(10000), IdOf(9999))
    ensures !Below(IdOf(9999), IdOf(10000))
  {
    TenThousandId();
    assert IdOf(9999) == "Q9999" by {
      assert Digits(9) == "9" && Digits(99) == "99" && Digits(999) == "999";
    }
    assert Below("Q10000", "Q9999") by {
      assert "Q10000"[1..] == "10000" && "Q9999"[1..] == "9999";
    }
    if Below("Q9999", "Q10000") {
      BelowTransitive("Q10000", "Q9999", "Q10000");
      BelowIrreflexive("Q10000");
    }
  }

  lemma TenThousandId()
    ensures IdOf(10000) == "Q10000"
  {
    assert Digits(10) == "10";
    assert Digits(100) == "100";
    assert Digits(1000) == "1000";
  }

  /** As strings, "Q10000" < "Q9999": the second characters decide. */
  lemma WiderIdIsBelow()
    ensures MaxText(["Q9999", "Q10000"]) == "Q9999"
  {
    assert Below("Q10000", "Q9999") by {
      assert "Q10000"[1..] == "10000" && "Q9999"[1..] == "9999";
    }
    BelowIrreflexive("Q10000");
  }

  lemma NinesParse()
    ensures ParseInt(StripQ("Q9999")) == Some(9999)
  {
    assert StripQ("Q9999") == "9999" by {
      StripQOfQFree("9999");
    }
    assert "9999"[..3] == "999" && "999"[..2] == "99" && "99"[..1] == "9";
    assert ParseDigits("9999") == Some(9999);
  }
}
