/** The customer's points ledger: fixed-price rewards, the spin wheel, and how
    a wheel segment's label is turned into a points prize. */
module Rewards {
  import opened Records

  /** Balances never go negative. */
  ghost predicate BalancesNonNegative(users: map<Phone, int>)
  {
    forall p :: p in users ==> users[p] >= 0
  }

  /** The fixed-price rewards and their cost in points. */
  const Catalog: map<string, nat> := map["Free Coffee" := 1000, "Discount $5" := 2000, "Free Snack" := 500]

  /** What one spin of the wheel costs. */
  const SpinCost: nat := 100

  /** The wheel, as labelled; a spin lands on one segment. */
  const WheelSegments: seq<string> := [
    "+10 Points", "Restaurant Voucher", "+20 Points", "Restaurant Voucher", "+50 Points",
    "Restaurant Voucher", "+100 Points", "Restaurant Voucher", "+200 Points", "Restaurant Voucher"
  ]

  /** What a segment awards: a number of points, a voucher (which the ledger
      does not track), or a label whose number cannot be read. */
  datatype Prize = PointsPrize(amount: nat) | Voucher | Malformed

  /** `pat` occurs in `s` starting at position k. */
  predicate OccursAt(s: string, pat: string, k: nat)
  {
    k + |pat| <= |s| && s[k..k + |pat|] == pat
  }

  /** Substring test: `pat in s`. */
  predicate Contains(s: string, pat: string)
  {
    exists k: nat :: k <= |s| && OccursAt(s, pat, k)
  }

  /** `s.replace(pat, "")`: drops every non-overlapping occurrence of `pat`,
      scanning from the left. */
  function RemoveAll(s: string, pat: string): string
    requires |pat| > 0
    decreases |s|
  {
    if |s| < |pat| then s
    else if s[..|pat|] == pat then RemoveAll(s[|pat|..], pat)
    else [s[0]] + RemoveAll(s[1..], pat)
  }

  predicate IsDigit(c: char)
  {
    '0' <= c <= '9'
  }

  /** The value of a string of decimal digits. */
  function DigitsValue(s: string): nat
    requires forall k :: 0 <= k < |s| ==> IsDigit(s[k])
  {
    if |s| == 0 then 0
    else assert IsDigit(s[|s| - 1]); DigitsValue(s[..|s| - 1]) * 10 + (s[|s| - 1] as int - '0' as int)
  }

  /** `int(s)` for an unsigned decimal numeral; anything else is rejected. */
  function ParseNat(s: string): Option<nat>
  {
    if |s| > 0 && forall k :: 0 <= k < |s| ==> IsDigit(s[k]) then Some(DigitsValue(s)) else None
  }

  /** A segment naming points is read by stripping the "+" and the
      " Points" suffix and converting what is left; any other segment is a
      voucher. */
  function ParsePrize(segment: string): Prize
  {
    if Contains(segment, "Points") then
      match ParseNat(RemoveAll(RemoveAll(segment, "+"), " Points"))
      case Some(n) => PointsPrize(n)
      case None => Malformed
    else Voucher
  }

  /** The points a spin landing on `segment` adds to the balance. */
  function PrizePoints(segment: string): nat
  {
    match ParsePrize(segment)
    case PointsPrize(n) => n
    case _ => 0
  }

  /** The decimal numeral of n, without sign or leading zeros. */
  function Decimal(n: nat): (s: string)
    ensures |s| > 0 && forall k :: 0 <= k < |s| ==> IsDigit(s[k])
  {
    if n < 10 then [DigitChar(n)]
    else Decimal(n / 10) + [DigitChar(n % 10)]
  }

  /** The character of a decimal digit. */
  function DigitChar(d: nat): (c: char)
    requires d < 10
    ensures IsDigit(c) && c as int - '0' as int == d
  {
    ('0' as int + d) as char
  }

  /** The label of a points segment. */
  function PointsLabel(n: nat): string
  {
    "+" + Decimal(n) + " Points"
  }

  /** Reading a numeral back gives the number. */
  lemma {:induction false} DigitsValueOfDecimal(n: nat)
    ensures DigitsValue(Decimal(n)) == n
  {
    if n >= 10 {
      var front := Decimal(n / 10);
      var s := Decimal(n);
      assert s[..|s| - 1] == front;
      DigitsValueOfDecimal(n / 10);
    }
  }

  /** Removing a pattern whose first character does not occur leaves the
      string as it is. */
  lemma {:induction false} RemoveAbsent(s: string, pat: string)
    requires |pat| > 0
    requires forall k :: 0 <= k < |s| ==> s[k] != pat[0]
    ensures RemoveAll(s, pat) == s
    decreases |s|
  {
    if |s| >= |pat| {
      assert s[..|pat|][0] == s[0];
      RemoveAbsent(s[1..], pat);
      assert s == [s[0]] + s[1..];
    }
  }

  /** Removing a suffix pattern after a string that never starts an
      occurrence of it (digits, here) leaves exactly that string. */
  lemma {:induction false} RemoveSuffix(s: string, pat: string)
    requires |pat| > 0
    requires forall k :: 0 <= k < |s| ==> s[k] != pat[0]
    ensures RemoveAll(s + pat, pat) == s
    decreases |s|
  {
    if |s| == 0 {
      assert s + pat == pat;
      assert pat[..|pat|] == pat && pat[|pat|..] == [];
    } else {
      var t := s + pat;
      assert t[..|pat|][0] == s[0];
      assert t[1..] == s[1..] + pat;
      RemoveSuffix(s[1..], pat);
      assert s == [s[0]] + s[1..];
    }
  }

  /** Every points label reads back as its number of points. */
  lemma PrizeOfPointsLabel(n: nat)
    ensures ParsePrize(PointsLabel(n)) == PointsPrize(n)
  {
    var d := Decimal(n);
    var text := PointsLabel(n);
    var k := |d| + 2;
    assert text[k..k + 6] == "Points";
    assert OccursAt(text, "Points", k);
    assert text == "+" + (d + " Points");
    assert text[..1] == "+" && text[1..] == d + " Points";
    RemoveAbsent(d + " Points", "+");
    RemoveSuffix(d, " Points");
    DigitsValueOfDecimal(n);
  }

  /** A string containing a pattern contains the pattern's first character. */
  lemma ContainsFirst(s: string, pat: string)
    requires |pat| > 0 && Contains(s, pat)
    ensures pat[0] in s
  {
    var k: nat :| k <= |s| && OccursAt(s, pat, k);
    assert s[k] == pat[0];
  }

  /** The voucher segment awards no points. */
  lemma VoucherIsNotPoints()
    ensures ParsePrize("Restaurant Voucher") == Voucher
  {
    if Contains("Restaurant Voucher", "Points") {
      ContainsFirst("Restaurant Voucher", "Points");
      assert false;
    }
  }

  /** The numerals of the wheel's prizes. */
  lemma WheelNumerals()
    ensures Decimal(10) == "10" && Decimal(20) == "20" && Decimal(50) == "50"
    ensures Decimal(100) == "100" && Decimal(200) == "200"
  {
    assert Decimal(100) == Decimal(10) + "0";
    assert Decimal(200) == Decimal(20) + "0";
  }

  /** The labels of the wheel's points segments. */
  lemma WheelPointsLabels()
    ensures PointsLabel(10) == "+10 Points" && PointsLabel(20) == "+20 Points"
    ensures PointsLabel(50) == "+50 Points" && PointsLabel(100) == "+100 Points"
    ensures PointsLabel(200) == "+200 Points"
  {
    WheelNumerals();
  }

  /** Each points segment of the wheel reads back as its points. */
  lemma PointsSegmentsParse()
    ensures ParsePrize("+10 Points") == PointsPrize(10)
    ensures ParsePrize("+20 Points") == PointsPrize(20)
    ensures ParsePrize("+50 Points") == PointsPrize(50)
    ensures ParsePrize("+100 Points") == PointsPrize(100)
    ensures ParsePrize("+200 Points") == PointsPrize(200)
  {
    WheelPointsLabels();
    PrizeOfPointsLabel(10);
    PrizeOfPointsLabel(20);
    PrizeOfPointsLabel(50);
    PrizeOfPointsLabel(100);
    PrizeOfPointsLabel(200);
  }

  /** The wheel has only five points labels and the voucher label. */
  lemma WheelLabels(i: nat)
    requires i < |WheelSegments|
    ensures WheelSegments[i] in {"+10 Points", "+20 Points", "+50 Points", "+100 Points", "+200 Points", "Restaurant Voucher"}
  {
  }

  /** Every segment of the wheel awards 10, 20, 50, 100 or 200 points or a
      voucher: no segment is malformed. */
  lemma WheelPrizes(i: nat)
    requires i < |WheelSegments|
    ensures ParsePrize(WheelSegments[i]) in
            {PointsPrize(10), PointsPrize(20), PointsPrize(50), PointsPrize(100), PointsPrize(200), Voucher}
  {
    var seg := WheelSegments[i];
    WheelLabels(i);
    VoucherIsNotPoints();
    PointsSegmentsParse();
    if seg == "Restaurant Voucher" {
    } else if seg == "+10 Points" {
    } else if seg == "+20 Points" {
    } else if seg == "+50 Points" {
    } else if seg == "+100 Points" {
    } else {
    }
  }

  /** A spin that is paid for changes the balance by between -100 and +100
      points: the cost minus one of the wheel's prizes. */
  lemma SpinChange(segment: string)
    requires segment in WheelSegments
    ensures PrizePoints(segment) in {0, 10, 20, 50, 100, 200}
    ensures -100 <= PrizePoints(segment) - SpinCost <= 100
  {
    var i :| 0 <= i < |WheelSegments| && WheelSegments[i] == segment;
    WheelPrizes(i);
  }
}
