/**
 * The meal-plan parser: the pairs found in the model's answer are stored in
 * an insertion-ordered dictionary (a later pair overwrites the value of an
 * earlier one with the same category), the percentages are rescaled to sum
 * to 100, and a fixed plan stands in when nothing was found.
 */
module MealPlan {
  import opened MealPlanScan

  /** The dictionary before rescaling: category to whole percentage, in insertion order. */
  type Counts = seq<(string, nat)>

  /** The dictionary returned: category to percentage. */
  type Plan = seq<(string, real)>

  /** The plan used when the answer holds no `Category: NN%` pair. */
  const Fallback: Plan := [("Breakfast", 25.0), ("Lunch", 35.0), ("Dinner", 30.0), ("Snacks", 10.0)]

  /** The keys of a dictionary, or the categories of a list of matches, in order. */
  function Keys<V>(d: seq<(string, V)>): (ks: seq<string>)
    ensures |ks| == |d| && forall a | 0 <= a < |d| :: ks[a] == d[a].0
  {
    seq(|d|, a requires 0 <= a < |d| => d[a].0)
  }

  predicate Distinct(ks: seq<string>)
  {
    forall a, b | 0 <= a < b < |ks| :: ks[a] != ks[b]
  }

  /** Every key occurs among the categories, and the keys keep the order of their first occurrences. */
  ghost predicate InFirstOccurrenceOrder(ks: seq<string>, cs: seq<string>)
  {
    && (forall a | 0 <= a < |ks| :: ks[a] in cs)
    && forall a, b | 0 <= a < b < |ks| :: FirstIndex(cs, ks[a]) < FirstIndex(cs, ks[b])
  }

  /** Every key holds the integer captured by the last match of its category. */
  ghost predicate HoldsLastValues(d: Counts, ms: seq<(string, string)>)
  {
    forall a | 0 <= a < |d| :: d[a].0 in Keys(ms) && d[a].1 == DigitsValue(ms[LastIndex(Keys(ms), d[a].0)].1)
  }

  /** `int()` of a string of ASCII digits: a number with at most |ds| decimal digits. */
  function DigitsValue(ds: string): (v: nat)
    ensures v < Pow10(|ds|)
  {
    if ds == [] then 0
    else 10 * DigitsValue(ds[..|ds| - 1]) + DigitValue(ds[|ds| - 1])
  }

  function Pow10(n: nat): nat
  {
    if n == 0 then 1 else 10 * Pow10(n - 1)
  }

  /** The decimal digits of n, without leading zeros. */
  function Decimal(n: nat): (ds: string)
    ensures ds != [] && forall c | c in ds :: IsDigit(c)
  {
    if n < 10 then [DigitChar(n)] else Decimal(n / 10) + [DigitChar(n % 10)]
  }

  function DigitChar(d: nat): (c: char)
    requires d < 10
    ensures IsDigit(c) && DigitValue(c) == d
  {
    ('0' as int + d) as char
  }

  /** Reading back the decimal digits of a number gives the number: `int(str(n)) == n`. */
  lemma {:induction false} DigitsValueOfDecimal(n: nat)
    ensures DigitsValue(Decimal(n)) == n
  {
    if n >= 10 {
      var ds := Decimal(n);
      DigitsValueOfDecimal(n / 10);
      assert ds[..|ds| - 1] == Decimal(n / 10);
    }
  }

  /** Leading zeros do not change the value: `int("07") == 7`. */
  lemma {:induction false} LeadingZeroIgnored(ds: string)
    ensures DigitsValue("0" + ds) == DigitsValue(ds)
  {
    if ds != [] {
      LeadingZeroIgnored(ds[..|ds| - 1]);
      assert ("0" + ds)[..|"0" + ds| - 1] == "0" + ds[..|ds| - 1];
    }
  }

  function DigitValue(c: char): nat
  {
    if '0' <= c <= '9' then c as int - '0' as int else 0
  }

  /** The position of the first occurrence of c. */
  function FirstIndex(cs: seq<string>, c: string): (r: nat)
    requires c in cs
    ensures r < |cs| && cs[r] == c && forall q | 0 <= q < r :: cs[q] != c
  {
    if cs[0] == c then 0 else 1 + FirstIndex(cs[1..], c)
  }

  /** The position of the last occurrence of c. */
  function LastIndex(cs: seq<string>, c: string): (r: nat)
    requires c in cs
    ensures r < |cs| && cs[r] == c && forall q | r < q < |cs| :: cs[q] != c
  {
    if cs[|cs| - 1] == c then |cs| - 1 else LastIndex(cs[..|cs| - 1], c)
  }

  /**
   * Dictionary assignment `d[k] = v`: an existing key keeps its position and
   * takes the new value; a new key is appended.
   */
  function Put(d: Counts, k: string, v: nat): (r: Counts)
    requires Distinct(Keys(d))
    ensures Distinct(Keys(r))
    ensures Keys(r) == if k in Keys(d) then Keys(d) else Keys(d) + [k]
    ensures forall a | 0 <= a < |r| :: r[a].1 == if r[a].0 == k then v else d[a].1
  {
    if k in Keys(d) then seq(|d|, a requires 0 <= a < |d| => if d[a].0 == k then (k, v) else d[a])
    else d + [(k, v)]
  }

  /** The dictionary after the loop over the matches. */
  function Tally(ms: seq<(string, string)>): (d: Counts)
    ensures Distinct(Keys(d))
    ensures |d| <= |ms| && (ms != [] ==> d != [])
  {
    if ms == [] then []
    else Put(Tally(ms[..|ms| - 1]), ms[|ms| - 1].0, DigitsValue(ms[|ms| - 1].1))
  }

  /** `sum(meal_plan.values())`: no value exceeds it. */
  function Total(d: Counts): (t: nat)
    ensures forall a | 0 <= a < |d| :: d[a].1 <= t
  {
    if d == [] then 0
    else
      assert forall a | 1 <= a < |d| :: d[a] == d[1..][a - 1];
      d[0].1 + Total(d[1..])
  }

  function RealSum(p: Plan): real
  {
    if p == [] then 0.0 else p[0].1 + RealSum(p[1..])
  }

  /** `(v / total) * 100`: v's share of the total, in per cent. */
  function Share(v: nat, total: nat): (r: real)
    requires total > 0
    ensures r * (total as real) == (v as real) * 100.0
    ensures v <= total ==> 0.0 <= r <= 100.0
  {
    (v as real / total as real) * 100.0
  }

  /** `{k: (v / total) * 100 for k, v in meal_plan.items()}` */
  function Rescaled(d: Counts, total: nat): (r: Plan)
    requires total > 0
    ensures Keys(r) == Keys(d)
  {
    seq(|d|, a requires 0 <= a < |d| => (d[a].0, Share(d[a].1, total)))
  }

  /** The dictionary left as it is, its whole numbers read as reals. */
  function AsReals(d: Counts): (r: Plan)
    ensures Keys(r) == Keys(d)
  {
    seq(|d|, a requires 0 <= a < |d| => (d[a].0, d[a].1 as real))
  }

  /** Rescaling is attempted only when the total is positive and not already 100. */
  function Normalize(d: Counts): (r: Plan)
    ensures Keys(r) == Keys(d)
  {
    var total := Total(d);
    if total != 100 && total > 0 then Rescaled(d, total) else AsReals(d)
  }

  /** What the parser returns for a given answer text. */
  function MealPlanOf(text: string): (plan: Plan)
    ensures FindAll(text) == [] ==> plan == Fallback
    ensures FindAll(text) != [] ==> Keys(plan) == Keys(Tally(FindAll(text)))
  {
    var normalized := Normalize(Tally(FindAll(text)));
    if normalized == [] then Fallback else normalized
  }

  /**
   * The parser: scan the text, fill the dictionary pair by pair, rescale,
   * and fall back to the fixed plan when the dictionary stayed empty.
   */
  method ParseMealPlan(responseText: string) returns (mealPlan: Plan)
    ensures mealPlan == MealPlanOf(responseText)
  {
    var counts: Counts := [];
    var matches := FindAll(responseText);
    for i := 0 to |matches|
      invariant counts == Tally(matches[..i])
    {
      var (category, percentage) := matches[i];
      TallyStep(matches, i);
      counts := Put(counts, category, DigitsValue(percentage));
    }
    assert counts == Tally(matches) by { assert matches[..|matches|] == matches; }
    var total := Total(counts);
    var normalized := AsReals(counts);
    if total != 100 && total > 0 {
      normalized := Rescaled(counts, total);
    }
    assert normalized == Normalize(counts);
    if normalized == [] {
      mealPlan := Fallback;
    } else {
      mealPlan := normalized;
    }
  }

  // The dictionary built from the matches.

  /** One more turn of the loop assigns the next match. */
  lemma TallyStep(ms: seq<(string, string)>, i: nat)
    requires i < |ms|
    ensures Tally(ms[..i + 1]) == Put(Tally(ms[..i]), ms[i].0, DigitsValue(ms[i].1))
  {
    assert ms[..i + 1][..i] == ms[..i];
  }

  lemma KeysOfPrefix<V>(d: seq<(string, V)>, n: nat)
    requires n <= |d|
    ensures Keys(d[..n]) == Keys(d)[..n]
  {
  }

  /** Appending an element moves no first occurrence of an element already present. */
  lemma FirstIndexAppend(cs: seq<string>, x: string, c: string)
    requires c in cs
    ensures FirstIndex(cs + [x], c) == FirstIndex(cs, c)
  {
    assert (cs + [x])[FirstIndex(cs, c)] == c;
  }

  lemma FirstIndexOfNew(cs: seq<string>, x: string)
    requires x !in cs
    ensures FirstIndex(cs + [x], x) == |cs|
  {
    assert forall q | 0 <= q < |cs| :: (cs + [x])[q] == cs[q];
  }

  /** The keys of the dictionary are exactly the matched categories. */
  lemma {:induction false} TallyKeysAreCategories(ms: seq<(string, string)>)
    ensures forall c :: c in Keys(Tally(ms)) <==> c in Keys(ms)
  {
    if ms != [] {
      var n := |ms| - 1;
      TallyKeysAreCategories(ms[..n]);
      KeysOfPrefix(ms, n);
      assert Keys(ms) == Keys(ms[..n]) + [ms[n].0];
    }
  }

  /** One dictionary assignment keeps the keys in first-occurrence order. */
  lemma OrderStep(ks0: seq<string>, cs0: seq<string>, x: string)
    requires InFirstOccurrenceOrder(ks0, cs0)
    requires x in ks0 <==> x in cs0
    ensures InFirstOccurrenceOrder(if x in ks0 then ks0 else ks0 + [x], cs0 + [x])
  {
    var ks, cs := if x in ks0 then ks0 else ks0 + [x], cs0 + [x];
    forall a | 0 <= a < |ks0|
      ensures ks[a] == ks0[a] && ks0[a] in cs && FirstIndex(cs, ks0[a]) == FirstIndex(cs0, ks0[a])
    {
      FirstIndexAppend(cs0, x, ks0[a]);
    }
    if x !in ks0 {
      FirstIndexOfNew(cs0, x);
      assert ks[|ks0|] == x;
    }
  }

  /** The keys stand in the order in which their categories first occur among the matches. */
  lemma {:induction false} TallyKeysInFirstOccurrenceOrder(ms: seq<(string, string)>)
    ensures InFirstOccurrenceOrder(Keys(Tally(ms)), Keys(ms))
  {
    if ms != [] {
      var n := |ms| - 1;
      var pre := ms[..n];
      TallyKeysInFirstOccurrenceOrder(pre);
      TallyKeysAreCategories(pre);
      KeysOfPrefix(ms, n);
      assert Keys(ms) == Keys(pre) + [ms[n].0];
      OrderStep(Keys(Tally(pre)), Keys(pre), ms[n].0);
    }
  }

  /** Each key holds the integer of its category's last occurrence: a later match overwrites. */
  lemma {:induction false} TallyValuesFromLastOccurrence(ms: seq<(string, string)>)
    ensures HoldsLastValues(Tally(ms), ms)
  {
    if ms != [] {
      var n := |ms| - 1;
      var pre, m := ms[..n], ms[n];
      var d0, d := Tally(pre), Tally(ms);
      var cs0, cs := Keys(pre), Keys(ms);
      TallyValuesFromLastOccurrence(pre);
      TallyKeysAreCategories(ms);
      KeysOfPrefix(ms, n);
      assert cs[..n] == cs0;
      forall a | 0 <= a < |d|
        ensures d[a].0 in cs && d[a].1 == DigitsValue(ms[LastIndex(cs, d[a].0)].1)
      {
        var c := d[a].0;
        assert Keys(d)[a] == c && c in Keys(d);
        if c == m.0 {
          assert LastIndex(cs, c) == n;
        } else {
          assert a < |d0| && Keys(d0)[a] == c;
          assert d[a].1 == d0[a].1;
          assert LastIndex(cs, c) == LastIndex(cs0, c);
          assert ms[LastIndex(cs0, c)] == pre[LastIndex(cs0, c)];
        }
      }
    }
  }

  /** Matches with distinct categories are stored one per key, in the order found. */
  lemma {:induction false} TallyOfDistinct(ms: seq<(string, string)>)
    requires Distinct(Keys(ms))
    ensures |Tally(ms)| == |ms|
    ensures forall a | 0 <= a < |ms| :: Tally(ms)[a] == (ms[a].0, DigitsValue(ms[a].1))
  {
    if ms != [] {
      var n := |ms| - 1;
      KeysOfPrefix(ms, n);
      TallyOfDistinct(ms[..n]);
      TallyStep(ms, n);
      assert ms[..n + 1] == ms;
      assert ms[n].0 !in Keys(ms[..n]);
      assert ms[n].0 !in Keys(Tally(ms[..n]));
    }
  }

  // Rescaling.

  lemma {:induction false} AsRealsSum(d: Counts)
    ensures RealSum(AsReals(d)) == Total(d) as real
  {
    if d != [] {
      assert AsReals(d)[1..] == AsReals(d[1..]);
      AsRealsSum(d[1..]);
    }
  }

  /** Two shares of the same total add up like their numerators. */
  lemma AddShares(x: real, y: real, t: real)
    requires t > 0.0
    ensures (x / t) * 100.0 + (y / t) * 100.0 == ((x + y) / t) * 100.0
  {
  }

  lemma {:induction false} RescaledSum(d: Counts, total: nat)
    requires total > 0
    ensures RealSum(Rescaled(d, total)) == (Total(d) as real / total as real) * 100.0
  {
    if d != [] {
      assert Rescaled(d, total)[1..] == Rescaled(d[1..], total);
      RescaledSum(d[1..], total);
      AddShares(d[0].1 as real, Total(d[1..]) as real, total as real);
      assert Rescaled(d, total)[0].1 == (d[0].1 as real / total as real) * 100.0;
    }
  }

  /** The whole total is 100 per cent of itself. */
  lemma WholeShare(t: real)
    requires t > 0.0
    ensures (t / t) * 100.0 == 100.0
  {
  }

  /** With a positive total the values sum to exactly 100. */
  lemma NormalizeSumsTo100(d: Counts)
    requires Total(d) > 0
    ensures RealSum(Normalize(d)) == 100.0
  {
    var t := Total(d);
    if t == 100 {
      assert Normalize(d) == AsReals(d);
      AsRealsSum(d);
    } else {
      assert Normalize(d) == Rescaled(d, t);
      RescaledSum(d, t);
      WholeShare(t as real);
    }
  }

  /** r is v's share of total, in per cent. */
  predicate IsPercentOf(r: real, v: nat, total: nat)
  {
    r * (total as real) == (v as real) * 100.0
  }

  /**
   * With a positive total each value is its original share of the total, in
   * per cent, so the proportions between values are kept; a total of 100
   * leaves every value as it was.
   */
  lemma NormalizeKeepsProportions(d: Counts)
    requires Total(d) > 0
    ensures forall a | 0 <= a < |d| :: IsPercentOf(Normalize(d)[a].1, d[a].1, Total(d))
    ensures Total(d) == 100 ==> forall a | 0 <= a < |d| :: Normalize(d)[a].1 == d[a].1 as real
  {
    forall a | 0 <= a < |d| ensures IsPercentOf(Normalize(d)[a].1, d[a].1, Total(d)) {
      if Total(d) == 100 {
        assert Normalize(d)[a].1 == d[a].1 as real;
        WholePercent(Normalize(d)[a].1, d[a].1);
      } else {
        assert Normalize(d)[a].1 == Share(d[a].1, Total(d));
        SharePercent(Normalize(d)[a].1, d[a].1, Total(d));
      }
    }
  }

  lemma WholePercent(r: real, v: nat)
    requires r == v as real
    ensures IsPercentOf(r, v, 100)
  {
  }

  lemma SharePercent(r: real, v: nat, total: nat)
    requires total > 0 && r == Share(v, total)
    ensures IsPercentOf(r, v, total)
  {
  }

  /** Every normalized value lies between 0 and 100. */
  lemma NormalizeInRange(d: Counts)
    ensures forall a | 0 <= a < |d| :: 0.0 <= Normalize(d)[a].1 <= 100.0
  {
    var t := Total(d);
    forall a | 0 <= a < |d| ensures 0.0 <= Normalize(d)[a].1 <= 100.0 {
      assert d[a].1 <= t;
    }
  }

  /** A zero total skips rescaling: every key stays, with value 0. */
  lemma NormalizeZeroTotal(d: Counts)
    requires Total(d) == 0
    ensures forall a | 0 <= a < |d| :: Normalize(d)[a] == (d[a].0, 0.0)
  {
  }

  /** n equal positive values total n times the value. */
  lemma {:induction false} TotalOfEqual(d: Counts, v: nat)
    requires forall a | 0 <= a < |d| :: d[a].1 == v
    ensures Total(d) == |d| * v
  {
    if d != [] {
      var rest := d[1..];
      assert forall a | 0 <= a < |rest| :: rest[a].1 == v by {
        forall a | 0 <= a < |rest| ensures rest[a].1 == v { assert rest[a] == d[a + 1]; }
      }
      TotalOfEqual(rest, v);
      assert Total(d) == v + |rest| * v;
      MulSucc(|rest|, v);
    }
  }

  lemma MulSucc(n: nat, v: nat)
    ensures v + n * v == (n + 1) * v
  {
  }

  /** Equal positive values are rescaled to an equal share each: 100 divided by their number. */
  lemma EqualShares(d: Counts, v: nat)
    requires d != [] && v > 0
    requires forall a | 0 <= a < |d| :: d[a].1 == v
    ensures forall a | 0 <= a < |d| :: Normalize(d)[a].1 * (|d| as real) == 100.0
  {
    TotalOfEqual(d, v);
    assert d[0].1 <= Total(d);
    NormalizeKeepsProportions(d);
    forall a | 0 <= a < |d| ensures Normalize(d)[a].1 * (|d| as real) == 100.0 {
      EqualShareAt(Normalize(d)[a].1, d[a].1, |d|, v, Total(d));
    }
  }

  lemma EqualShareAt(r: real, x: nat, n: nat, v: nat, total: nat)
    requires x == v && v > 0 && total == n * v && IsPercentOf(r, x, total)
    ensures r * (n as real) == 100.0
  {
    CancelValue(r, n, v, total);
  }

  /** A share of n equal parts, each of them v, is 100 divided by n. */
  lemma CancelValue(r: real, n: nat, v: nat, total: nat)
    requires v > 0 && total == n * v && IsPercentOf(r, v, total)
    ensures r * (n as real) == 100.0
  {
    assert (total as real) == (n as real) * (v as real);
    CancelShare(r, n as real, v as real, total as real);
  }

  lemma CancelShare(r: real, n: real, v: real, t: real)
    requires v > 0.0 && t == n * v && r * t == v * 100.0
    ensures r * n == 100.0
  {
    calc {
      (r * n) * v;
      r * (n * v);
      r * t;
      v * 100.0;
    }
    CancelFactor(r * n, v);
  }

  lemma CancelFactor(x: real, v: real)
    requires v > 0.0 && x * v == v * 100.0
    ensures x == 100.0
  {
  }

  // The parser as a whole.

  /**
   * The fallback branch is taken exactly when the pattern matches nowhere in
   * the text. (An answer may still produce a plan equal to the fixed one, by
   * naming its four categories with percentages that total 100.)
   */
  lemma FallbackBranchExactlyWhenNoMatch(text: string)
    ensures (forall p: nat, j: nat, k: nat, l: nat :: !PatternAt(text, p, j, k, l)) ==> MealPlanOf(text) == Fallback
    ensures (exists p: nat, j: nat, k: nat, l: nat :: PatternAt(text, p, j, k, l)) ==>
              forall c :: c in Keys(MealPlanOf(text)) <==> c in Keys(FindAll(text))
  {
    FindAllEmptyIffNoPattern(text);
    TallyKeysAreCategories(FindAll(text));
  }

  /** An answer without a colon, or without a percent sign, gets the fixed plan. */
  lemma FallbackWithoutColonOrPercent(text: string)
    requires ':' !in text || '%' !in text
    ensures MealPlanOf(text) == Fallback
  {
    MatchNeedsColonAndPercent(text);
  }

  /**
   * With at least one match, the keys are the distinct matched categories in
   * order of first occurrence, and before rescaling each held the integer of
   * its category's last match.
   */
  lemma MealPlanKeys(text: string)
    requires FindAll(text) != []
    ensures Distinct(Keys(MealPlanOf(text)))
    ensures forall c :: c in Keys(MealPlanOf(text)) <==> c in Keys(FindAll(text))
    ensures InFirstOccurrenceOrder(Keys(MealPlanOf(text)), Keys(FindAll(text)))
    ensures HoldsLastValues(Tally(FindAll(text)), FindAll(text))
  {
    var ms := FindAll(text);
    TallyKeysAreCategories(ms);
    TallyKeysInFirstOccurrenceOrder(ms);
    TallyValuesFromLastOccurrence(ms);
  }

  /**
   * The values sum to 100 (the fallback's do too), unless every key's last
   * matched percentage is 0: then every matched category is kept with value 0.
   */
  lemma MealPlanSums(text: string)
    ensures var ms := FindAll(text);
            (ms == [] || Total(Tally(ms)) > 0) ==> RealSum(MealPlanOf(text)) == 100.0
    ensures var ms := FindAll(text);
            (ms != [] && Total(Tally(ms)) == 0) ==>
              forall a | 0 <= a < |MealPlanOf(text)| :: MealPlanOf(text)[a].1 == 0.0
  {
    var d := Tally(FindAll(text));
    if FindAll(text) == [] {
      FallbackSumsTo100();
    } else if Total(d) > 0 {
      NormalizeSumsTo100(d);
    } else {
      NormalizeZeroTotal(d);
    }
  }

  lemma FallbackSumsTo100()
    ensures RealSum(Fallback) == 100.0
  {
    assert RealSum(Fallback[3..]) == 10.0;
    assert RealSum(Fallback[2..]) == 40.0 by { assert Fallback[2..][1..] == Fallback[3..]; }
    assert RealSum(Fallback[1..]) == 75.0 by { assert Fallback[1..][1..] == Fallback[2..]; }
  }

  /** Every returned percentage lies between 0 and 100. */
  lemma MealPlanInRange(text: string)
    ensures forall a | 0 <= a < |MealPlanOf(text)| :: 0.0 <= MealPlanOf(text)[a].1 <= 100.0
  {
    if FindAll(text) != [] {
      NormalizeInRange(Tally(FindAll(text)));
    }
  }
}
