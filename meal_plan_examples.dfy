/** Worked answers and what the parser makes of them. */
module MealPlanExamples {
  import opened MealPlanScan
  import opened MealPlan

  /** An empty answer gets the fixed plan. */
  lemma EmptyAnswer()
    ensures MealPlanOf("") == Fallback
  {
  }

  /** An answer with no percentage in it gets the fixed plan. */
  lemma AnswerWithoutPercentages()
    ensures MealPlanOf("no percentages here") == Fallback
  {
    FallbackWithoutColonOrPercent("no percentages here");
  }

  /** Digits are word characters, so a category may be all digits. */
  lemma DigitCategoryScan()
    ensures FindAll("12:5%") == [("12", "5")]
  {
    var s := "12:5%";
    DigitCategoryPattern();
    PatternIsMatched(s, 0, 2, 3, 4);
    TakesHit(s, 0, Hit(s[0..2], s[3..4], 5));
    assert s[0..2] == "12" && s[3..4] == "5";
    assert FindAllFrom(s, 5) == [];
  }

  lemma DigitCategoryPattern()
    ensures PatternAt("12:5%", 0, 2, 3, 4)
  {
    var s := "12:5%";
    assert IsWordChar(s[0]) && IsWordChar(s[1]) && IsDigit(s[3]);
  }

  lemma DigitCategory()
    ensures MealPlanOf("12:5%") == [("12", 100.0)]
  {
    DigitCategoryScan();
    assert DigitsValue("5") == 5;
    SinglePair("12:5%", "12", "5");
  }

  /** A single pair with a positive percentage becomes the whole plan. */
  lemma SinglePair(text: string, category: string, digits: string)
    requires FindAll(text) == [(category, digits)] && DigitsValue(digits) > 0
    ensures MealPlanOf(text) == [(category, 100.0)]
  {
    var ms := FindAll(text);
    var d := Tally(ms);
    var v := DigitsValue(digits);
    assert ms[..0] == [];
    assert d == [(category, v)];
    assert Total(d) == v;
    if v == 100 {
      assert Normalize(d) == AsReals(d);
    } else {
      assert Normalize(d) == Rescaled(d, v);
      assert Share(v, v) == 100.0 by { WholeShare(v as real); }
      assert Rescaled(d, v)[0] == (category, 100.0);
    }
  }

  /** A later pair for a category overwrites the earlier one; 30 alone is rescaled to 100. */
  lemma RepeatedCategory()
    ensures Normalize(Tally([("A", "50"), ("A", "30")])) == [("A", 100.0)]
  {
    assert DigitsValue("30") == 30;
    assert Tally([("A", "50"), ("A", "30")]) == [("A", 30)];
  }

  /** A non-zero match overwritten by a later 0 for the same category leaves a total of 0. */
  lemma OverwrittenByZero()
    ensures Normalize(Tally([("A", "5"), ("A", "0")])) == [("A", 0.0)]
  {
    assert DigitsValue("0") == 0;
    assert Tally([("A", "5"), ("A", "0")]) == [("A", 0)];
  }

  /** All percentages 0: nothing is rescaled and every category is kept with 0. */
  lemma AllZero()
    ensures Normalize(Tally([("X", "0"), ("Y", "0")])) == [("X", 0.0), ("Y", 0.0)]
  {
    assert Tally([("X", "0"), ("Y", "0")]) == [("X", 0), ("Y", 0)];
  }

  /** Four distinct categories at 20 per cent each total 80 and are rescaled to 25 each. */
  lemma FourEqualShares(w: string, x: string, y: string, z: string)
    requires Distinct([w, x, y, z])
    ensures Normalize(Tally([(w, "20"), (x, "20"), (y, "20"), (z, "20")]))
            == [(w, 25.0), (x, 25.0), (y, 25.0), (z, 25.0)]
  {
    var d: Counts := [(w, 20), (x, 20), (y, 20), (z, 20)];
    FourCounts(w, x, y, z);
    EqualShares(d, 20);
    var p := Normalize(d);
    assert |p| == 4 && forall a | 0 <= a < 4 :: p[a] == (d[a].0, 25.0);
  }

  lemma FourCounts(w: string, x: string, y: string, z: string)
    requires Distinct([w, x, y, z])
    ensures Tally([(w, "20"), (x, "20"), (y, "20"), (z, "20")]) == [(w, 20), (x, 20), (y, 20), (z, 20)]
  {
    var ms := [(w, "20"), (x, "20"), (y, "20"), (z, "20")];
    assert Keys(ms) == [w, x, y, z];
    TallyOfDistinct(ms);
    assert DigitsValue("20") == 20;
  }
}
