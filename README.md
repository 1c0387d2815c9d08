# carbon-wise: the footprint calculator and the meal-plan parser

carbon-wise is a Streamlit application. It estimates a user's daily carbon
footprint from a short lifestyle form, and it draws a suggested meal plan
from a language model's answer. This project models the two pieces of it
that compute something: `calculate_carbon_footprint` and `parse_meal_plan`.
It then proves what the two functions promise.

- `footprint.dfy` (module `Footprint`). The five emission-factor tables are
  maps from category to kg CO2 per unit. The form is a `Profile` record. The
  calculation is a pair of pure functions: `TermsOf` gives the six
  intermediate terms, and `CalculateFootprint` gives the total and the
  four-field breakdown. Python floats are modelled as `real`. Both the total
  and the breakdown are sums of the same terms taken left to right, so the
  identity "total = sum of the breakdown" is exact in the model.
- `meal_plan_scan.dfy` (module `MealPlanScan`). The regular expression
  `(\w+):\s*(\d+)%` under `re.findall` is modelled as a left-to-right scanner:
  - `MatchAt` is the attempt at one position;
  - `FindAllFrom` tries every position and resumes behind each match.
  The attempt at one position is proved equal to a declarative reading of
  the pattern (`PatternAt`). Because the greedy runs are followed by
  characters outside their class, each position has at most one match. For
  the scan as a whole, the lemmas prove that:
  - it finds nothing exactly when the pattern matches nowhere;
  - every pair it reports is an occurrence of the pattern in the text;
  - it reports the leftmost occurrence first, then resumes behind that
    occurrence's percent sign, so occurrences come left to right and do not
    overlap.
- `meal_plan.dfy` (module `MealPlan`). The insertion-ordered dict is a
  sequence of (key, value) pairs with distinct keys. `ParseMealPlan` is the
  imperative parser, with its loop over the matches. It is proved to compute
  `MealPlanOf`, the specification. Lemmas about `MealPlanOf` state:
  - the keys are the distinct categories in order of first occurrence;
  - each key holds the value of its last occurrence;
  - the values sum to 100 and keep their proportions;
  - a zero total leaves every key at 0;
  - the fallback branch is taken exactly when nothing matched. An answer that
    names the four fixed categories with a total of 100 still yields a plan
    equal to the fixed one.
- `meal_plan_examples.dfy` (module `MealPlanExamples`): worked cases of the
  parser.

## Model

| member | source | states |
|---|---|---|
| Footprint.Rate | app.py:34-40 | `.get(label, 0)` never fails: a known label gives its factor, an unknown one 0, and a non-negative table gives a non-negative rate |
| Footprint.TermsOf | app.py:34-40 | every lookup defaults to 0, so a label missing from its table (mode, fuel, secondary mode, energy source, diet, flight frequency) makes its term 0; with a distance of 0 the transport and car terms are 0 |
| Footprint.CalculateFootprint | app.py:42-48 | the returned total equals Transport + Energy + Diet + Travel; Diet and Travel are the looked-up table values |
| Footprint.TransportBreakdown | app.py:34-36 | the Transport field is the distance times the mode's and the fuel's per-km factors together, plus the trip count times the secondary mode's factor |
| Footprint.CarReusesCommuteDistance | app.py:34-35 | the car term is charged on the same distance as the primary mode: the two terms together are distance × (mode factor + fuel factor) |
| Footprint.ZeroDistanceIgnoresModeAndFuel | app.py:34-36 | with distance 0, changing the mode or the fuel changes nothing in the result, and Transport is only the secondary-trip term |
| Footprint.EnergyIsSharedByHousehold | app.py:38 | Energy times the household size is usage × the source's factor: the household's energy is split equally among its members |
| Footprint.DietAndTravelAreFlat | app.py:39-40 | two profiles with the same diet and flight labels get the same Diet and Travel, whatever their distances, usage or household |
| Footprint.FootprintIsNonNegative | app.py:33-48 | with non-negative factors, distance, trip count and usage, and at least one person, the total and every breakdown field are non-negative |
| Footprint.AppTablesAreNonNegative | app.py:20-30 | every factor in the five shipped tables is non-negative, so the previous row applies to the application's tables |
| Footprint.WorkedExample | app.py:20-48 | 10 km by gasoline car, 5 bus trips, 8 kWh of coal power for 2 people, a meat-heavy diet and monthly flights give total 14.5, with breakdown Transport 5.0, Energy 4.0, Diet 2.5, Travel 3.0 |
| MealPlanScan.RunEnd | app.py:70 | the run found is the longest run of the class from the start: all its characters are in the class and the next one is not |
| MealPlanScan.MatchAt | app.py:70 | a successful attempt moves the scan forward, and captures a non-empty word category and a non-empty digit string |
| MealPlanScan.FindAllFrom | app.py:70 | every captured category is a non-empty run of word characters, and every percentage a non-empty run of digits |
| MealPlanScan.MatchAtIsThePattern | app.py:70 | the attempt at a position returns a match exactly when the pattern matches there, and returns the only way it can match |
| MealPlanScan.PatternIsMatched | app.py:70 | any match of the pattern at a position is the one the scanner takes, with the same captured groups |
| MealPlanScan.FindAllEmptyIffNoPattern | app.py:70 | the scan finds nothing exactly when the pattern matches at no position of the text |
| MealPlanScan.FindAll | app.py:70 | every pair `re.findall` returns is the two captured groups of an occurrence of the pattern in the text |
| MealPlanScan.FindAllFromSound | app.py:70 | every pair the scan from a position reports is the captured groups of an occurrence of the pattern at that position or later |
| MealPlanScan.FindAllFromLeftmost | app.py:70 | a scan that finds something reports first the occurrence at the leftmost position where the pattern matches; the rest is the scan from just behind its percent sign, and every later pair comes from an occurrence starting there or later, so reported occurrences do not overlap |
| MealPlanScan.MatchNeedsColonAndPercent | app.py:70 | a text with a match contains both a colon and a percent sign |
| MealPlan.DigitsValue | app.py:72 | `int()` of a digit string of length n is below 10^n |
| MealPlan.DigitsValueOfDecimal | app.py:72 | reading back the decimal digits of a number gives the number, so `int()` inverts decimal printing |
| MealPlan.LeadingZeroIgnored | app.py:72 | a leading zero does not change the value `int()` reads |
| MealPlan.Put | app.py:72 | dict assignment keeps keys distinct; an existing key keeps its position and a new key goes last; the assigned key holds the new value and every other key keeps its value |
| MealPlan.Tally | app.py:69-72 | the dict built by the loop has distinct keys, no more entries than matches, and at least one entry when there is a match |
| MealPlan.TallyKeysAreCategories | app.py:70-72 | a string is a key of the dict exactly when it is a matched category |
| MealPlan.TallyKeysInFirstOccurrenceOrder | app.py:70-72 | the keys stand in the order of their categories' first occurrences among the matches |
| MealPlan.TallyValuesFromLastOccurrence | app.py:70-72 | each key holds the integer of its category's last match: a later match overwrites an earlier one |
| MealPlan.TallyOfDistinct | app.py:70-72 | matches with distinct categories give one entry each, in the order found, holding their integers |
| MealPlan.Total | app.py:75 | `sum(meal_plan.values())` is at least every value in the dict |
| MealPlan.Share | app.py:77 | the rescaled value is v's share of the total in per cent, and lies in [0, 100] when v does not exceed the total |
| MealPlan.Rescaled | app.py:77 | the comprehension keeps the keys and their order |
| MealPlan.Normalize | app.py:75-77 | normalizing keeps the keys and their order |
| MealPlan.NormalizeSumsTo100 | app.py:75-77 | with a positive total the values sum to exactly 100, whether or not rescaling was needed |
| MealPlan.NormalizeKeepsProportions | app.py:75-77 | with a positive total each value is its original share of the total in per cent, so proportions are kept; at a total of 100 the values are unchanged |
| MealPlan.NormalizeInRange | app.py:75-77 | every normalized value lies in [0, 100] |
| MealPlan.NormalizeZeroTotal | app.py:75-79 | a total of 0 skips rescaling: every key is kept with value 0 |
| MealPlan.EqualShares | app.py:75-77 | n equal positive values are rescaled to 100/n each |
| MealPlan.MealPlanOf | app.py:64-79 | the fixed plan is returned when nothing matched; otherwise the keys are those of the dict the loop built, so the fixed plan is not substituted even when every value is 0 |
| MealPlan.ParseMealPlan | app.py:64-79 | the loop, the sum, the conditional rescale and the fallback compute exactly the parser's specification |
| MealPlan.FallbackBranchExactlyWhenNoMatch | app.py:70-79 | the fallback branch is taken exactly when the pattern matches nowhere: then the fixed plan is returned, and otherwise the keys are exactly the matched categories |
| MealPlan.FallbackWithoutColonOrPercent | app.py:70-79 | an answer without a colon or without a percent sign gets the fixed plan |
| MealPlan.MealPlanKeys | app.py:70-72 | with a match, the keys are the distinct matched categories in order of first occurrence, and each held its last match's integer before rescaling |
| MealPlan.MealPlanSums | app.py:75-79 | the values sum to 100 (the fixed plan's too), except when every key's last matched percentage is 0 (an earlier non-zero match for the same category is overwritten), in which case every value is 0 |
| MealPlan.FallbackSumsTo100 | app.py:79 | the values of the fixed plan `Fallback` (Breakfast 25, Lunch 35, Dinner 30, Snacks 10) sum to 100 |
| MealPlan.MealPlanInRange | app.py:75-79 | every returned percentage lies in [0, 100] |
| MealPlanExamples.EmptyAnswer | app.py:64-79 | an empty answer gets the fixed plan |
| MealPlanExamples.AnswerWithoutPercentages | app.py:64-79 | an answer with no percent sign gets the fixed plan |
| MealPlanExamples.DigitCategoryScan | app.py:70 | digits are word characters, so `12:5%` yields the category "12" with percentage "5" |
| MealPlanExamples.DigitCategoryPattern | app.py:70 | the pattern matches `12:5%` from its first character |
| MealPlanExamples.DigitCategory | app.py:64-79 | `12:5%` gives the plan {"12": 100}: one category takes the whole share |
| MealPlanExamples.SinglePair | app.py:64-79 | an answer whose only match has a positive percentage gives that category 100 |
| MealPlanExamples.RepeatedCategory | app.py:70-77 | matches "A" 50 then "A" 30 keep one key holding the last value, rescaled to 100 |
| MealPlanExamples.OverwrittenByZero | app.py:70-79 | matches "A" 5 then "A" 0 leave one key at 0; the total is 0, so nothing is rescaled and the plan is {"A": 0} |
| MealPlanExamples.AllZero | app.py:70-79 | two categories at 0 are both kept, with value 0 |
| MealPlanExamples.FourEqualShares | app.py:70-77 | four distinct categories at 20 each are rescaled to 25 each, in their order |
| MealPlanExamples.FourCounts | app.py:70-72 | four distinct categories at 20 are stored one per key, in their order |

## Left out

- The Streamlit interface is not modelled: page setup, sidebar, widgets, session state, text and images (app.py:8, 11, 106-158). It is presentation only.
- The calls to the Gemini model are not modelled: configuration, `generate_recommendations`, and the prompt and request inside `show_meal_plan_pie_chart` (app.py:14, 51-62, 82-95). They are network calls; the parser takes the answer text as its parameter.
- Chart drawing with pandas and matplotlib is not modelled (app.py:91-94, 98-104). It holds no logic.
- The `ABOUT` text (app.py:17-19) is data without behaviour.
- IEEE-754 rounding is not modelled: floats are `real`. The total identity holds exactly in Python too, because the total and the Transport field add the same terms in the same left-to-right order. The rescaled values, however, sum to 100 only up to rounding in Python, while the model proves exactly 100.
- Footprint.TermsOf: requires a household size of at least 1. Python raises ZeroDivisionError at 0; the form's minimum of 1 (app.py:123) keeps callers from it.
- Footprint.CalculateFootprint: requires a household size of at least 1, for the same reason.
- MealPlan.DigitsValue: reads a digit string of any length. CPython's `int()` raises ValueError for a string of more than 4300 digits (its default limit on converting strings to integers), so the parser raises on such an answer, while the model returns a plan.
- MealPlanScan.MatchAt: `\w`, `\s` and `\d` are their ASCII forms. Python's Unicode classes also accept non-ASCII letters, digits and spaces (and `\s` the separators \x1c-\x1f), and `int()` reads non-ASCII digits.
- MealPlan.MealPlanOf: every value is a `real`. Python keeps integers when no rescaling happens and in the fixed plan (25, 35, 30, 10); the numbers are the same.
- The sum `sum(meal_plan.values())` is the recursive function `Total` rather than a loop, as in the source.
- MealPlanExamples.RepeatedCategory, MealPlanExamples.OverwrittenByZero, MealPlanExamples.AllZero, MealPlanExamples.FourEqualShares: stated on the list of matches rather than on an answer text, to keep the proofs small. The scanner's correctness is stated separately, and DigitCategory shows a whole text.
