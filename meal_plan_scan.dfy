/**
 * The scan for `Category: NN%` pairs in a model's free-text answer: Python's
 * `re.findall` with the pattern `(\w+):\s*(\d+)%`, restricted to ASCII
 * character classes. Every position is tried from left to right; after a
 * match the scan resumes just behind it, so matches never overlap.
 */
module MealPlanScan {

  datatype Option<T> = None | Some(value: T)

  /** `\w`: an ASCII letter, digit or underscore. */
  predicate IsWordChar(c: char)
  {
    ('a' <= c <= 'z') || ('A' <= c <= 'Z') || ('0' <= c <= '9') || c == '_'
  }

  /** `\s`: space, tab, line feed, vertical tab, form feed or carriage return. */
  predicate IsSpace(c: char)
  {
    c == ' ' || ('\t' <= c <= '\r')
  }

  /** `\d`: an ASCII digit. */
  predicate IsDigit(c: char)
  {
    '0' <= c <= '9'
  }

  /** One match: the two captured groups, and where the scan resumes. */
  datatype Hit = Hit(category: string, percent: string, next: nat)

  /**
   * Every way the pattern can match starting at i: a word run s[i..j], a colon
   * at j, a whitespace run s[j+1..k], a non-empty digit run s[k..l] and a
   * percent sign at l.
   */
  ghost predicate PatternAt(s: string, i: nat, j: nat, k: nat, l: nat)
  {
    && i < j && j + 1 <= k && k < l < |s|
    && (forall x | i <= x < j :: IsWordChar(s[x]))
    && s[j] == ':'
    && (forall x | j + 1 <= x < k :: IsSpace(s[x]))
    && (forall x | k <= x < l :: IsDigit(s[x]))
    && s[l] == '%'
  }

  /** The end of the longest run of characters of one class that starts at i. */
  function RunEnd(s: string, i: nat, inClass: char -> bool): (j: nat)
    requires i <= |s|
    ensures i <= j <= |s|
    ensures forall x | i <= x < j :: inClass(s[x])
    ensures j == |s| || !inClass(s[j])
    decreases |s| - i
  {
    if i < |s| && inClass(s[i]) then RunEnd(s, i + 1, inClass) else i
  }

  /**
   * The attempt at position i. The quantifiers are greedy, and because a
   * colon is not a word character, a digit is not whitespace and a percent
   * sign is not a digit, backtracking never finds a shorter alternative: the
   * attempt succeeds exactly on the maximal runs.
   */
  function MatchAt(s: string, i: nat): (h: Option<Hit>)
    requires i <= |s|
    ensures h.Some? ==> i < h.value.next <= |s|
    ensures h.Some? ==> h.value.category != [] && forall c | c in h.value.category :: IsWordChar(c)
    ensures h.Some? ==> h.value.percent != [] && forall c | c in h.value.percent :: IsDigit(c)
  {
    var j := RunEnd(s, i, IsWordChar);
    if j == i || j == |s| || s[j] != ':' then None
    else
      var k := RunEnd(s, j + 1, IsSpace);
      var l := RunEnd(s, k, IsDigit);
      if l == k || l == |s| || s[l] != '%' then None
      else Some(Hit(s[i..j], s[k..l], l + 1))
  }

  /** `re.findall` from position i: the captured pairs, left to right. */
  function FindAllFrom(s: string, i: nat): (ms: seq<(string, string)>)
    requires i <= |s|
    ensures forall m | m in ms :: m.0 != [] && forall c | c in m.0 :: IsWordChar(c)
    ensures forall m | m in ms :: m.1 != [] && forall c | c in m.1 :: IsDigit(c)
    decreases |s| - i
  {
    if i == |s| then []
    else
      match MatchAt(s, i)
      case Some(h) => [(h.category, h.percent)] + FindAllFrom(s, h.next)
      case None => FindAllFrom(s, i + 1)
  }

  /** `re.findall` over the whole text: the captured groups of occurrences of the pattern. */
  function FindAll(s: string): (ms: seq<(string, string)>)
    ensures forall m | m in ms :: Occurs(s, 0, m)
  {
    FindAllFromSound(s, 0);
    FindAllFrom(s, 0)
  }

  /** m is the pair of captured groups of an occurrence of the pattern starting at i or later. */
  ghost predicate Occurs(s: string, i: nat, m: (string, string))
  {
    exists p: nat, j: nat, k: nat, l: nat :: i <= p && PatternAt(s, p, j, k, l) && m == (s[p..j], s[k..l])
  }

  /** The pattern matches nowhere starting at q. */
  ghost predicate NoPatternAt(s: string, q: nat)
  {
    forall j: nat, k: nat, l: nat :: !PatternAt(s, q, j, k, l)
  }

  /** A run that ends where the class stops is the one RunEnd finds. */
  lemma RunEndIsUnique(s: string, i: nat, j: nat, inClass: char -> bool)
    requires i <= j <= |s|
    requires forall x | i <= x < j :: inClass(s[x])
    requires j == |s| || !inClass(s[j])
    ensures RunEnd(s, i, inClass) == j
  {
  }

  /**
   * MatchAt agrees with the pattern: whenever the pattern matches at i, in
   * whatever way, MatchAt returns that match, and MatchAt returns nothing
   * else. So the pattern has at most one match at each position.
   */
  lemma MatchAtIsThePattern(s: string, i: nat)
    requires i <= |s|
    ensures forall j: nat, k: nat, l: nat | PatternAt(s, i, j, k, l) :: MatchAt(s, i) == Some(Hit(s[i..j], s[k..l], l + 1))
    ensures MatchAt(s, i).Some? ==>
              exists j: nat, k: nat, l: nat :: PatternAt(s, i, j, k, l) && MatchAt(s, i).value == Hit(s[i..j], s[k..l], l + 1)
  {
    forall j: nat, k: nat, l: nat | PatternAt(s, i, j, k, l)
      ensures MatchAt(s, i) == Some(Hit(s[i..j], s[k..l], l + 1))
    {
      PatternIsMatched(s, i, j, k, l);
    }
    if MatchAt(s, i).Some? {
      var j := RunEnd(s, i, IsWordChar);
      var k := RunEnd(s, j + 1, IsSpace);
      var l := RunEnd(s, k, IsDigit);
      assert PatternAt(s, i, j, k, l);
    }
  }

  /** The runs of a match of the pattern are the maximal runs MatchAt takes. */
  lemma PatternIsMatched(s: string, i: nat, j: nat, k: nat, l: nat)
    requires PatternAt(s, i, j, k, l)
    ensures MatchAt(s, i) == Some(Hit(s[i..j], s[k..l], l + 1))
  {
    RunEndIsUnique(s, i, j, IsWordChar);
    assert IsDigit(s[k]);
    RunEndIsUnique(s, j + 1, k, IsSpace);
    RunEndIsUnique(s, k, l, IsDigit);
  }

  /** The scan from i finds nothing exactly when no attempt from i onwards succeeds. */
  lemma {:induction false} FindAllFromEmpty(s: string, i: nat)
    requires i <= |s|
    ensures FindAllFrom(s, i) == [] <==> forall p | i <= p < |s| :: MatchAt(s, p).None?
    decreases |s| - i
  {
    if i < |s| {
      match MatchAt(s, i)
      case Some(h) =>
        assert FindAllFrom(s, i) == [(h.category, h.percent)] + FindAllFrom(s, h.next);
      case None =>
        assert FindAllFrom(s, i) == FindAllFrom(s, i + 1);
        FindAllFromEmpty(s, i + 1);
    }
  }

  /** `re.findall` returns no pair exactly when the pattern matches nowhere in the text. */
  lemma FindAllEmptyIffNoPattern(s: string)
    ensures FindAll(s) == [] <==> forall p: nat, j: nat, k: nat, l: nat :: !PatternAt(s, p, j, k, l)
  {
    FindAllFromEmpty(s, 0);
    if FindAll(s) == [] {
      forall p: nat, j: nat, k: nat, l: nat | PatternAt(s, p, j, k, l) ensures false {
        MatchAtIsThePattern(s, p);
      }
    } else {
      var p :| 0 <= p < |s| && MatchAt(s, p).Some?;
      MatchAtIsThePattern(s, p);
    }
  }

  /** The scan takes a successful attempt and resumes behind it. */
  lemma TakesHit(s: string, i: nat, h: Hit)
    requires i < |s| && MatchAt(s, i) == Some(h)
    ensures FindAllFrom(s, i) == [(h.category, h.percent)] + FindAllFrom(s, h.next)
  {
  }

  /** Every pair the scan from i reports is the captured groups of an occurrence at i or later. */
  lemma {:induction false} FindAllFromSound(s: string, i: nat)
    requires i <= |s|
    ensures forall m | m in FindAllFrom(s, i) :: Occurs(s, i, m)
    decreases |s| - i
  {
    if i < |s| {
      match MatchAt(s, i)
      case Some(h) =>
        assert FindAllFrom(s, i) == [(h.category, h.percent)] + FindAllFrom(s, h.next);
        MatchAtIsThePattern(s, i);
        FindAllFromSound(s, h.next);
        forall m | m in FindAllFrom(s, h.next) ensures Occurs(s, i, m) {
          OccursLater(s, i, h.next, m);
        }
      case None =>
        assert FindAllFrom(s, i) == FindAllFrom(s, i + 1);
        FindAllFromSound(s, i + 1);
        forall m | m in FindAllFrom(s, i + 1) ensures Occurs(s, i, m) {
          OccursLater(s, i, i + 1, m);
        }
    }
  }

  lemma OccursLater(s: string, i: nat, i': nat, m: (string, string))
    requires i <= i' && Occurs(s, i', m)
    ensures Occurs(s, i, m)
  {
    var p: nat, j: nat, k: nat, l: nat :| i' <= p && PatternAt(s, p, j, k, l) && m == (s[p..j], s[k..l]);
    assert i <= p;
  }

  /**
   * The scan from i reports first the occurrence s[p..l+1], and p is the
   * leftmost position from i on where the pattern matches. The rest of the
   * report is the scan resumed just behind that occurrence's percent sign, so
   * every later pair comes from an occurrence that starts after it.
   */
  ghost predicate ReportsFirst(s: string, i: nat, p: nat, j: nat, k: nat, l: nat)
    requires i <= |s|
  {
    && i <= p && PatternAt(s, p, j, k, l)
    && (forall q | i <= q < p :: NoPatternAt(s, q))
    && FindAllFrom(s, i) != []
    && FindAllFrom(s, i)[0] == (s[p..j], s[k..l])
    && FindAllFrom(s, i)[1..] == FindAllFrom(s, l + 1)
    && forall m | m in FindAllFrom(s, i)[1..] :: Occurs(s, l + 1, m)
  }

  /**
   * A scan that finds something reports first the leftmost occurrence, then
   * resumes behind it: reported occurrences come left to right and never overlap.
   */
  lemma {:induction false} FindAllFromLeftmost(s: string, i: nat)
    requires i <= |s|
    ensures FindAllFrom(s, i) != [] ==> exists p: nat, j: nat, k: nat, l: nat :: ReportsFirst(s, i, p, j, k, l)
    decreases |s| - i
  {
    if i < |s| {
      MatchAtIsThePattern(s, i);
      match MatchAt(s, i)
      case Some(h) =>
        var j: nat, k: nat, l: nat :| PatternAt(s, i, j, k, l);
        FirstAtStart(s, i, j, k, l);
      case None =>
        FindAllFromLeftmost(s, i + 1);
        if FindAllFrom(s, i) != [] {
          assert FindAllFrom(s, i) == FindAllFrom(s, i + 1);
          var p: nat, j: nat, k: nat, l: nat :| ReportsFirst(s, i + 1, p, j, k, l);
          FirstLater(s, i, p, j, k, l);
        }
    }
  }

  lemma FirstAtStart(s: string, i: nat, j: nat, k: nat, l: nat)
    requires PatternAt(s, i, j, k, l)
    ensures ReportsFirst(s, i, i, j, k, l)
  {
    PatternIsMatched(s, i, j, k, l);
    assert FindAllFrom(s, i) == [(s[i..j], s[k..l])] + FindAllFrom(s, l + 1);
    FindAllFromSound(s, l + 1);
  }

  lemma FirstLater(s: string, i: nat, p: nat, j: nat, k: nat, l: nat)
    requires i < |s| && MatchAt(s, i).None? && ReportsFirst(s, i + 1, p, j, k, l)
    ensures ReportsFirst(s, i, p, j, k, l)
  {
    MatchAtIsThePattern(s, i);
    assert NoPatternAt(s, i);
    assert FindAllFrom(s, i) == FindAllFrom(s, i + 1);
  }

  /** A match needs a colon and a percent sign somewhere in the text. */
  lemma MatchNeedsColonAndPercent(s: string)
    ensures FindAll(s) != [] ==> ':' in s && '%' in s
  {
    if FindAll(s) != [] {
      FindAllEmptyIffNoPattern(s);
      var p: nat, j: nat, k: nat, l: nat :| PatternAt(s, p, j, k, l);
      assert s[j] == ':' && s[l] == '%';
    }
  }
}
