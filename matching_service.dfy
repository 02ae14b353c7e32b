/**
  MatchingService: scores a parsed CV against every active professor.

  The CV's keywords become a map from normalised keyword to weight (the
  largest weight wins on a repeated keyword).  A professor's text is the
  lower-cased research area and department joined by a space; each CV
  keyword found in it as a literal substring counts with its weight, and
  the score is the matched weight over the total weight, rounded HALF_UP
  to six decimals.  Results are saved as an upsert keyed by professor.
 */
module MatchingService {
  import opened Common
  import opened Entities
  import opened Repositories

  // ---------------------------------------------------------------------
  // The keyword map

  /** toMap(normalizedKeyword, weight, max): the largest weight of each keyword. */
  function KeywordWeights(rows: seq<CvKeyword>): (m: map<string, int>)
    ensures forall i :: 0 <= i < |rows| ==> rows[i].normalizedKeyword in m && rows[i].weight <= m[rows[i].normalizedKeyword]
    ensures forall k | k in m :: exists i :: 0 <= i < |rows| && rows[i].normalizedKeyword == k && rows[i].weight == m[k]
  {
    if rows == [] then map[]
    else
      var front := rows[..|rows| - 1];
      var m := KeywordWeights(front);
      var r := rows[|rows| - 1];
      assert forall i :: 0 <= i < |front| ==> front[i] == rows[i];
      var w := if r.normalizedKeyword in m && m[r.normalizedKeyword] > r.weight then m[r.normalizedKeyword] else r.weight;
      KeywordWeightsStep(rows, m);
      m[r.normalizedKeyword := w]
  }

  /** One more row keeps both properties of the keyword map. */
  lemma KeywordWeightsStep(rows: seq<CvKeyword>, m: map<string, int>)
    requires |rows| > 0
    requires forall i :: 0 <= i < |rows| - 1 ==> rows[i].normalizedKeyword in m && rows[i].weight <= m[rows[i].normalizedKeyword]
    requires forall k | k in m :: exists i :: 0 <= i < |rows| - 1 && rows[i].normalizedKeyword == k && rows[i].weight == m[k]
    ensures var r := rows[|rows| - 1];
            var w := if r.normalizedKeyword in m && m[r.normalizedKeyword] > r.weight then m[r.normalizedKeyword] else r.weight;
            var res := m[r.normalizedKeyword := w];
            && (forall i :: 0 <= i < |rows| ==> rows[i].normalizedKeyword in res && rows[i].weight <= res[rows[i].normalizedKeyword])
            && (forall k | k in res :: exists i :: 0 <= i < |rows| && rows[i].normalizedKeyword == k && rows[i].weight == res[k])
  {
    var n := |rows| - 1;
    var r := rows[n];
    var w := if r.normalizedKeyword in m && m[r.normalizedKeyword] > r.weight then m[r.normalizedKeyword] else r.weight;
    var res := m[r.normalizedKeyword := w];
    forall i | 0 <= i < |rows|
      ensures rows[i].normalizedKeyword in res && rows[i].weight <= res[rows[i].normalizedKeyword]
    {
      if i < n {
        var k := rows[i].normalizedKeyword;
        if k == r.normalizedKeyword {
          assert res[k] == w >= m[k];
        } else {
          assert res[k] == m[k];
        }
      }
    }
    forall k | k in res
      ensures exists i :: 0 <= i < |rows| && rows[i].normalizedKeyword == k && rows[i].weight == res[k]
    {
      if k == r.normalizedKeyword && w == r.weight {
        assert rows[n].normalizedKeyword == k && rows[n].weight == res[k];
      } else {
        assert k in m && res[k] == m[k];
        var i :| 0 <= i < n && rows[i].normalizedKeyword == k && rows[i].weight == m[k];
      }
    }
  }

  function KeyOf(k: string): string
  {
    k
  }

  /** The keywords of the rows, each once, in order of first occurrence. */
  function KeywordOrder(rows: seq<CvKeyword>): (r: seq<string>)
    ensures UniqueBy(r, KeyOf)
    ensures forall i :: 0 <= i < |rows| ==> rows[i].normalizedKeyword in r
    ensures forall j :: 0 <= j < |r| ==> exists i :: 0 <= i < |rows| && rows[i].normalizedKeyword == r[j]
  {
    if rows == [] then []
    else
      var front := rows[..|rows| - 1];
      var f := KeywordOrder(front);
      var k := rows[|rows| - 1].normalizedKeyword;
      assert forall i :: 0 <= i < |front| ==> front[i] == rows[i];
      if k in f then f else f + [k]
  }

  /** A listing of the map's keys, each exactly once: one iteration order of the map. */
  predicate IsEnumeration(order: seq<string>, weights: map<string, int>)
  {
    && UniqueBy(order, KeyOf)
    && (forall i :: 0 <= i < |order| ==> order[i] in weights)
    && (forall k | k in weights :: k in order)
  }

  lemma KeywordOrderEnumerates(rows: seq<CvKeyword>)
    ensures IsEnumeration(KeywordOrder(rows), KeywordWeights(rows))
  {
    var m := KeywordWeights(rows);
    var order := KeywordOrder(rows);
    forall k | k in m
      ensures k in order
    {
      var i :| 0 <= i < |rows| && rows[i].normalizedKeyword == k && rows[i].weight == m[k];
    }
  }

  /** Distinct elements: the set of a sequence has its length. */
  lemma {:induction false} DistinctCardinality(s: seq<string>)
    requires UniqueBy(s, KeyOf)
    ensures |set x | x in s| == |s|
    decreases |s|
  {
    if s != [] {
      var n := |s| - 1;
      var front := s[..n];
      UniqueByPrefix(s, n, KeyOf);
      DistinctCardinality(front);
      assert s == front + [s[n]];
      SetOfSnoc(front, s[n]);
      forall i | 0 <= i < n
        ensures front[i] != s[n]
      {
        assert KeyOf(s[i]) != KeyOf(s[n]);
      }
    }
  }

  lemma SetOfSnoc(front: seq<string>, last: string)
    ensures (set x | x in front + [last]) == (set x | x in front) + {last}
  {
  }

  /** An enumeration is as long as the map is large. */
  lemma EnumerationSize(order: seq<string>, weights: map<string, int>)
    requires IsEnumeration(order, weights)
    ensures |order| == |weights|
  {
    DistinctCardinality(order);
    assert (set x | x in order) == weights.Keys;
  }

  // ---------------------------------------------------------------------
  // Sums of weights

  /** The weight a key adds: always to the total, and to the matched score only when the text contains it. */
  function Contribution(weights: map<string, int>, text: Option<string>, k: string): int
  {
    if k in weights && (text.None? || Contains(text.value, k)) then weights[k] else 0
  }

  /** The weights summed over the keys in order; with a text, only over the keys it contains. */
  function WeightSum(order: seq<string>, weights: map<string, int>, text: Option<string>): int
  {
    if order == [] then 0
    else WeightSum(order[..|order| - 1], weights, text) + Contribution(weights, text, order[|order| - 1])
  }

  lemma {:induction false} WeightSumConcat(a: seq<string>, b: seq<string>, weights: map<string, int>, text: Option<string>)
    ensures WeightSum(a + b, weights, text) == WeightSum(a, weights, text) + WeightSum(b, weights, text)
    decreases |b|
  {
    if b == [] {
      assert a + b == a;
    } else {
      var bf := b[..|b| - 1];
      WeightSumConcat(a, bf, weights, text);
      assert (a + b)[..|a + b| - 1] == a + bf;
    }
  }

  /** The sums do not depend on the order in which the keys are visited. */
  lemma {:induction false} WeightSumPermutation(a: seq<string>, b: seq<string>, weights: map<string, int>, text: Option<string>)
    requires multiset(a) == multiset(b)
    ensures WeightSum(a, weights, text) == WeightSum(b, weights, text)
    decreases |a|
  {
    if a != [] {
      var af := a[..|a| - 1];
      MultisetDropLast(a);
      var j := LastIndexIn(a, b);
      MultisetRemoveAt(b, j);
      WeightSumPermutation(af, b[..j] + b[j + 1..], weights, text);
      WeightSumRemoveAt(b, j, weights, text);
    }
  }

  /** Dropping the last element takes one copy of it out of the multiset. */
  lemma MultisetDropLast(a: seq<string>)
    requires a != []
    ensures multiset(a[..|a| - 1]) == multiset(a) - multiset{a[|a| - 1]}
  {
    assert a == a[..|a| - 1] + [a[|a| - 1]];
  }

  /** A permutation of a holds a's last element somewhere. */
  lemma LastIndexIn(a: seq<string>, b: seq<string>) returns (j: nat)
    requires a != [] && multiset(a) == multiset(b)
    ensures j < |b| && b[j] == a[|a| - 1]
  {
    assert a[|a| - 1] in multiset(b);
    j :| 0 <= j < |b| && b[j] == a[|a| - 1];
  }

  /** Removing the element at j takes one copy of it out of the multiset. */
  lemma MultisetRemoveAt(b: seq<string>, j: nat)
    requires j < |b|
    ensures multiset(b[..j] + b[j + 1..]) == multiset(b) - multiset{b[j]}
  {
    assert b == b[..j] + [b[j]] + b[j + 1..];
    assert multiset(b) == multiset(b[..j]) + multiset{b[j]} + multiset(b[j + 1..]);
  }

  /** The sums over b are the sums without the element at j plus its contribution. */
  lemma WeightSumRemoveAt(b: seq<string>, j: nat, weights: map<string, int>, text: Option<string>)
    requires j < |b|
    ensures WeightSum(b, weights, text) ==
              WeightSum(b[..j] + b[j + 1..], weights, text) + Contribution(weights, text, b[j])
  {
    var x := b[j];
    assert b == b[..j] + [x] + b[j + 1..];
    WeightSumConcat(b[..j], b[j + 1..], weights, text);
    WeightSumConcat(b[..j] + [x], b[j + 1..], weights, text);
    WeightSumConcat(b[..j], [x], weights, text);
    assert WeightSum([x], weights, text) == Contribution(weights, text, x) by {
      assert [x][..0] == [];
    }
  }

  /** One more visited key adds its contribution to the sums. */
  lemma WeightSumStep(order: seq<string>, i: nat, weights: map<string, int>, text: Option<string>)
    requires i < |order|
    ensures WeightSum(order[..i + 1], weights, text) ==
              WeightSum(order[..i], weights, text) + Contribution(weights, text, order[i])
  {
    assert order[..i + 1][..i] == order[..i];
  }

  predicate NonNegativeWeights(weights: map<string, int>)
  {
    forall k | k in weights :: weights[k] >= 0
  }

  /** With non-negative weights the matched weight lies between 0 and the total. */
  lemma {:induction false} MatchedWeightBounds(order: seq<string>, weights: map<string, int>, text: string)
    requires NonNegativeWeights(weights)
    ensures 0 <= WeightSum(order, weights, Some(text)) <= WeightSum(order, weights, None)
    decreases |order|
  {
    if order != [] {
      MatchedWeightBounds(order[..|order| - 1], weights, text);
    }
  }

  /** When the text contains every key, the matched weight is the total. */
  lemma {:induction false} AllMatchedWeight(order: seq<string>, weights: map<string, int>, text: string)
    requires forall i :: 0 <= i < |order| ==> Contains(text, order[i])
    ensures WeightSum(order, weights, Some(text)) == WeightSum(order, weights, None)
    decreases |order|
  {
    if order != [] {
      AllMatchedWeight(order[..|order| - 1], weights, text);
    }
  }

  /** divide(maxPossibleScore, 6, HALF_UP), in millionths; zero when the total is not positive. */
  function Score(total: int, maxPossible: int): (r: int)
    ensures maxPossible <= 0 ==> r == 0
    ensures 0 <= total <= maxPossible ==> 0 <= r <= ScoreScale
    ensures 0 < total == maxPossible ==> r == ScoreScale
  {
    if maxPossible <= 0 then 0
    else
      var r := RoundHalfUp(total * ScoreScale, maxPossible);
      assert 0 <= total <= maxPossible ==> 0 <= r <= ScoreScale by {
        if 0 <= total <= maxPossible {
          RoundedRatioBounds(total, maxPossible, ScoreScale);
        }
      }
      assert total == maxPossible ==> r == ScoreScale by {
        if total == maxPossible {
          RoundHalfUpUnique(total * ScoreScale, maxPossible, ScoreScale);
        }
      }
      r
  }

  // ---------------------------------------------------------------------
  // One professor

  /** toLowerCase of an optional field, "" for null. */
  function Lowered(field: Option<string>): string
  {
    if field.Some? then ToLower(field.value) else ""
  }

  /** researchArea + " " + department, both lower-cased. */
  function CombinedText(p: Professor): (r: string)
    ensures Contains(r, Lowered(p.researchArea)) && Contains(r, Lowered(p.department))
  {
    var area := Lowered(p.researchArea);
    var dept := Lowered(p.department);
    var r := area + " " + dept;
    assert r[0..|area|] == area;
    assert r[|area| + 1..|area| + 1 + |dept|] == dept;
    ContainsAt(r, area, 0);
    ContainsAt(r, dept, |area| + 1);
    r
  }

  /** The keys the text contains, in the order visited. */
  function MatchedIn(order: seq<string>, text: string): (r: seq<string>)
    ensures |r| <= |order|
    ensures forall j :: 0 <= j < |r| ==> r[j] in order && Contains(text, r[j])
    ensures forall i :: 0 <= i < |order| && Contains(text, order[i]) ==> order[i] in r
  {
    if order == [] then []
    else
      var front := order[..|order| - 1];
      var k := order[|order| - 1];
      var f := MatchedIn(front, text);
      assert order == front + [k];
      assert forall i :: 0 <= i < |front| ==> front[i] == order[i];
      if Contains(text, k) then f + [k] else f
  }

  /** The matched keys are drawn from the visited keys, each at most as often. */
  lemma {:induction false} MatchedInSubMultiset(order: seq<string>, text: string)
    ensures multiset(MatchedIn(order, text)) <= multiset(order)
  {
    if order != [] {
      var front := order[..|order| - 1];
      var k := order[|order| - 1];
      var f := MatchedIn(front, text);
      MatchedInSubMultiset(front, text);
      assert order == front + [k];
      assert multiset(order) == multiset(front) + multiset{k};
      if Contains(text, k) {
        assert MatchedIn(order, text) == f + [k];
        assert multiset(f + [k]) == multiset(f) + multiset{k};
      } else {
        assert MatchedIn(order, text) == f;
      }
    }
  }

  /** One more visited key extends the matched list by that key exactly when the text contains it. */
  lemma MatchedInStep(order: seq<string>, i: nat, text: string)
    requires i < |order|
    ensures MatchedIn(order[..i + 1], text) ==
              MatchedIn(order[..i], text) + (if Contains(text, order[i]) then [order[i]] else [])
  {
    assert order[..i + 1][..i] == order[..i];
  }

  /** The separators of the pattern [,;\s]+. */
  predicate IsTokenSeparator(c: char)
  {
    c == ',' || c == ';' || IsRegexSpace(c)
  }

  /** The text between separator characters (runs of separators leave empty tokens). */
  function Tokens(s: string): (r: seq<string>)
    ensures |r| >= 1
  {
    if s == [] then [""]
    else
      var rest := Tokens(s[1..]);
      if IsTokenSeparator(s[0]) then [""] + rest else [[s[0]] + rest[0]] + rest[1..]
  }

  /**
    split("[,;\\s]+"), filter(!isBlank), distinct(), count(), with the
    split taken at single separators: the non-blank tokens are counted once
    each.  That this equals splitting at runs of separators is not proved
    here.
   */
  function ProfessorKeywordCount(researchArea: string): (r: nat)
    ensures r == 0 <==> AllBlank(Tokens(researchArea))
  {
    NonBlankEmpty(Tokens(researchArea));
    |NonBlank(Tokens(researchArea))|
  }

  /** The distinct non-blank tokens. */
  function NonBlank(ts: seq<string>): set<string>
  {
    set t | t in ts && !IsBlank(t)
  }

  predicate AllBlank(ts: seq<string>)
  {
    forall j :: 0 <= j < |ts| ==> IsBlank(ts[j])
  }

  lemma NonBlankEmpty(ts: seq<string>)
    ensures |NonBlank(ts)| == 0 <==> AllBlank(ts)
  {
    var kept := NonBlank(ts);
    if j :| 0 <= j < |ts| && !IsBlank(ts[j]) {
      assert ts[j] in kept;
    }
    if kept != {} {
      var t :| t in kept;
      var j :| 0 <= j < |ts| && ts[j] == t;
    }
  }

  lemma {:induction false} TokensAvoidSeparators(s: string)
    ensures forall j :: 0 <= j < |Tokens(s)| ==> forall i :: 0 <= i < |Tokens(s)[j]| ==> !IsTokenSeparator(Tokens(s)[j][i])
    decreases |s|
  {
    if s != [] {
      TokensAvoidSeparators(s[1..]);
      var rest := Tokens(s[1..]);
      if !IsTokenSeparator(s[0]) {
        var r := Tokens(s);
        assert forall j :: 1 <= j < |r| ==> r[j] == rest[j];
        assert forall i :: 1 <= i < |r[0]| ==> r[0][i] == rest[0][i - 1];
      }
    }
  }

  /** A research area that is one word counts as one professor keyword. */
  lemma {:induction false} SingleWordCountsOne(w: string)
    requires forall i :: 0 <= i < |w| ==> !IsTokenSeparator(w[i])
    requires !IsBlank(w)
    ensures Tokens(w) == [w]
    ensures ProfessorKeywordCount(w) == 1
    decreases |w|
  {
    if |w| > 0 {
      if IsBlank(w[1..]) {
        SeparatorFreeWord(w[1..]);
      } else {
        SingleWordCountsOne(w[1..]);
      }
      assert [w[0]] + w[1..] == w;
    }
    assert NonBlank([w]) == {w};
  }

  /**
    A word without separators is a single token, even when it is blank:
    String.isBlank also counts U+001C..U+001F and the Unicode space
    separators as whitespace, but the separator class (comma, semicolon and
    the regex \s) holds none of them, so such a word is not split.
   */
  lemma {:induction false} SeparatorFreeWord(w: string)
    requires forall i :: 0 <= i < |w| ==> !IsTokenSeparator(w[i])
    ensures Tokens(w) == [w]
    decreases |w|
  {
    if |w| > 0 {
      SeparatorFreeWord(w[1..]);
      assert [w[0]] + w[1..] == w;
    }
  }

  /**
    computeSingleMatch: no result for a professor whose text is blank or
    contains none of the keywords; otherwise the existing result updated in
    place, or a new one.  The order argument is the map's iteration order.
   */
  function SingleMatch(cv: Cv, professor: Professor, weights: map<string, int>, order: seq<string>,
                       existing: Option<MatchResult>, newId: Uuid): (r: Option<MatchResult>)
    ensures r.Some? && existing.Some? ==>
              && r.value.id == existing.value.id && r.value.tenantId == existing.value.tenantId
              && r.value.cvId == existing.value.cvId && r.value.professor == existing.value.professor
    ensures r.Some? && existing.None? ==>
              r.value.id == newId && r.value.tenantId == cv.tenantId && r.value.cvId == cv.id && r.value.professor == professor
    ensures r.Some? ==> r.value.totalCvKeywords == |weights| && 1 <= r.value.totalMatchedKeywords <= |order|
  {
    var combined := CombinedText(professor);
    var matched := MatchedIn(order, combined);
    if IsBlank(combined) || matched == [] then None
    else
      var score := Score(WeightSum(order, weights, Some(combined)), WeightSum(order, weights, None));
      var text := Join(matched, ", ");
      var count := ProfessorKeywordCount(Lowered(professor.researchArea));
      match existing
      case Some(m) =>
        Some(m.(matchScore := score, matchedKeywords := text, totalCvKeywords := |weights|,
                totalProfessorKeywords := count, totalMatchedKeywords := |matched|))
      case None =>
        Some(MatchResult(newId, cv.tenantId, cv.id, professor, score, text, |weights|, count, |matched|))
  }

  /** The loop over the map's entries: the matched keys and the two weight sums. */
  method ScanKeywords(order: seq<string>, weights: map<string, int>, combinedText: string)
    returns (matched: seq<string>, totalScore: int, maxPossibleScore: int)
    requires forall i :: 0 <= i < |order| ==> order[i] in weights
    ensures matched == MatchedIn(order, combinedText)
    ensures totalScore == WeightSum(order, weights, Some(combinedText))
    ensures maxPossibleScore == WeightSum(order, weights, None)
  {
    matched := [];
    totalScore := 0;
    maxPossibleScore := 0;
    var i := 0;
    while i < |order|
      invariant 0 <= i <= |order|
      invariant matched == MatchedIn(order[..i], combinedText)
      invariant totalScore == WeightSum(order[..i], weights, Some(combinedText))
      invariant maxPossibleScore == WeightSum(order[..i], weights, None)
    {
      var keyword := order[i];
      var weight := weights[keyword];
      MatchedInStep(order, i, combinedText);
      WeightSumStep(order, i, weights, Some(combinedText));
      WeightSumStep(order, i, weights, None);
      maxPossibleScore := maxPossibleScore + weight;
      if Contains(combinedText, keyword) {
        matched := matched + [keyword];
        totalScore := totalScore + weight;
      }
      i := i + 1;
    }
    assert order[..i] == order;
  }

  /** computeSingleMatch, visiting the map's entries in the given order. */
  method ComputeSingleMatch(cv: Cv, professor: Professor, weights: map<string, int>, order: seq<string>,
                            existing: Option<MatchResult>, newId: Uuid) returns (r: Option<MatchResult>)
    requires IsEnumeration(order, weights)
    ensures r == SingleMatch(cv, professor, weights, order, existing, newId)
  {
    var researchArea := Lowered(professor.researchArea);
    var department := Lowered(professor.department);
    var combinedText := researchArea + " " + department;
    if IsBlank(combinedText) {
      return None;
    }
    var profKeywordCount := ProfessorKeywordCount(researchArea);
    var matched, totalScore, maxPossibleScore := ScanKeywords(order, weights, combinedText);
    if matched == [] {
      return None;
    }
    var matchScore := if maxPossibleScore > 0 then RoundHalfUp(totalScore * ScoreScale, maxPossibleScore) else 0;
    var matchedKeywordsStr := Join(matched, ", ");
    if existing.Some? {
      r := Some(existing.value.(matchScore := matchScore, matchedKeywords := matchedKeywordsStr,
                                totalCvKeywords := |weights|, totalProfessorKeywords := profKeywordCount,
                                totalMatchedKeywords := |matched|));
    } else {
      r := Some(MatchResult(newId, cv.tenantId, cv.id, professor, matchScore, matchedKeywordsStr,
                            |weights|, profKeywordCount, |matched|));
    }
  }

  /** The keys of the map that occur in the text. */
  function MatchedSet(weights: map<string, int>, text: string): set<string>
  {
    set k | k in weights && Contains(text, k)
  }

  /** A result exists exactly when the text is not blank and contains one of the keywords. */
  lemma SingleMatchExists(cv: Cv, professor: Professor, weights: map<string, int>, order: seq<string>,
                          existing: Option<MatchResult>, newId: Uuid)
    requires IsEnumeration(order, weights)
    ensures SingleMatch(cv, professor, weights, order, existing, newId).Some? <==>
              !IsBlank(CombinedText(professor)) && MatchedSet(weights, CombinedText(professor)) != {}
  {
    var text := CombinedText(professor);
    var matched := MatchedIn(order, text);
    if matched != [] {
      assert matched[0] in MatchedSet(weights, text);
    }
    if MatchedSet(weights, text) != {} {
      var k :| k in MatchedSet(weights, text);
      assert k in matched;
    }
  }

  /**
    The statistics of a result: the matched count is the number of
    distinct keywords found, at least one and at most the map's size, and
    with non-negative weights the score lies between 0 and 1.
   */
  lemma SingleMatchStatistics(cv: Cv, professor: Professor, weights: map<string, int>, order: seq<string>,
                              existing: Option<MatchResult>, newId: Uuid)
    requires IsEnumeration(order, weights) && NonNegativeWeights(weights)
    ensures var r := SingleMatch(cv, professor, weights, order, existing, newId);
            r.Some? ==>
              && r.value.totalCvKeywords == |weights|
              && r.value.totalMatchedKeywords == |MatchedSet(weights, CombinedText(professor))|
              && 1 <= r.value.totalMatchedKeywords <= r.value.totalCvKeywords
              && 0 <= r.value.matchScore <= ScoreScale
  {
    var text := CombinedText(professor);
    var matched := MatchedIn(order, text);
    var r := SingleMatch(cv, professor, weights, order, existing, newId);
    if r.Some? {
      MatchedCount(weights, order, text);
      EnumerationSize(order, weights);
      ScoreBounds(order, weights, text);
    }
  }

  /** With non-negative weights the score lies between 0 and 1. */
  lemma ScoreBounds(order: seq<string>, weights: map<string, int>, text: string)
    requires NonNegativeWeights(weights)
    ensures 0 <= Score(WeightSum(order, weights, Some(text)), WeightSum(order, weights, None)) <= ScoreScale
  {
    var total := WeightSum(order, weights, None);
    MatchedWeightBounds(order, weights, text);
    if total > 0 {
      RoundedRatioBounds(WeightSum(order, weights, Some(text)), total, ScoreScale);
    }
  }

  /** A professor whose text contains every keyword scores exactly 1 (when the total weight is positive). */
  lemma FullMatchScoresOne(cv: Cv, professor: Professor, weights: map<string, int>, order: seq<string>,
                           existing: Option<MatchResult>, newId: Uuid)
    requires IsEnumeration(order, weights) && order != []
    requires !IsBlank(CombinedText(professor))
    requires forall k | k in weights :: Contains(CombinedText(professor), k)
    requires WeightSum(order, weights, None) > 0
    ensures SingleMatch(cv, professor, weights, order, existing, newId).Some?
    ensures SingleMatch(cv, professor, weights, order, existing, newId).value.matchScore == ScoreScale
  {
    var text := CombinedText(professor);
    assert order[0] in MatchedIn(order, text);
    AllMatchedWeight(order, weights, text);
    var t := WeightSum(order, weights, None);
    RoundHalfUpUnique(t * ScoreScale, t, ScoreScale);
  }

  /** The matched keys are as many as the keys of the map the text contains. */
  lemma MatchedCount(weights: map<string, int>, order: seq<string>, text: string)
    requires IsEnumeration(order, weights)
    ensures |MatchedIn(order, text)| == |MatchedSet(weights, text)|
  {
    var m := MatchedIn(order, text);
    MatchedInSubMultiset(order, text);
    UniqueBySubMultiset(m, order, KeyOf);
    DistinctCardinality(m);
    assert (set x | x in m) == MatchedSet(weights, text);
  }

  /** Two enumerations of one map are permutations of each other. */
  lemma EnumerationsPermute(weights: map<string, int>, order1: seq<string>, order2: seq<string>)
    requires IsEnumeration(order1, weights) && IsEnumeration(order2, weights)
    ensures multiset(order1) == multiset(order2)
  {
    DistinctMultiset(order1, order2);
  }

  /** The matched keys of two iteration orders are as many, and weigh the same. */
  lemma OrdersAgree(weights: map<string, int>, order1: seq<string>, order2: seq<string>, text: string)
    requires IsEnumeration(order1, weights) && IsEnumeration(order2, weights)
    ensures |MatchedIn(order1, text)| == |MatchedIn(order2, text)|
    ensures WeightSum(order1, weights, None) == WeightSum(order2, weights, None)
    ensures WeightSum(order1, weights, Some(text)) == WeightSum(order2, weights, Some(text))
  {
    MatchedCount(weights, order1, text);
    MatchedCount(weights, order2, text);
    EnumerationsPermute(weights, order1, order2);
    WeightSumPermutation(order1, order2, weights, None);
    WeightSumPermutation(order1, order2, weights, Some(text));
  }

  /**
    Any two iteration orders of the map give the same score and counts;
    only the order of the names in matchedKeywords may differ.
   */
  lemma SingleMatchOrderIrrelevant(cv: Cv, professor: Professor, weights: map<string, int>,
                                   order1: seq<string>, order2: seq<string>,
                                   existing: Option<MatchResult>, newId: Uuid)
    requires IsEnumeration(order1, weights) && IsEnumeration(order2, weights)
    ensures var r1 := SingleMatch(cv, professor, weights, order1, existing, newId);
            var r2 := SingleMatch(cv, professor, weights, order2, existing, newId);
            && r1.Some? == r2.Some?
            && (r1.Some? ==> r1.value.(matchedKeywords := "") == r2.value.(matchedKeywords := ""))
  {
    OrdersAgree(weights, order1, order2, CombinedText(professor));
  }

  /** Two sequences of distinct elements with the same elements are permutations of each other. */
  lemma DistinctMultiset(a: seq<string>, b: seq<string>)
    requires UniqueBy(a, KeyOf) && UniqueBy(b, KeyOf)
    requires forall x :: x in a <==> x in b
    ensures multiset(a) == multiset(b)
  {
    forall z
      ensures multiset(a)[z] == multiset(b)[z]
    {
      UniqueCountsOne(a, KeyOf, z);
      UniqueCountsOne(b, KeyOf, z);
      assert z in a <==> z in b;
    }
  }

  // ---------------------------------------------------------------------
  // All professors

  /** findAll().filter(ACTIVE). */
  function ActiveProfessors(rows: seq<Professor>): (r: seq<Professor>)
    ensures forall i :: 0 <= i < |r| ==> r[i] in rows && r[i].status == ProfessorStatus.Active
    ensures forall i :: 0 <= i < |rows| && rows[i].status == ProfessorStatus.Active ==> rows[i] in r
    ensures multiset(r) <= multiset(rows)
  {
    Filter(rows, (p: Professor) => p.status == ProfessorStatus.Active)
  }

  /** existingMatchMap.get(professorId). */
  function FindByProfessor(ms: seq<MatchResult>, professorId: Uuid): (r: Option<MatchResult>)
    ensures r.Some? ==> r.value in ms && r.value.professor.id == professorId
    ensures r.None? ==> forall i :: 0 <= i < |ms| ==> ms[i].professor.id != professorId
  {
    if ms == [] then None
    else if ms[0].professor.id == professorId then Some(ms[0])
    else FindByProfessor(ms[1..], professorId)
  }

  /** The results the loop of computeMatches collects, in professor order. */
  function ResultsFor(cv: Cv, professors: seq<Professor>, weights: map<string, int>, order: seq<string>,
                      existing: seq<MatchResult>, newMatchId: Uuid -> Uuid): seq<MatchResult>
  {
    if professors == [] then []
    else
      var p := professors[|professors| - 1];
      var front := ResultsFor(cv, professors[..|professors| - 1], weights, order, existing, newMatchId);
      var r := SingleMatch(cv, p, weights, order, FindByProfessor(existing, p.id), newMatchId(p.id));
      if r.Some? then front + [r.value] else front
  }

  /** One more professor adds that professor's single match, if there is one. */
  lemma ResultsForStep(cv: Cv, professors: seq<Professor>, i: nat, weights: map<string, int>, order: seq<string>,
                       existing: seq<MatchResult>, newMatchId: Uuid -> Uuid)
    requires i < |professors|
    ensures var r := SingleMatch(cv, professors[i], weights, order, FindByProfessor(existing, professors[i].id),
                                 newMatchId(professors[i].id));
            ResultsFor(cv, professors[..i + 1], weights, order, existing, newMatchId) ==
            ResultsFor(cv, professors[..i], weights, order, existing, newMatchId) + (if r.Some? then [r.value] else [])
  {
    assert professors[..i + 1][..i] == professors[..i];
  }

  /** The loop of computeMatches over the active professors. */
  method CollectResults(cv: Cv, professors: seq<Professor>, weights: map<string, int>, order: seq<string>,
                        existing: seq<MatchResult>, newMatchId: Uuid -> Uuid) returns (results: seq<MatchResult>)
    requires IsEnumeration(order, weights)
    ensures results == ResultsFor(cv, professors, weights, order, existing, newMatchId)
  {
    results := [];
    var i := 0;
    while i < |professors|
      invariant 0 <= i <= |professors|
      invariant results == ResultsFor(cv, professors[..i], weights, order, existing, newMatchId)
    {
      ResultsForStep(cv, professors, i, weights, order, existing, newMatchId);
      var p := professors[i];
      var r := ComputeSingleMatch(cv, p, weights, order, FindByProfessor(existing, p.id), newMatchId(p.id));
      if r.Some? {
        results := results + [r.value];
      }
      i := i + 1;
    }
    assert professors[..i] == professors;
  }

  /** New result keys are unused and distinct per professor. */
  ghost predicate FreshIds(newMatchId: Uuid -> Uuid, rows: seq<MatchResult>)
  {
    && (forall p: Uuid, i :: 0 <= i < |rows| ==> rows[i].id != newMatchId(p))
    && (forall p: Uuid, q: Uuid :: p != q ==> newMatchId(p) != newMatchId(q))
  }

  /** A result carries either the new key for its professor or the key of the stored row with its pair. */
  ghost predicate KeyKnown(rows: seq<MatchResult>, m: MatchResult, newMatchId: Uuid -> Uuid)
  {
    m.id == newMatchId(m.professor.id) ||
    exists i :: 0 <= i < |rows| && rows[i].id == m.id && MatchKey(rows[i]) == MatchKey(m)
  }

  /** The facts the saving step needs about the collected results. */
  ghost predicate ResultsFit(rows: seq<MatchResult>, ms: seq<MatchResult>, cvId: Uuid,
                            professors: seq<Professor>, newMatchId: Uuid -> Uuid)
  {
    && UniqueBy(ms, MatchId) && UniqueBy(ms, MatchKey)
    && (forall j :: 0 <= j < |ms| ==> FitsTable(rows, ms[j]) && KeyKnown(rows, ms[j], newMatchId))
    && (forall j :: 0 <= j < |ms| ==> ms[j].cvId == cvId && ms[j].professor.id in ProfessorIds(professors))
  }

  function ProfessorIds(professors: seq<Professor>): set<Uuid>
  {
    set i | 0 <= i < |professors| :: professors[i].id
  }

  /**
    Each result is about its professor and the CV, and either carries the
    key of the stored result for that pair or a new key.
   */
  lemma ResultFits(cv: Cv, p: Professor, weights: map<string, int>, order: seq<string>,
                   rows: seq<MatchResult>, newMatchId: Uuid -> Uuid)
    requires FreshIds(newMatchId, rows)
    ensures var r := SingleMatch(cv, p, weights, order, FindByProfessor(MatchesOfCv(rows, cv.id), p.id), newMatchId(p.id));
            r.Some? ==>
              && r.value.cvId == cv.id && r.value.professor.id == p.id
              && FitsTable(rows, r.value)
              && KeyKnown(rows, r.value, newMatchId)
  {
    var ex := FindByProfessor(MatchesOfCv(rows, cv.id), p.id);
    var r := SingleMatch(cv, p, weights, order, ex, newMatchId(p.id));
    if r.Some? {
      if ex.Some? {
        var i :| 0 <= i < |rows| && rows[i] == ex.value;
        assert MatchKey(rows[i]) == MatchKey(r.value);
      } else {
        forall i | 0 <= i < |rows|
          ensures rows[i].id != r.value.id && MatchKey(rows[i]) != MatchKey(r.value)
        {
          if rows[i].cvId == cv.id {
            assert rows[i] in MatchesOfCv(rows, cv.id);
          }
        }
      }
    }
  }

  /** Results for two different pairs have different keys. */
  lemma DistinctResultIds(rows: seq<MatchResult>, a: MatchResult, b: MatchResult, newMatchId: Uuid -> Uuid)
    requires MatchTableValid(rows) && FreshIds(newMatchId, rows)
    requires KeyKnown(rows, a, newMatchId) && KeyKnown(rows, b, newMatchId)
    requires a.professor.id != b.professor.id
    ensures a.id != b.id
  {
    if a.id == newMatchId(a.professor.id) {
      if b.id != newMatchId(b.professor.id) {
        var k :| 0 <= k < |rows| && rows[k].id == b.id && MatchKey(rows[k]) == MatchKey(b);
      }
    } else {
      var k1 :| 0 <= k1 < |rows| && rows[k1].id == a.id && MatchKey(rows[k1]) == MatchKey(a);
      if b.id != newMatchId(b.professor.id) {
        var k2 :| 0 <= k2 < |rows| && rows[k2].id == b.id && MatchKey(rows[k2]) == MatchKey(b);
        assert k1 != k2;
      }
    }
  }

  /** Adding the result of a professor not seen before keeps the facts. */
  lemma ResultsFitStep(rows: seq<MatchResult>, fs: seq<MatchResult>, m: MatchResult, cvId: Uuid,
                       front: seq<Professor>, p: Professor, newMatchId: Uuid -> Uuid)
    requires MatchTableValid(rows) && FreshIds(newMatchId, rows)
    requires ResultsFit(rows, fs, cvId, front, newMatchId)
    requires p.id !in ProfessorIds(front)
    requires m.cvId == cvId && m.professor.id == p.id && FitsTable(rows, m) && KeyKnown(rows, m, newMatchId)
    ensures ResultsFit(rows, fs + [m], cvId, front + [p], newMatchId)
  {
    var ms := fs + [m];
    forall j | 0 <= j < |fs|
      ensures fs[j].id != m.id && MatchKey(fs[j]) != MatchKey(m)
    {
      DistinctResultIds(rows, fs[j], m, newMatchId);
    }
    assert forall j :: 0 <= j < |fs| ==> ms[j] == fs[j];
    assert ProfessorIds(front + [p]) == ProfessorIds(front) + {p.id} by {
      var q := front + [p];
      forall id | id in ProfessorIds(q)
        ensures id in ProfessorIds(front) + {p.id}
      {
        var i :| 0 <= i < |q| && q[i].id == id;
        if i < |front| {
          assert q[i] == front[i];
        }
      }
      forall id | id in ProfessorIds(front)
        ensures id in ProfessorIds(q)
      {
        var i :| 0 <= i < |front| && front[i].id == id;
        assert q[i] == front[i];
      }
      assert q[|front|] == p;
    }
  }

  /** The collected results fit the table and have distinct keys and pairs. */
  lemma {:induction false} ResultsFitTable(cv: Cv, professors: seq<Professor>, weights: map<string, int>, order: seq<string>,
                                           rows: seq<MatchResult>, newMatchId: Uuid -> Uuid)
    requires MatchTableValid(rows) && UniqueBy(professors, ProfessorId) && FreshIds(newMatchId, rows)
    ensures ResultsFit(rows, ResultsFor(cv, professors, weights, order, MatchesOfCv(rows, cv.id), newMatchId),
                       cv.id, professors, newMatchId)
    decreases |professors|
  {
    if |professors| > 0 {
      var n := |professors| - 1;
      var front := professors[..n];
      var p := professors[n];
      assert professors == front + [p];
      UniqueByPrefix(professors, n, ProfessorId);
      ResultsFitTable(cv, front, weights, order, rows, newMatchId);
      ResultFits(cv, p, weights, order, rows, newMatchId);
      var existing := MatchesOfCv(rows, cv.id);
      var fs := ResultsFor(cv, front, weights, order, existing, newMatchId);
      var r := SingleMatch(cv, p, weights, order, FindByProfessor(existing, p.id), newMatchId(p.id));
      assert ResultsFor(cv, professors, weights, order, existing, newMatchId) == if r.Some? then fs + [r.value] else fs;
      if r.Some? {
        assert p.id !in ProfessorIds(front) by {
          forall i | 0 <= i < n
            ensures front[i].id != p.id
          {
            assert front[i] == professors[i];
            assert ProfessorId(professors[i]) != ProfessorId(professors[n]);
          }
        }
        ResultsFitStep(rows, fs, r.value, cv.id, front, p, newMatchId);
      } else {
        assert ProfessorIds(front) <= ProfessorIds(professors) by {
          forall id | id in ProfessorIds(front)
            ensures id in ProfessorIds(professors)
          {
            var i :| 0 <= i < n && front[i].id == id;
            assert front[i] == professors[i];
          }
        }
      }
    }
  }

  /** Every row no result's pair touches is still at its place. */
  predicate KeptUnlessPlanned(rows: seq<MatchResult>, ms: seq<MatchResult>, after: seq<MatchResult>)
  {
    && |after| >= |rows|
    && forall i :: 0 <= i < |rows| && (forall j :: 0 <= j < |ms| ==> MatchKey(ms[j]) != MatchKey(rows[i])) ==>
         after[i] == rows[i]
  }

  /**
    Saving results that fit the table keeps both unique constraints, keeps
    the rows of other CVs, and keeps every row whose pair no result carries.
   */
  lemma SaveFitting(rows: seq<MatchResult>, ms: seq<MatchResult>, cvId: Uuid,
                    professors: seq<Professor>, newMatchId: Uuid -> Uuid)
    requires MatchTableValid(rows) && ResultsFit(rows, ms, cvId, professors, newMatchId)
    ensures MatchTableValid(UpsertAll(rows, ms))
    ensures forall i :: 0 <= i < |rows| && rows[i].cvId != cvId ==> UpsertAll(rows, ms)[i] == rows[i]
    ensures KeptUnlessPlanned(rows, ms, UpsertAll(rows, ms))
  {
    UpsertAllKeepsValid(rows, ms);
    UntouchedRows(rows, ms);
  }

  // ---------------------------------------------------------------------
  // The service

  class Matching {
    const cvs: CvRepository
    const keywords: CvKeywordRepository
    const professors: ProfessorRepository
    const matches: MatchResultRepository

    constructor (cvs: CvRepository, keywords: CvKeywordRepository, professors: ProfessorRepository,
                 matches: MatchResultRepository)
      ensures this.cvs == cvs && this.keywords == keywords
      ensures this.professors == professors && this.matches == matches
    {
      this.cvs := cvs;
      this.keywords := keywords;
      this.professors := professors;
      this.matches := matches;
    }

    /** The CV, when computeMatches gets past its guards: found for the tenant, COMPLETED, with keywords. */
    function Eligible(cvId: Uuid, tenantId: Uuid): Option<Cv>
      reads cvs, keywords
    {
      match cvs.FindByIdAndTenantId(cvId, tenantId)
      case None => None
      case Some(cv) =>
        if cv.parsingStatus != ParsingStatus.Completed || KeywordsOfCv(keywords.rows, cvId) == [] then None
        else Some(cv)
    }

    /** The results computeMatches saves for an eligible CV, given the stored results. */
    function Planned(rows: seq<MatchResult>, cv: Cv, newMatchId: Uuid -> Uuid): seq<MatchResult>
      reads keywords, professors
    {
      var kws := KeywordsOfCv(keywords.rows, cv.id);
      ResultsFor(cv, ActiveProfessors(professors.rows), KeywordWeights(kws), KeywordOrder(kws),
                 MatchesOfCv(rows, cv.id), newMatchId)
    }

    /** The result table computeMatches leaves behind when it starts from rows. */
    function AfterCompute(rows: seq<MatchResult>, cvId: Uuid, tenantId: Uuid, newMatchId: Uuid -> Uuid): seq<MatchResult>
      reads cvs, keywords, professors
    {
      match Eligible(cvId, tenantId)
      case None => rows
      case Some(cv) => UpsertAll(rows, Planned(rows, cv, newMatchId))
    }

    /**
      A stored row stays as it was when computeMatches makes no result for
      its pair: rows of other CVs, and of professors that no longer match.
     */
    lemma ComputeKeepsUnmatched(rows: seq<MatchResult>, cvId: Uuid, tenantId: Uuid, newMatchId: Uuid -> Uuid)
      requires cvs.Valid() && professors.Valid()
      requires MatchTableValid(rows) && FreshIds(newMatchId, rows)
      ensures MatchTableValid(AfterCompute(rows, cvId, tenantId, newMatchId))
      ensures forall i :: 0 <= i < |rows| && rows[i].cvId != cvId ==>
                AfterCompute(rows, cvId, tenantId, newMatchId)[i] == rows[i]
      ensures Eligible(cvId, tenantId).Some? ==>
                KeptUnlessPlanned(rows, Planned(rows, Eligible(cvId, tenantId).value, newMatchId),
                                  AfterCompute(rows, cvId, tenantId, newMatchId))
    {
      var e := Eligible(cvId, tenantId);
      if e.Some? {
        var cv := e.value;
        var kws := KeywordsOfCv(keywords.rows, cv.id);
        var active := ActiveProfessors(professors.rows);
        UniqueBySubMultiset(active, professors.rows, ProfessorId);
        ResultsFitTable(cv, active, KeywordWeights(kws), KeywordOrder(kws), rows, newMatchId);
        SaveFitting(rows, Planned(rows, cv, newMatchId), cv.id, active, newMatchId);
      }
    }

    /**
      computeMatches: nothing happens unless the CV is found for the tenant,
      COMPLETED and has keywords; otherwise every active professor is scored
      and the results are saved, updating the stored result of a professor
      in place.
     */
    method ComputeMatches(cvId: Uuid, tenantId: Uuid, newMatchId: Uuid -> Uuid)
      requires cvs.Valid() && matches.Valid() && professors.Valid()
      requires FreshIds(newMatchId, matches.rows)
      modifies matches
      ensures matches.rows == AfterCompute(old(matches.rows), cvId, tenantId, newMatchId)
      ensures matches.Valid()
    {
      var found := cvs.FindByIdAndTenantId(cvId, tenantId);
      if found.None? {
        return;
      }
      var cv := found.value;
      assert cv.id == cvId;
      if cv.parsingStatus != ParsingStatus.Completed {
        return;
      }
      var cvKeywords := KeywordsOfCv(keywords.rows, cvId);
      if cvKeywords == [] {
        return;
      }
      assert Eligible(cvId, tenantId) == Some(cv);
      ComputeKeepsUnmatched(matches.rows, cvId, tenantId, newMatchId);
      SavePlanned(cv, newMatchId);
    }

    /** The scoring loop and the saveAll of computeMatches for an eligible CV. */
    method SavePlanned(cv: Cv, newMatchId: Uuid -> Uuid)
      requires matches.Valid()
      requires MatchTableValid(UpsertAll(matches.rows, Planned(matches.rows, cv, newMatchId)))
      modifies matches
      ensures matches.rows == UpsertAll(old(matches.rows), Planned(old(matches.rows), cv, newMatchId))
      ensures matches.Valid()
    {
      var cvKeywords := KeywordsOfCv(keywords.rows, cv.id);
      var cvKeywordMap := KeywordWeights(cvKeywords);
      var order := KeywordOrder(cvKeywords);
      KeywordOrderEnumerates(cvKeywords);
      var active := ActiveProfessors(professors.rows);
      var existing := MatchesOfCv(matches.rows, cv.id);
      var results := CollectResults(cv, active, cvKeywordMap, order, existing, newMatchId);
      matches.SaveAll(results);
    }

    /** Computing into a table without rows of the CV leaves only new rows for it. */
    lemma RecomputeFacts(rows: seq<MatchResult>, cvId: Uuid, tenantId: Uuid, newMatchId: Uuid -> Uuid)
      requires cvs.Valid() && professors.Valid()
      requires MatchTableValid(rows) && FreshIds(newMatchId, rows)
      requires forall i :: 0 <= i < |rows| ==> rows[i].cvId != cvId
      ensures MatchTableValid(AfterCompute(rows, cvId, tenantId, newMatchId))
      ensures forall i :: 0 <= i < |rows| ==> AfterCompute(rows, cvId, tenantId, newMatchId)[i] == rows[i]
      ensures forall k ::
                (0 <= k < |AfterCompute(rows, cvId, tenantId, newMatchId)| && AfterCompute(rows, cvId, tenantId, newMatchId)[k].cvId == cvId) ==>
                AfterCompute(rows, cvId, tenantId, newMatchId)[k].id == newMatchId(AfterCompute(rows, cvId, tenantId, newMatchId)[k].professor.id)
    {
      ComputeKeepsUnmatched(rows, cvId, tenantId, newMatchId);
      var e := Eligible(cvId, tenantId);
      if e.Some? {
        var kws := KeywordsOfCv(keywords.rows, cvId);
        var active := ActiveProfessors(professors.rows);
        UniqueBySubMultiset(active, professors.rows, ProfessorId);
        ResultsFitTable(e.value, active, KeywordWeights(kws), KeywordOrder(kws), rows, newMatchId);
        NewRowsOnly(rows, Planned(rows, e.value, newMatchId), cvId, active, newMatchId);
      }
    }

    /**
      recomputeMatches: the CV's results are deleted, then computed afresh
      (the computation runs once the deletion is committed).  The bulk
      delete is refused when an email log points at one of the results;
      then nothing changes and nothing is computed.
     */
    method RecomputeMatches(cvId: Uuid, tenantId: Uuid, newMatchId: Uuid -> Uuid, logTable: EmailLogRepository)
      returns (r: Result<()>)
      requires cvs.Valid() && matches.Valid() && professors.Valid()
      requires FreshIds(newMatchId, matches.rows)
      modifies matches
      ensures matches.Valid()
      ensures r.Err? <==> LogsReferenceResults(logTable.logs, old(matches.rows), cvId)
      ensures r.Err? ==> r == Err(ForeignKeyViolation) && matches.rows == old(matches.rows)
      ensures r.Ok? ==>
                && r == Ok(())
                && matches.rows == AfterCompute(MatchesWithoutCv(old(matches.rows), cvId), cvId, tenantId, newMatchId)
                && (Eligible(cvId, tenantId).None? ==> matches.rows == MatchesWithoutCv(old(matches.rows), cvId))
      ensures r.Ok? ==>
                forall i :: 0 <= i < |MatchesWithoutCv(old(matches.rows), cvId)| ==>
                  matches.rows[i] == MatchesWithoutCv(old(matches.rows), cvId)[i]
      ensures r.Ok? ==>
                forall i :: 0 <= i < |matches.rows| && matches.rows[i].cvId == cvId ==>
                  matches.rows[i].id == newMatchId(matches.rows[i].professor.id)
    {
      if LogsReferenceResults(logTable.logs, matches.rows, cvId) {
        return Err(ForeignKeyViolation);
      }
      matches.DeleteByCvId(cvId);
      DeletionKeepsTable(old(matches.rows), cvId, newMatchId);
      RecomputeFacts(matches.rows, cvId, tenantId, newMatchId);
      ComputeMatches(cvId, tenantId, newMatchId);
      r := Ok(());
    }
  }

  /** Deleting a CV's results keeps the table's constraints and the freshness of new keys. */
  lemma DeletionKeepsTable(before: seq<MatchResult>, cvId: Uuid, newMatchId: Uuid -> Uuid)
    requires MatchTableValid(before) && FreshIds(newMatchId, before)
    ensures var after := MatchesWithoutCv(before, cvId);
            && MatchTableValid(after) && FreshIds(newMatchId, after)
            && forall i :: 0 <= i < |after| ==> after[i].cvId != cvId
  {
    var after := MatchesWithoutCv(before, cvId);
    UniqueBySubMultiset(after, before, MatchId);
    UniqueBySubMultiset(after, before, MatchKey);
    assert forall i :: 0 <= i < |after| ==> after[i] in before && after[i].cvId != cvId;
  }

  /**
    After deletion every saved result is new: the CV's rows afterwards all
    carry fresh keys.
   */
  lemma NewRowsOnly(before: seq<MatchResult>, ms: seq<MatchResult>, cvId: Uuid, professors: seq<Professor>,
                    newMatchId: Uuid -> Uuid)
    requires forall i :: 0 <= i < |before| ==> before[i].cvId != cvId
    requires ResultsFit(before, ms, cvId, professors, newMatchId)
    ensures forall k :: 0 <= k < |UpsertAll(before, ms)| && UpsertAll(before, ms)[k].cvId == cvId ==>
              UpsertAll(before, ms)[k].id == newMatchId(UpsertAll(before, ms)[k].professor.id)
  {
    UpsertAllFrame(before, ms);
    var after := UpsertAll(before, ms);
    forall k | 0 <= k < |after| && after[k].cvId == cvId
      ensures after[k].id == newMatchId(after[k].professor.id)
    {
      if after[k] !in before {
        var j :| 0 <= j < |ms| && ms[j] == after[k];
        assert KeyKnown(before, ms[j], newMatchId);
      }
    }
  }

  /**
    Saving results of which each carries a new key or the key of the stored
    row with the same pair leaves every row whose pair no result carries.
   */
  lemma UntouchedRows(rows: seq<MatchResult>, ms: seq<MatchResult>)
    requires MatchTableValid(rows)
    requires forall j :: 0 <= j < |ms| ==> FitsTable(rows, ms[j])
    ensures KeptUnlessPlanned(rows, ms, UpsertAll(rows, ms))
  {
    UpsertAllFrame(rows, ms);
    forall i | 0 <= i < |rows| && (forall j :: 0 <= j < |ms| ==> MatchKey(ms[j]) != MatchKey(rows[i]))
      ensures forall j :: 0 <= j < |ms| ==> ms[j].id != rows[i].id
    {
      forall j | 0 <= j < |ms|
        ensures ms[j].id != rows[i].id
      {
        if k :| 0 <= k < |rows| && rows[k].id == ms[j].id && MatchKey(rows[k]) == MatchKey(ms[j]) {
          assert k != i;
        }
      }
    }
  }
}
