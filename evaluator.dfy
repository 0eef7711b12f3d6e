/**
 * The rule-based rubric scorer of `app/evaluation/evaluator.py`: three
 * heuristic sub-scores of a generated location summary (factual accuracy,
 * creativity, completeness), their weighted final score, and the
 * orchestrating `evaluate` that adds an embedding-based similarity.
 *
 * Python's substring test `p in s`, `strip()`, `split('.')` and `split()`
 * are the ones of module Text. The population variance that the source takes
 * from numpy in floating point is computed here exactly, over integers, and
 * proved equal to the textbook definition over the reals.
 */
module Evaluator {
  import opened Wrappers
  import opened Text

  /** The fields of a location record the scorer reads. `name` is always
      present (the source indexes it directly); the others may be missing.
      `locationType` is the record's `type` field. The residents are whatever
      strings the record lists (in practice the residents' URLs). */
  datatype Location = Location(
    name: string,
    locationType: Option<string>,
    dimension: Option<string>,
    residents: Option<seq<string>>)

  function Min(a: int, b: int): int { if a <= b then a else b }
  function Max(a: int, b: int): int { if a >= b then a else b }

  /** One point when `b` holds. */
  function Bonus(b: bool): int { if b then 1 else 0 }

  // ---------------------------------------------------------------------------
  // score_factual

  /** `sum(1 for r in residents if r in summary)`: how many residents are
      quoted; it is positive exactly when at least one is. */
  function Covered(residents: seq<string>, summary: string): (n: nat)
    ensures n <= |residents|
    ensures n > 0 <==> exists i :: 0 <= i < |residents| && IsSubstring(residents[i], summary)
    decreases |residents|
  {
    if residents == [] then 0
    else
      var n := Covered(residents[1..], summary);
      (if IsSubstring(residents[0], summary) then 1 else 0) + n
  }

  /** Some resident string of the location occurs verbatim in the summary. */
  predicate MentionsResident(loc: Location, summary: string) {
    loc.residents.Some? &&
    exists i :: 0 <= i < |loc.residents.value| && IsSubstring(loc.residents.value[i], summary)
  }

  /** Base 3, one point for the location's name, one point (however many
      residents match) for any resident; a missing or empty resident list
      never adds. The cap at 5 never bites. */
  function ScoreFactual(summary: string, loc: Location): (r: int)
    ensures 3 <= r <= 5
    ensures r == 3 + Bonus(IsSubstring(loc.name, summary)) + Bonus(MentionsResident(loc, summary))
    ensures loc.residents == None || loc.residents == Some([]) ==>
      r == 3 + Bonus(IsSubstring(loc.name, summary))
  {
    var score := 3 + (if IsSubstring(loc.name, summary) then 1 else 0);
    var score :=
      if loc.residents.Some? && loc.residents.value != [] && Covered(loc.residents.value, summary) > 0
      then score + 1 else score;
    Min(score, 5)
  }

  /** Adding text around a summary never lowers its factual score. */
  lemma {:induction false} FactualMonotone(summary: string, before: string, after: string, loc: Location)
    ensures ScoreFactual(before + summary + after, loc) >= ScoreFactual(summary, loc)
  {
    var longer := before + summary + after;
    if IsSubstring(loc.name, summary) {
      SubstringOfExtension(loc.name, summary, before, after);
    }
    if MentionsResident(loc, summary) {
      var i :| 0 <= i < |loc.residents.value| && IsSubstring(loc.residents.value[i], summary);
      SubstringOfExtension(loc.residents.value[i], summary, before, after);
      assert MentionsResident(loc, longer);
    }
  }

  // ---------------------------------------------------------------------------
  // score_completeness

  /** `location.get(field) and location[field] in summary`: the field is
      present, non-empty, and quoted verbatim. */
  predicate Mentions(field: Option<string>, summary: string) {
    field.Some? && field.value != [] && IsSubstring(field.value, summary)
  }

  /** Base 3, one point each for the type and the dimension when quoted.
      A missing or empty field never adds, although the empty string occurs
      in every summary. */
  function ScoreCompleteness(summary: string, loc: Location): (r: int)
    ensures 3 <= r <= 5
    ensures r == 3 + Bonus(Mentions(loc.locationType, summary)) + Bonus(Mentions(loc.dimension, summary))
    ensures ((loc.locationType == None || loc.locationType == Some([])) &&
             (loc.dimension == None || loc.dimension == Some([]))) ==> r == 3
    ensures r == 5 <==>
      loc.locationType.Some? && loc.locationType.value != [] && IsSubstring(loc.locationType.value, summary) &&
      loc.dimension.Some? && loc.dimension.value != [] && IsSubstring(loc.dimension.value, summary)
  {
    var score := 3;
    var score := if Mentions(loc.locationType, summary) then score + 1 else score;
    var score := if Mentions(loc.dimension, summary) then score + 1 else score;
    Min(score, 5)
  }

  /** Adding text around a summary never lowers its completeness score. */
  lemma {:induction false} CompletenessMonotone(summary: string, before: string, after: string, loc: Location)
    ensures ScoreCompleteness(before + summary + after, loc) >= ScoreCompleteness(summary, loc)
  {
    if Mentions(loc.locationType, summary) {
      SubstringOfExtension(loc.locationType.value, summary, before, after);
    }
    if Mentions(loc.dimension, summary) {
      SubstringOfExtension(loc.dimension.value, summary, before, after);
    }
  }

  // ---------------------------------------------------------------------------
  // score_creativity: sentences and their word counts

  /** Every piece is blank. */
  predicate AllBlank(parts: seq<string>) {
    forall i :: 0 <= i < |parts| ==> IsBlank(parts[i])
  }

  /** No piece is blank. */
  predicate NoneBlank(parts: seq<string>) {
    forall i :: 0 <= i < |parts| ==> !IsBlank(parts[i])
  }

  lemma {:induction false} NoneBlankSnoc(rest: seq<string>, s: string)
    requires NoneBlank(rest) && !IsBlank(s)
    ensures NoneBlank(rest + [s])
  {
    forall i | 0 <= i < |rest + [s]|
      ensures !IsBlank((rest + [s])[i])
    {
      if i < |rest| {
        assert (rest + [s])[i] == rest[i];
      }
    }
  }

  /** The pieces are all blank exactly when the last one and all before it are. */
  lemma {:induction false} AllBlankSnoc(parts: seq<string>)
    requires parts != []
    ensures AllBlank(parts) <==> AllBlank(parts[..|parts| - 1]) && IsBlank(parts[|parts| - 1])
  {
    var n := |parts| - 1;
    if AllBlank(parts[..n]) && IsBlank(parts[n]) {
      forall i | 0 <= i < |parts|
        ensures IsBlank(parts[i])
      {
        if i < n { assert parts[i] == parts[..n][i]; }
      }
    }
    if AllBlank(parts) {
      forall i | 0 <= i < n
        ensures IsBlank(parts[..n][i])
      {
        assert parts[..n][i] == parts[i];
      }
    }
  }

  /** The positions of the pieces that are not blank, in increasing order:
      each listed piece is not blank, and every piece that is not blank is listed. */
  function NonBlankIndices(parts: seq<string>): (idx: seq<nat>)
    ensures |idx| <= |parts|
    ensures forall k :: 0 <= k < |idx| ==> idx[k] < |parts| && !IsBlank(parts[idx[k]])
    ensures forall k, l :: 0 <= k < l < |idx| ==> idx[k] < idx[l]
    ensures forall i :: 0 <= i < |parts| && !IsBlank(parts[i]) ==> i in idx
    decreases |parts|
  {
    if parts == [] then []
    else
      var n := |parts| - 1;
      var idx := NonBlankIndices(parts[..n]);
      assert forall k :: 0 <= k < |idx| ==> parts[idx[k]] == parts[..n][idx[k]];
      assert forall i :: 0 <= i < n ==> parts[i] == parts[..n][i];
      if IsBlank(parts[n]) then idx else idx + [n]
  }

  /** The k-th item of `r` is the stripped piece at position `idx[k]`. */
  predicate StripsAt(r: seq<string>, parts: seq<string>, idx: seq<nat>) {
    |r| == |idx| && forall k :: 0 <= k < |r| ==> idx[k] < |parts| && r[k] == Strip(parts[idx[k]])
  }

  /** Positions into a prefix of the pieces are positions into all of them. */
  lemma {:induction false} StripsAtPrefix(r: seq<string>, parts: seq<string>, n: nat, idx: seq<nat>)
    requires n <= |parts| && StripsAt(r, parts[..n], idx)
    ensures StripsAt(r, parts, idx)
  {
    forall k | 0 <= k < |r|
      ensures idx[k] < |parts| && r[k] == Strip(parts[idx[k]])
    {
      assert parts[..n][idx[k]] == parts[idx[k]];
    }
  }

  /** One more stripped piece, at position `n`. */
  lemma {:induction false} StripsAtSnoc(r: seq<string>, parts: seq<string>, idx: seq<nat>, n: nat)
    requires n < |parts| && StripsAt(r, parts, idx)
    ensures StripsAt(r + [Strip(parts[n])], parts, idx + [n])
  {
    var r', idx' := r + [Strip(parts[n])], idx + [n];
    forall k | 0 <= k < |r'|
      ensures idx'[k] < |parts| && r'[k] == Strip(parts[idx'[k]])
    {
      if k < |r| {
        assert r'[k] == r[k] && idx'[k] == idx[k];
      }
    }
  }

  /** `[s.strip() for s in parts if s.strip()]`: the k-th item is the stripped
      piece at the k-th position that `NonBlankIndices` lists. No item is
      blank, and there are none exactly when every piece is blank. */
  function StripNonBlank(parts: seq<string>): (r: seq<string>)
    ensures StripsAt(r, parts, NonBlankIndices(parts))
    ensures NoneBlank(r)
    ensures r == [] <==> AllBlank(parts)
    decreases |parts|
  {
    if parts == [] then []
    else
      var n := |parts| - 1;
      var s := Strip(parts[n]);
      var rest := StripNonBlank(parts[..n]);
      AllBlankSnoc(parts);
      StripsAtPrefix(rest, parts, n, NonBlankIndices(parts[..n]));
      if s == [] then rest
      else
        assert !IsWhitespace(s[0]);
        NoneBlankSnoc(rest, s);
        StripsAtSnoc(rest, parts, NonBlankIndices(parts[..n]), n);
        rest + [s]
  }

  /** The sentences of a summary: the k-th is the k-th piece of the split on
      `.` that is not blank, stripped. None is blank; there are none exactly
      when every piece is blank. */
  function Sentences(summary: string): (r: seq<string>)
    ensures StripsAt(r, Split(summary, '.'), NonBlankIndices(Split(summary, '.')))
    ensures NoneBlank(r)
    ensures r == [] <==> AllBlank(Split(summary, '.'))
  {
    StripNonBlank(Split(summary, '.'))
  }

  /** `[len(s.split()) for s in sentences]`. */
  function WordCounts(sentences: seq<string>): (r: seq<int>)
    ensures |r| == |sentences|
    ensures forall i :: 0 <= i < |r| ==> r[i] == |Words(sentences[i])|
    decreases |sentences|
  {
    if sentences == [] then []
    else
      var rest := WordCounts(sentences[1..]);
      [|Words(sentences[0])|] + rest
  }

  /** Each count is the number of positions in its sentence where a word starts. */
  lemma {:induction false} WordCountsAreWordStarts(sentences: seq<string>)
    ensures forall i :: 0 <= i < |sentences| ==> WordCounts(sentences)[i] == WordStarts(sentences[i])
  {
    forall i | 0 <= i < |sentences|
      ensures WordCounts(sentences)[i] == WordStarts(sentences[i])
    {
      WordsCount(sentences[i]);
    }
  }

  /** A sentence that is not blank has at least one word. */
  lemma {:induction false} WordCountsPositive(sentences: seq<string>)
    requires NoneBlank(sentences)
    ensures forall i :: 0 <= i < |sentences| ==> WordCounts(sentences)[i] >= 1
  {
    forall i | 0 <= i < |sentences|
      ensures WordCounts(sentences)[i] >= 1
    {
      assert !IsBlank(sentences[i]);
    }
  }

  // ---------------------------------------------------------------------------
  // Population variance, exactly

  function Sum(xs: seq<int>): int
    decreases |xs|
  {
    if xs == [] then 0 else xs[0] + Sum(xs[1..])
  }

  function SumOfSquares(xs: seq<int>): int
    decreases |xs|
  {
    if xs == [] then 0 else xs[0] * xs[0] + SumOfSquares(xs[1..])
  }

  /** n * sum(x^2) - (sum x)^2, which is n^2 times the population variance. */
  function VarianceNumerator(xs: seq<int>): int {
    |xs| * SumOfSquares(xs) - Sum(xs) * Sum(xs)
  }

  function Mean(xs: seq<int>): real
    requires |xs| > 0
  {
    Sum(xs) as real / |xs| as real
  }

  /** The sum of the squared distances of the values from `m`. */
  function SquaredDeviations(xs: seq<int>, m: real): real
    decreases |xs|
  {
    if xs == [] then 0.0
    else
      var d := xs[0] as real - m;
      d * d + SquaredDeviations(xs[1..], m)
  }

  /** A sum of squares is never negative. */
  lemma {:induction false} SquaredDeviationsNonNegative(xs: seq<int>, m: real)
    ensures SquaredDeviations(xs, m) >= 0.0
    decreases |xs|
  {
    if xs != [] {
      SquaredDeviationsNonNegative(xs[1..], m);
      var d := xs[0] as real - m;
      assert d * d >= 0.0;
    }
  }

  /** numpy's `var`: the mean squared deviation from the mean. */
  function PopulationVariance(xs: seq<int>): real
    requires |xs| > 0
  {
    SquaredDeviations(xs, Mean(xs)) / |xs| as real
  }

  /** `(a * b) as real` is the product of the two casts. */
  lemma {:induction false} CastProduct(a: int, b: int)
    ensures (a * b) as real == a as real * b as real
  {
  }

  /** (x - m)^2 = x^2 - 2 m x + m^2. */
  lemma {:induction false} SquareOfDifference(x: real, m: real)
    ensures (x - m) * (x - m) == x * x - 2.0 * (m * x) + m * m
  {
  }

  /** Multiplication distributes over a sum `bc` of `b` and `c`, on either side. */
  lemma {:induction false} Distribute(a: real, b: real, c: real, bc: real)
    requires bc == b + c
    ensures a * bc == a * b + a * c && bc * a == b * a + c * a
  {
  }

  /** `Sum` and `SumOfSquares` computed on reals, so that the expansion below
      needs no integer products. */
  function RealSum(xs: seq<int>): real
    decreases |xs|
  {
    if xs == [] then 0.0 else xs[0] as real + RealSum(xs[1..])
  }

  function RealSumOfSquares(xs: seq<int>): real
    decreases |xs|
  {
    if xs == [] then 0.0 else (xs[0] as real) * (xs[0] as real) + RealSumOfSquares(xs[1..])
  }

  lemma {:induction false} RealSums(xs: seq<int>)
    ensures RealSum(xs) == Sum(xs) as real
    ensures RealSumOfSquares(xs) == SumOfSquares(xs) as real
    decreases |xs|
  {
    if xs != [] {
      RealSums(xs[1..]);
      CastProduct(xs[0], xs[0]);
    }
  }

  /** The expansion for `xs` follows from the expansion for its tail. */
  lemma {:induction false} ExpansionOfCons(xs: seq<int>, m: real)
    requires xs != []
    requires SquaredDeviations(xs[1..], m) ==
      RealSumOfSquares(xs[1..]) - 2.0 * (m * RealSum(xs[1..])) + (|xs[1..]| as real) * (m * m)
    ensures SquaredDeviations(xs, m) == RealSumOfSquares(xs) - 2.0 * (m * RealSum(xs)) + (|xs| as real) * (m * m)
  {
    var x, rest := xs[0] as real, xs[1..];
    SquareOfDifference(x, m);
    Distribute(m, x, RealSum(rest), RealSum(xs));
    Distribute(m * m, 1.0, |rest| as real, |xs| as real);
  }

  /** sum (x - m)^2 = sum x^2 - 2 m sum x + n m^2. */
  lemma {:induction false} SquaredDeviationsExpand(xs: seq<int>, m: real)
    ensures SquaredDeviations(xs, m) == RealSumOfSquares(xs) - 2.0 * (m * RealSum(xs)) + (|xs| as real) * (m * m)
    decreases |xs|
  {
    if xs != [] {
      SquaredDeviationsExpand(xs[1..], m);
      ExpansionOfCons(xs, m);
    }
  }

  /** With m the mean s / n: (q - 2 m s + n m^2) / n = (n q - s^2) / n^2, and it is not negative. */
  lemma {:induction false} VarianceAlgebra(n: real, s: real, q: real, m: real, dev: real, v: real, num: real, nn: real)
    requires n > 0.0 && nn > 0.0 && m == s / n && dev == q - 2.0 * (m * s) + n * (m * m) && dev >= 0.0
    requires v == dev / n && num == n * q - s * s && nn == n * n
    ensures v == num / nn && num >= 0.0
  {
    assert m * n == s;
    assert n * m * m == s * m;
    assert dev == q - s * m;
    assert v * n == dev;
    assert dev * n == num;
    assert v * nn == num;
  }

  lemma {:induction false} NumeratorAsReal(xs: seq<int>)
    ensures VarianceNumerator(xs) as real ==
      (|xs| as real) * (SumOfSquares(xs) as real) - (Sum(xs) as real) * (Sum(xs) as real)
  {
    CastProduct(|xs|, SumOfSquares(xs));
    CastProduct(Sum(xs), Sum(xs));
  }

  lemma {:induction false} SquareOfLength(xs: seq<int>)
    requires |xs| > 0
    ensures (|xs| * |xs|) as real == (|xs| as real) * (|xs| as real) && |xs| * |xs| > 0
  {
    CastProduct(|xs|, |xs|);
    assert |xs| * |xs| >= |xs|;
  }

  /** The integer formula is the variance, scaled by n^2; in particular it is never negative. */
  lemma {:induction false} VarianceFromSums(xs: seq<int>)
    requires |xs| > 0
    ensures PopulationVariance(xs) == VarianceNumerator(xs) as real / (|xs| * |xs|) as real
    ensures VarianceNumerator(xs) >= 0
  {
    var m := Mean(xs);
    SquaredDeviationsExpand(xs, m);
    RealSums(xs);
    NumeratorAsReal(xs);
    SquareOfLength(xs);
    SquaredDeviationsNonNegative(xs, m);
    VarianceAlgebra(|xs| as real, Sum(xs) as real, SumOfSquares(xs) as real, m, SquaredDeviations(xs, m),
                    PopulationVariance(xs), VarianceNumerator(xs) as real, (|xs| * |xs|) as real);
  }

  /** Integer division by a positive number is the floor of the real quotient. */
  lemma {:induction false} FloorOfQuotient(a: int, b: int)
    requires b > 0
    ensures (a as real / b as real).Floor == a / b
  {
    var q, r := a / b, a % b;
    assert a == q * b + r && 0 <= r < b;
    CastProduct(q, b);
    assert a as real == q as real * b as real + r as real;
    assert a as real / b as real == q as real + r as real / b as real;
    assert 0.0 <= r as real / b as real < 1.0;
  }

  /** A sequence of equal values has variance zero. */
  lemma {:induction false} UniformVariance(xs: seq<int>, c: int)
    requires forall i :: 0 <= i < |xs| ==> xs[i] == c
    ensures Sum(xs) == |xs| * c && SumOfSquares(xs) == |xs| * c * c
    ensures VarianceNumerator(xs) == 0
    decreases |xs|
  {
    if xs != [] {
      UniformVariance(xs[1..], c);
    }
    var n := |xs|;
    assert n * (n * c * c) == (n * c) * (n * c);
  }

  // ---------------------------------------------------------------------------
  // score_creativity

  /** `min(5, max(3, int(3 + np.var(lengths) // 5)))`, exactly. */
  function CreativityOfCounts(lengths: seq<int>): (r: int)
    requires |lengths| > 0
    ensures 3 <= r <= 5
  {
    SquareOfLength(lengths);
    Min(5, Max(3, 3 + VarianceNumerator(lengths) / (5 * (|lengths| * |lengths|))))
  }

  /** The creativity score of the sentences' word counts, or 3 when there is no sentence. */
  function ScoreCreativity(summary: string): (r: int)
    ensures 3 <= r <= 5
    ensures Sentences(summary) == [] ==> r == 3
  {
    var sentences := Sentences(summary);
    if sentences == [] then 3 else CreativityOfCounts(WordCounts(sentences))
  }

  lemma {:induction false} ScoreCreativityUnfold(summary: string)
    requires Sentences(summary) != []
    ensures |WordCounts(Sentences(summary))| > 0
    ensures ScoreCreativity(summary) == CreativityOfCounts(WordCounts(Sentences(summary)))
  {
  }

  /** Dividing the quotient num / nn by 5. */
  lemma {:induction false} FifthOfQuotient(v: real, num: real, nn: real, d: real)
    requires nn > 0.0 && v == num / nn && d == 5.0 * nn
    ensures v / 5.0 == num / d
  {
  }

  /** 3 plus the floor of a fifth of a variance, clamped to [3, 5]. */
  function ClampedFifth(v: real): int {
    Min(5, Max(3, 3 + (v / 5.0).Floor))
  }

  /** On word counts: 3 plus the floor of a fifth of the variance, clamped
      to [3, 5]; 3 exactly when the variance is below 5. */
  lemma {:induction false} CreativityOfCountsIsClampedVariance(lengths: seq<int>)
    requires |lengths| > 0
    ensures var r := CreativityOfCounts(lengths);
      && r == ClampedFifth(PopulationVariance(lengths))
      && (r == 3 <==> PopulationVariance(lengths) < 5.0)
  {
    var nn := |lengths| * |lengths|;
    var num := VarianceNumerator(lengths);
    VarianceFromSums(lengths);
    SquareOfLength(lengths);
    CastProduct(5, nn);
    FifthOfQuotient(PopulationVariance(lengths), num as real, nn as real, (5 * nn) as real);
    FloorOfQuotient(num, 5 * nn);
    assert num / (5 * nn) >= 0;
  }

  /** The creativity score is 3 plus the floor of a fifth of the population
      variance of the sentences' word counts, clamped to [3, 5]; it is 3
      exactly when that variance is below 5. */
  lemma {:induction false} CreativityFromVariance(summary: string)
    requires Sentences(summary) != []
    ensures var lengths := WordCounts(Sentences(summary));
      var r := ScoreCreativity(summary);
      && r == ClampedFifth(PopulationVariance(lengths))
      && (r == 3 <==> PopulationVariance(lengths) < 5.0)
  {
    ScoreCreativityUnfold(summary);
    CreativityOfCountsIsClampedVariance(WordCounts(Sentences(summary)));
  }

  /** Equal word counts have variance 0 and score 3. */
  lemma {:induction false} CreativityOfUniformCounts(lengths: seq<int>)
    requires |lengths| > 0
    requires forall i :: 0 <= i < |lengths| ==> lengths[i] == lengths[0]
    ensures CreativityOfCounts(lengths) == 3
  {
    UniformVariance(lengths, lengths[0]);
    SquareOfLength(lengths);
    var d := 5 * (|lengths| * |lengths|);
    assert d > 0;
    assert 0 / d == 0;
  }

  /** A summary of dots alone, or the empty one, has no sentence and scores 3. */
  lemma {:induction false} CreativityOfDotsOnly()
    ensures ScoreCreativity("") == 3 && ScoreCreativity("...") == 3
  {
    assert Split("", '.') == [[]];
    assert Split("...", '.') == [[], [], [], []] by {
      assert "..."[1..] == ".." && ".."[1..] == "." && "."[1..] == "";
    }
    assert AllBlank([[], [], [], []]);
  }

  /** Sentences that all have the same number of words score 3. */
  lemma {:induction false} CreativityOfUniformSentences(summary: string)
    requires var lengths := WordCounts(Sentences(summary));
      forall i :: 0 <= i < |lengths| ==> lengths[i] == lengths[0]
    ensures ScoreCreativity(summary) == 3
  {
    if Sentences(summary) != [] {
      ScoreCreativityUnfold(summary);
      CreativityOfUniformCounts(WordCounts(Sentences(summary)));
    }
  }

  // ---------------------------------------------------------------------------
  // rubric_evaluation and evaluate

  /** The rubric dictionary: its keys are exactly these four. The final score
      is kept exactly, in hundredths. */
  datatype Rubric = Rubric(factual: int, creativity: int, completeness: int, finalScore: int)

  /** `0.4 * factual + 0.3 * creativity + 0.3 * completeness`, in hundredths. */
  function FinalScore(factual: int, creativity: int, completeness: int): (r: int)
    ensures r as real == 100.0 * (0.4 * factual as real + 0.3 * creativity as real + 0.3 * completeness as real)
  {
    40 * factual + 30 * creativity + 30 * completeness
  }

  /** Each sub-score is the corresponding scorer's result on the same inputs;
      the final score is their weighted sum, between 3.00 and 5.00, at the top
      only when all three are 5 and at the bottom only when all three are 3. */
  function RubricEvaluation(summary: string, loc: Location): (r: Rubric)
    ensures r.factual == ScoreFactual(summary, loc)
    ensures r.creativity == ScoreCreativity(summary)
    ensures r.completeness == ScoreCompleteness(summary, loc)
    ensures r.finalScore as real ==
      100.0 * (0.4 * r.factual as real + 0.3 * r.creativity as real + 0.3 * r.completeness as real)
    ensures 300 <= r.finalScore <= 500
    ensures r.finalScore == 500 <==> r.factual == 5 && r.creativity == 5 && r.completeness == 5
    ensures r.finalScore == 300 <==> r.factual == 3 && r.creativity == 3 && r.completeness == 3
  {
    var f := ScoreFactual(summary, loc);
    var c := ScoreCreativity(summary);
    var p := ScoreCompleteness(summary, loc);
    Rubric(f, c, p, FinalScore(f, c, p))
  }

  /** The embedding-based similarity and how many texts were embedded for it. */
  datatype Similarity = Similarity(value: real, embeddingCalls: nat)

  /** `semantic_similarity`: 0 without any resident, and no embedding call;
      otherwise the summary and the residents' details are embedded (two
      calls) and compared by `similarity`, which stands for the embedding
      service and the cosine of the two vectors. */
  function SemanticSimilarity<R>(summary: string, residents: seq<R>, similarity: (string, seq<R>) -> real): (r: Similarity)
    ensures residents == [] <==> r.embeddingCalls == 0
    ensures residents == [] ==> r.value == 0.0
    ensures residents != [] ==> r.embeddingCalls == 2 && r.value == similarity(summary, residents)
  {
    if residents == [] then Similarity(0.0, 0)
    else Similarity(similarity(summary, residents), 2)
  }

  /** The rubric with the semantic similarity added as a fifth entry. */
  datatype Evaluation = Evaluation(rubric: Rubric, semanticSimilarity: real, embeddingCalls: nat)

  /** `evaluate`: the rubric entries are those of `RubricEvaluation`; with no
      resident context (missing or empty) the similarity is 0 and nothing is
      embedded. */
  function Evaluate<R>(summary: string, loc: Location, residents: Option<seq<R>>,
                       similarity: (string, seq<R>) -> real): (r: Evaluation)
    ensures r.rubric == RubricEvaluation(summary, loc)
    ensures residents == None || residents == Some([]) ==> r.semanticSimilarity == 0.0 && r.embeddingCalls == 0
    ensures residents.Some? && residents.value != [] ==>
      r.semanticSimilarity == similarity(summary, residents.value) && r.embeddingCalls == 2
  {
    var rubric := RubricEvaluation(summary, loc);
    var sim := SemanticSimilarity(summary, residents.GetOr([]), similarity);
    Evaluation(rubric, sim.value, sim.embeddingCalls)
  }

  // ---------------------------------------------------------------------------
  // A worked scenario

  /** The location of the worked example and a summary that names it and one resident. */
  const EarthC137 := Location("Earth (C-137)", Some("Planet"), Some("Dimension C-137"), Some(["Rick", "Morty"]))
  const EarthSummary := "Earth (C-137)" + " is home to Rick" + " and his grandson."

  /** The name and a resident are quoted: full factual marks. */
  lemma {:induction false} EarthFactual()
    ensures ScoreFactual(EarthSummary, EarthC137) == 5
  {
    assert EarthC137.name <= EarthSummary;
    assert "Rick" <= EarthSummary[25..];
    SubstringAt("Rick", EarthSummary, 25);
    assert EarthC137.residents.value[0] == "Rick";
  }

  /** The first letters of "Planet" and "Dimension C-137" do not occur in the summary. */
  lemma {:induction false} FirstCharsAbsent(c: char)
    requires c == 'P' || c == 'D'
    ensures c !in EarthSummary
  {
    assert c !in "Earth (C-137)" && c !in " is home to Rick" && c !in " and his grandson.";
  }

  /** Neither the type nor the dimension is quoted: completeness stays at its base. */
  lemma {:induction false} EarthCompleteness()
    ensures ScoreCompleteness(EarthSummary, EarthC137) == 3
  {
    FirstCharsAbsent('P');
    FirstCharsAbsent('D');
    NotSubstringWithoutFirstChar("Planet", EarthSummary);
    NotSubstringWithoutFirstChar("Dimension C-137", EarthSummary);
  }
}
