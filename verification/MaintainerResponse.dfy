/** Response statistics: robust percentiles over bounded samples and the five-level response score drawn from them.
    Durations are integers in seconds. */
module MaintainerResponse {
  import opened IssueModel
  import opened Sorting

  const HOUR := 3_600
  const MAXIMUM_METRIC_DURATION := 180 * DAY

  datatype Confidence = High | Medium | Low

  datatype DurationAggregate = DurationAggregate(
    available: bool, median: int, percentile90: int, sampleSize: int, windowDays: int, truncated: bool,
    confidence: Confidence)

  function Clamp(value: int, minimum: int, maximum: int): int {
    var raised := if value < minimum then minimum else value;
    if raised > maximum then maximum else raised
  }

  function SampleConfidence(size: int, truncated: bool): Confidence {
    if size >= 10 && !truncated then High else if size >= 3 then Medium else Low
  }

  // ----- percentiles -----

  function Percentile(sorted: seq<int>, percentage: nat): int {
    if sorted == [] then 0
    else
      var index := (percentage * |sorted| + 99) / 100;
      sorted[Clamp(index - 1, 0, |sorted| - 1)]
  }

  predicate ValidSample(d: int) {
    0 < d <= MAXIMUM_METRIC_DURATION
  }

  function Bounded(samples: seq<int>): seq<int> {
    if |samples| > MAXIMUM_METRIC_SAMPLES then samples[..MAXIMUM_METRIC_SAMPLES] else samples
  }

  function ValidSamples(samples: seq<int>): seq<int> {
    Filter(d => ValidSample(d), samples)
  }

  function ByDuration(): (int, int) -> int {
    (x: int, y: int) => Compare(x, y)
  }

  lemma ByDurationIsTotal()
    ensures TotalPreorder(ByDuration())
  {
    forall x, y ensures ByDuration()(x, y) < 0 <==> ByDuration()(y, x) > 0 {}
    forall x, y, z ensures Chains(ByDuration(), x, y, z) {}
  }

  function InOrder(samples: seq<int>): seq<int> {
    StableSort(ByDuration(), samples)
  }

  function Unavailable(windowDays: int, truncated: bool): DurationAggregate {
    DurationAggregate(false, 0, 0, 0, windowDays, truncated, Low)
  }

  function Summary(samples: seq<int>, windowDays: int, truncated: bool): DurationAggregate {
    var cut := truncated || |samples| > MAXIMUM_METRIC_SAMPLES;
    var sorted := InOrder(ValidSamples(Bounded(samples)));
    if sorted == [] then Unavailable(windowDays, cut)
    else
      DurationAggregate(
        true, Percentile(sorted, 50), Percentile(sorted, 90), |sorted|, windowDays, cut,
        SampleConfidence(|sorted|, cut))
  }

  /** The loop that keeps the valid samples. */
  method CollectValid(bounded: seq<int>) returns (valid: seq<int>)
    ensures valid == ValidSamples(bounded)
  {
    valid := [];
    for i := 0 to |bounded|
      invariant valid == ValidSamples(bounded[..i])
    {
      assert bounded[..i + 1] == bounded[..i] + [bounded[i]];
      FilterConcat(d => ValidSample(d), bounded[..i], [bounded[i]]);
      if bounded[i] <= 0 || bounded[i] > MAXIMUM_METRIC_DURATION { continue; }
      valid := valid + [bounded[i]];
    }
    assert bounded[..|bounded|] == bounded;
  }

  method SummarizeDurations(samples: seq<int>, windowDays: int, truncated: bool) returns (r: DurationAggregate)
    ensures r == Summary(samples, windowDays, truncated)
    ensures ConfidenceFits(r.confidence, |Usable(samples)|, r.truncated) && r.sampleSize == |Usable(samples)|
    ensures Usable(samples) != [] ==>
      LeastCovering(Usable(samples), 50, r.median) && LeastCovering(Usable(samples), 90, r.percentile90)
  {
    SummaryInFields(samples, windowDays, truncated);
    var bounded, cut := samples, truncated;
    if |bounded| > MAXIMUM_METRIC_SAMPLES {
      bounded := bounded[..MAXIMUM_METRIC_SAMPLES];
      cut := true;
    }
    var valid := CollectValid(bounded);
    SortMembers(ByDuration(), valid);
    if |valid| == 0 { return Unavailable(windowDays, cut); }
    valid := StableSort(ByDuration(), valid);
    return DurationAggregate(
        true, Percentile(valid, 50), Percentile(valid, 90), |valid|, windowDays, cut, SampleConfidence(|valid|, cut));
  }

  // ----- what a percentile is -----

  function CountAtMost(s: seq<int>, v: int): nat {
    if s == [] then 0 else (if s[0] <= v then 1 else 0) + CountAtMost(s[1..], v)
  }

  /** v is the least duration with at least p percent of the samples at or below it. */
  ghost predicate LeastCovering(s: seq<int>, p: nat, v: int) {
    && v in s
    && 100 * CountAtMost(s, v) >= p * |s|
    && forall w :: w < v ==> 100 * CountAtMost(s, w) < p * |s|
  }

  lemma {:induction false} CountOfInsert(x: int, s: seq<int>, v: int)
    ensures CountAtMost(Insert(ByDuration(), x, s), v) == CountAtMost([x] + s, v)
  {
    assert ([x] + s)[1..] == s;
    if s != [] && x > s[0] {
      var rest := Insert(ByDuration(), x, s[1..]);
      CountOfInsert(x, s[1..], v);
      assert ([s[0]] + rest)[1..] == rest;
      assert ([x] + s[1..])[1..] == s[1..];
    }
  }

  lemma {:induction false} CountOfSorted(s: seq<int>, v: int)
    ensures CountAtMost(InOrder(s), v) == CountAtMost(s, v)
  {
    if s != [] {
      CountOfSorted(s[1..], v);
      CountOfInsert(s[0], InOrder(s[1..]), v);
      assert ([s[0]] + InOrder(s[1..]))[1..] == InOrder(s[1..]);
    }
  }

  lemma {:induction false} CountAbove(s: seq<int>, v: int, k: nat)
    requires k <= |s| && forall i :: 0 <= i < k ==> s[i] <= v
    ensures CountAtMost(s, v) >= k
  {
    if s != [] && k > 0 { CountAbove(s[1..], v, k - 1); }
  }

  lemma {:induction false} CountBelow(s: seq<int>, v: int, k: nat)
    requires k <= |s| && forall i :: k <= i < |s| ==> s[i] > v
    ensures CountAtMost(s, v) <= k
  {
    if s != [] {
      if k > 0 { CountBelow(s[1..], v, k - 1); } else { CountBelow(s[1..], v, 0); }
    }
  }

  /** The index of a percentile lies in the list: the clamp never engages. */
  lemma IndexInRange(n: nat, p: nat)
    requires n > 0 && 1 <= p <= 100
    ensures var index := (p * n + 99) / 100;
      1 <= index <= n && Clamp(index - 1, 0, n - 1) == index - 1
      && 100 * index >= p * n && 100 * (index - 1) < p * n
  {
    assert 1 <= p * n <= 100 * n;
  }

  lemma SortedSamples(s: seq<int>)
    ensures |InOrder(s)| == |s|
    ensures forall v :: v in InOrder(s) ==> v in s
    ensures forall i, j :: 0 <= i < j < |s| ==> InOrder(s)[i] <= InOrder(s)[j]
  {
    var sorted := InOrder(s);
    SortMembers(ByDuration(), s);
    assert |multiset(sorted)| == |multiset(s)|;
    forall v | v in sorted ensures v in s { assert v in multiset(sorted); }
    ByDurationIsTotal();
    SortSorted(ByDuration(), s);
    forall i, j | 0 <= i < j < |s| ensures sorted[i] <= sorted[j] { assert ByDuration()(sorted[i], sorted[j]) <= 0; }
  }

  lemma CoveringAtIndex(sorted: seq<int>, index: nat)
    requires 1 <= index <= |sorted| && forall i, j :: 0 <= i < j < |sorted| ==> sorted[i] <= sorted[j]
    ensures CountAtMost(sorted, sorted[index - 1]) >= index
    ensures forall w :: w < sorted[index - 1] ==> CountAtMost(sorted, w) <= index - 1
  {
    var v := sorted[index - 1];
    CountAbove(sorted, v, index);
    forall w | w < v ensures CountAtMost(sorted, w) <= index - 1 { CountBelow(sorted, w, index - 1); }
  }

  /** The nearest-rank percentile of any sample, sorted or not. */
  lemma PercentileIsLeastCovering(s: seq<int>, p: nat)
    requires s != [] && 1 <= p <= 100
    ensures LeastCovering(s, p, Percentile(InOrder(s), p))
  {
    var sorted := InOrder(s);
    SortedSamples(s);
    IndexInRange(|s|, p);
    var index := (p * |s| + 99) / 100;
    var v := sorted[index - 1];
    assert Percentile(sorted, p) == v;
    CoveringAtIndex(sorted, index);
    CountOfSorted(s, v);
    forall w | w < v ensures 100 * CountAtMost(s, w) < p * |s| {
      CountOfSorted(s, w);
    }
  }

  /** More samples at or below every bound, a percentile that is no later. */
  lemma CoveringIsMonotone(s: seq<int>, t: seq<int>, p: nat, v: int, w: int)
    requires LeastCovering(s, p, v) && LeastCovering(t, p, w) && |s| == |t|
    requires forall bound :: CountAtMost(t, bound) >= CountAtMost(s, bound)
    ensures w <= v
  {
    assert CountAtMost(t, v) >= CountAtMost(s, v);
  }

  /** The median never exceeds the 90th percentile. */
  lemma MedianAtMostPercentile90(samples: seq<int>, windowDays: int, truncated: bool)
    requires Summary(samples, windowDays, truncated).available
    ensures var r := Summary(samples, windowDays, truncated);
      && 0 < r.median <= r.percentile90 <= MAXIMUM_METRIC_DURATION
      && 1 <= r.sampleSize <= MAXIMUM_METRIC_SAMPLES
      && LeastCovering(ValidSamples(Bounded(samples)), 50, r.median)
      && LeastCovering(ValidSamples(Bounded(samples)), 90, r.percentile90)
  {
    var s := ValidSamples(Bounded(samples));
    SortedSamples(s);
    PercentileIsLeastCovering(s, 50);
    PercentileIsLeastCovering(s, 90);
    var r := Summary(samples, windowDays, truncated);
    assert !(100 * CountAtMost(s, r.percentile90) < 50 * |s|);
    ValidMember(Bounded(samples), r.median);
    ValidMember(Bounded(samples), r.percentile90);
    FilterIsShorter(Bounded(samples));
  }

  lemma {:induction false} ValidMember(s: seq<int>, v: int)
    ensures v in ValidSamples(s) ==> ValidSample(v)
  {
    if s != [] { ValidMember(s[1..], v); }
  }

  lemma {:induction false} FilterIsShorter(s: seq<int>)
    ensures |ValidSamples(s)| <= |s|
  {
    if s != [] { FilterIsShorter(s[1..]); }
  }

  // ----- shortening a sample -----

  lemma {:induction false} ShorterCounts(s: seq<int>, i: nat, d: int, v: int)
    requires i < |s| && ValidSample(s[i]) && 0 < d <= s[i]
    ensures |ValidSamples(s[i := d])| == |ValidSamples(s)|
    ensures CountAtMost(ValidSamples(s[i := d]), v) >= CountAtMost(ValidSamples(s), v)
  {
    if i == 0 {
      assert s[0 := d][1..] == s[1..];
      CountOfCons(s[0], ValidSamples(s[1..]), v);
      CountOfCons(d, ValidSamples(s[1..]), v);
    } else {
      ShorterCounts(s[1..], i - 1, d, v);
      assert s[i := d][1..] == s[1..][i - 1 := d];
      CountOfCons(s[0], ValidSamples(s[1..]), v);
      CountOfCons(s[0], ValidSamples(s[1..][i - 1 := d]), v);
    }
  }

  lemma CountOfCons(x: int, s: seq<int>, v: int)
    ensures CountAtMost([x] + s, v) == (if x <= v then 1 else 0) + CountAtMost(s, v)
    ensures CountAtMost([] + s, v) == CountAtMost(s, v)
  {
    assert ([x] + s)[1..] == s && [] + s == s;
  }

  /** Shortening a valid sample to another positive duration raises neither percentile and changes nothing else. */
  lemma ShorterSampleLowersPercentiles(samples: seq<int>, i: nat, d: int, windowDays: int, truncated: bool)
    requires i < |samples| && ValidSample(samples[i]) && 0 < d <= samples[i]
    ensures var before := Summary(samples, windowDays, truncated);
      var after := Summary(samples[i := d], windowDays, truncated);
      && after.median <= before.median && after.percentile90 <= before.percentile90
      && after == before.(median := after.median, percentile90 := after.percentile90)
  {
    var s, t := ValidSamples(Bounded(samples)), ValidSamples(Bounded(samples[i := d]));
    if i >= MAXIMUM_METRIC_SAMPLES {
      assert Bounded(samples[i := d]) == Bounded(samples);
    } else {
      assert Bounded(samples[i := d]) == Bounded(samples)[i := d];
      forall v ensures CountAtMost(t, v) >= CountAtMost(s, v) { ShorterCounts(Bounded(samples), i, d, v); }
      ShorterCounts(Bounded(samples), i, d, 0);
      SortedSamples(s);
      SortedSamples(t);
      if s != [] {
        PercentileIsLeastCovering(s, 50);
        PercentileIsLeastCovering(s, 90);
        PercentileIsLeastCovering(t, 50);
        PercentileIsLeastCovering(t, 90);
        CoveringIsMonotone(s, t, 50, Percentile(InOrder(s), 50), Percentile(InOrder(t), 50));
        CoveringIsMonotone(s, t, 90, Percentile(InOrder(s), 90), Percentile(InOrder(t), 90));
      }
    }
  }

  // ----- the response score -----

  datatype CountAggregate = CountAggregate(available: bool, value: int, sampleSize: int)

  /** The percentage of answered issues, absent when it was not measured. */
  datatype Coverage = Unmeasured | Measured(percentage: int)

  /** The normalised aggregates an assessment shows beside its level. */
  datatype Details = Details(
    coverage: Coverage, issueResponse: DurationAggregate, pullReview: DurationAggregate, mergeTime: DurationAggregate)

  datatype Assessment =
    | NoAssessment(windowDays: int, details: Details)
    | Assessment(
        level: int, responseLabel: string, confidence: Confidence, sampleSize: int, windowDays: int, details: Details)

  function ResponseLabel(level: int): string {
    match level
    case 5 => "Very responsive"
    case 4 => "Responsive"
    case 3 => "Moderate"
    case 2 => "Slow"
    case _ => "Very slow"
  }

  function ResponseLevel(duration: int): int {
    if duration <= 24 * HOUR then 5
    else if duration <= 72 * HOUR then 4
    else if duration <= 7 * 24 * HOUR then 3
    else if duration <= 14 * 24 * HOUR then 2
    else 1
  }

  function RoundedPercentage(numerator: nat, denominator: int): int {
    if denominator <= 0 then 0 else Clamp((numerator * 100 + denominator / 2) / denominator, 0, 100)
  }

  function ResponseCoverage(unanswered: CountAggregate): Coverage {
    if !unanswered.available || unanswered.sampleSize < 1 || !(0 <= unanswered.value <= unanswered.sampleSize)
    then Unmeasured
    else Measured(RoundedPercentage(unanswered.sampleSize - unanswered.value, unanswered.sampleSize))
  }

  function NormalizedAggregate(metric: DurationAggregate): DurationAggregate {
    if !metric.available || metric.sampleSize < 1 || metric.median <= 0
    then Unavailable(metric.windowDays, metric.truncated)
    else metric
  }

  function Max(a: int, b: int): int {
    if a < b then b else a
  }

  function CappedLevel(level: int, coverage: Coverage): int {
    if coverage.Unmeasured? then level
    else
      var cap := if coverage.percentage < 25 then 1
                 else if coverage.percentage < 50 then 2
                 else if coverage.percentage < 75 then 3
                 else 5;
      if level > cap then cap else level
  }

  /** Contribution of a metric to the weighted level, zero when it is unavailable. */
  function Weight(metric: DurationAggregate): int {
    if metric.available && metric.sampleSize >= 1 then ResponseLevel(metric.median) * metric.sampleSize else 0
  }

  function Size(metric: DurationAggregate): nat {
    if metric.available && metric.sampleSize >= 1 then metric.sampleSize else 0
  }

  function Window(metric: DurationAggregate): int {
    if Size(metric) > 0 then Max(0, metric.windowDays) else 0
  }

  function Level(issue: DurationAggregate, review: DurationAggregate, coverage: Coverage): int
    requires Size(issue) + Size(review) > 0
  {
    CappedLevel(Clamp((Weight(issue) + Weight(review)) / (Size(issue) + Size(review)), 1, 5), coverage)
  }

  /** The loop over the two response metrics. */
  method Weigh(issue: DurationAggregate, review: DurationAggregate)
    returns (weightedLevel: int, sampleSize: int, windowDays: int, truncated: bool)
    ensures weightedLevel == Weight(issue) + Weight(review)
    ensures sampleSize == Size(issue) + Size(review)
    ensures windowDays == Max(Window(issue), Window(review))
    ensures truncated <==> (Size(issue) > 0 && issue.truncated) || (Size(review) > 0 && review.truncated)
  {
    weightedLevel, sampleSize, windowDays, truncated := 0, 0, 0, false;
    var metrics := [issue, review];
    for i := 0 to |metrics|
      invariant weightedLevel == (if i > 0 then Weight(issue) else 0) + if i > 1 then Weight(review) else 0
      invariant sampleSize == (if i > 0 then Size(issue) else 0) + if i > 1 then Size(review) else 0
      invariant windowDays == Max(if i > 0 then Window(issue) else 0, if i > 1 then Window(review) else 0)
      invariant truncated <==>
        || (i > 0 && Size(issue) > 0 && issue.truncated) || (i > 1 && Size(review) > 0 && review.truncated)
    {
      var metric := metrics[i];
      if !metric.available || metric.sampleSize < 1 { continue; }
      weightedLevel := weightedLevel + ResponseLevel(metric.median) * metric.sampleSize;
      sampleSize := sampleSize + metric.sampleSize;
      windowDays := Max(windowDays, metric.windowDays);
      truncated := truncated || metric.truncated;
    }
  }

  method AssessMaintainerResponse(
    issueResponse: DurationAggregate, pullReview: DurationAggregate, mergeTime: DurationAggregate,
    unanswered: CountAggregate)
    returns (r: Assessment)
    ensures var issue, review := NormalizedAggregate(issueResponse), NormalizedAggregate(pullReview);
      && (r.NoAssessment? <==> Size(issue) + Size(review) == 0)
      && r.windowDays == (if r.NoAssessment? then Max(0, mergeTime.windowDays) else Max(Window(issue), Window(review)))
      && r.details == Details(ResponseCoverage(unanswered), issue, review, NormalizedAggregate(mergeTime))
      && (r.Assessment? ==>
            && r.sampleSize == Size(issue) + Size(review)
            && r.level == Level(issue, review, r.details.coverage)
            && r.responseLabel == ResponseLabel(r.level)
            && r.confidence == SampleConfidence(
                 r.sampleSize, (Size(issue) > 0 && issue.truncated) || (Size(review) > 0 && review.truncated)))
    ensures r.Assessment? <==> Votes(issueResponse) + Votes(pullReview) > 0
    ensures r.Assessment? ==>
      && r.sampleSize == Votes(issueResponse) + Votes(pullReview)
      && LabelFits(r.level, r.responseLabel)
      && ConfidenceFits(r.confidence, r.sampleSize,
                        || (Counts(issueResponse) && issueResponse.truncated)
                        || (Counts(pullReview) && pullReview.truncated))
      && IsCappedAverage(r.level, Score(issueResponse) + Score(pullReview), r.sampleSize, Cap(unanswered))
      && WindowFits(r.windowDays, issueResponse, pullReview)
    ensures r.NoAssessment? ==> r.windowDays == if mergeTime.windowDays > 0 then mergeTime.windowDays else 0
    ensures CoverageFits(r.details.coverage, unanswered)
    ensures Shows(r.details.issueResponse, issueResponse) && Shows(r.details.pullReview, pullReview)
    ensures Shows(r.details.mergeTime, mergeTime)
  {
    CoverageOfCounts(unanswered);
    PointsAgree(issueResponse);
    PointsAgree(pullReview);
    if Votes(issueResponse) + Votes(pullReview) > 0 { LevelInFields(issueResponse, pullReview, unanswered); }
    var issue, review := NormalizedAggregate(issueResponse), NormalizedAggregate(pullReview);
    var merge := NormalizedAggregate(mergeTime);
    var coverage := ResponseCoverage(unanswered);
    var details := Details(coverage, issue, review, merge);
    var weightedLevel, sampleSize, windowDays, truncated := Weigh(issue, review);
    if sampleSize == 0 { return NoAssessment(Max(windowDays, merge.windowDays), details); }
    var level := CappedLevel(Clamp(weightedLevel / sampleSize, 1, 5), coverage);
    return Assessment(
        level, ResponseLabel(level), SampleConfidence(sampleSize, truncated), sampleSize, windowDays, details);
  }

  lemma ProductMonotone(n: int, x: int, y: int)
    requires n > 0 && x <= y
    ensures n * x <= n * y
  {
  }

  lemma QuotientBound(a: int, n: int, k: int)
    requires n > 0
    ensures k <= a / n <==> n * k <= a
  {
    var q := a / n;
    assert a == n * q + a % n;
    if k <= q {
      ProductMonotone(n, k, q);
    } else {
      ProductMonotone(n, q + 1, k);
      assert n * (q + 1) == n * q + n;
    }
  }

  lemma QuotientMonotone(a: int, b: int, n: int)
    requires a <= b && n > 0
    ensures a / n <= b / n
  {
    QuotientBound(a, n, a / n);
    QuotientBound(b, n, a / n);
  }

  lemma WeightBounds(metric: DurationAggregate)
    ensures Size(metric) <= Weight(metric) <= 5 * Size(metric)
  {
  }

  /** The weighted level is a level already: the clamp never engages, and an assessed level lies between 1 and 5. */
  lemma LevelInRange(issue: DurationAggregate, review: DurationAggregate, coverage: Coverage)
    requires Size(issue) + Size(review) > 0
    ensures 1 <= (Weight(issue) + Weight(review)) / (Size(issue) + Size(review)) <= 5
    ensures 1 <= Level(issue, review, coverage) <= 5
  {
    var n := Size(issue) + Size(review);
    WeightBounds(issue);
    WeightBounds(review);
    QuotientBound(Weight(issue) + Weight(review), n, 1);
    QuotientBound(Weight(issue) + Weight(review), n, 6);
  }

  /** A faster aggregate over as many samples. */
  predicate NoSlower(faster: DurationAggregate, metric: DurationAggregate) {
    Size(faster) == Size(metric) && (Size(metric) > 0 ==> 0 < faster.median <= metric.median)
  }

  lemma FasterNeverLowersLevel(
    issue: DurationAggregate, review: DurationAggregate,
    fasterIssue: DurationAggregate, fasterReview: DurationAggregate, coverage: Coverage)
    requires NoSlower(fasterIssue, issue) && NoSlower(fasterReview, review) && Size(issue) + Size(review) > 0
    ensures Level(fasterIssue, fasterReview, coverage) >= Level(issue, review, coverage)
  {
    FasterWeighsMore(fasterIssue, issue);
    FasterWeighsMore(fasterReview, review);
    QuotientMonotone(
      Weight(issue) + Weight(review), Weight(fasterIssue) + Weight(fasterReview), Size(issue) + Size(review));
  }

  lemma FasterWeighsMore(faster: DurationAggregate, metric: DurationAggregate)
    requires NoSlower(faster, metric)
    ensures Weight(faster) >= Weight(metric)
  {
    if Size(metric) > 0 {
      assert ResponseLevel(faster.median) >= ResponseLevel(metric.median);
    }
  }

  /** Answering one sampled issue faster never lowers the response level. */
  lemma ShorterSampleNeverLowersLevel(
    samples: seq<int>, i: nat, d: int, windowDays: int, truncated: bool, review: DurationAggregate, coverage: Coverage)
    requires i < |samples| && ValidSample(samples[i]) && 0 < d <= samples[i]
    ensures var before := NormalizedAggregate(Summary(samples, windowDays, truncated));
      var after := NormalizedAggregate(Summary(samples[i := d], windowDays, truncated));
      && Size(after) == Size(before)
      && (Size(before) + Size(review) > 0 ==> Level(after, review, coverage) >= Level(before, review, coverage))
      && (Size(before) + Size(review) > 0 ==> Level(review, after, coverage) >= Level(review, before, coverage))
  {
    var before, after := Summary(samples, windowDays, truncated), Summary(samples[i := d], windowDays, truncated);
    ShorterSampleLowersPercentiles(samples, i, d, windowDays, truncated);
    if before.available {
      MedianAtMostPercentile90(samples, windowDays, truncated);
      MedianAtMostPercentile90(samples[i := d], windowDays, truncated);
    }
    if Size(before) + Size(review) > 0 {
      ReviewIsNoSlower(NormalizedAggregate(after), NormalizedAggregate(before), review, coverage);
    }
  }

  lemma ReviewIsNoSlower(
    after: DurationAggregate, before: DurationAggregate, review: DurationAggregate, coverage: Coverage)
    requires NoSlower(after, before) && Size(before) + Size(review) > 0
    ensures Level(after, review, coverage) >= Level(before, review, coverage)
    ensures Level(review, after, coverage) >= Level(review, before, coverage)
  {
    FasterWeighsMore(after, before);
    QuotientMonotone(Weight(before) + Weight(review), Weight(after) + Weight(review), Size(before) + Size(review));
  }

  // ----- coverage -----

  /** The rounded percentage is below p exactly when the exact one, rounded half up, is; its clamp never engages. */
  lemma CoverageBelowIff(answered: nat, total: int, p: nat)
    requires 1 <= total && answered <= total
    ensures 0 <= (answered * 100 + total / 2) / total <= 100
    ensures RoundedPercentage(answered, total) < p <==> 100 * answered + total / 2 < p * total
  {
    var scaled := answered * 100 + total / 2;
    QuotientBound(scaled, total, 0);
    QuotientBound(scaled, total, 101);
    QuotientBound(scaled, total, p);
  }

  /** Low coverage caps the level and nothing else lowers it. */
  lemma CoverageCaps(issue: DurationAggregate, review: DurationAggregate, coverage: Coverage)
    requires Size(issue) + Size(review) > 0
    ensures var uncapped := Level(issue, review, Unmeasured);
      var level := Level(issue, review, coverage);
      && level <= uncapped
      && (coverage.Measured? && coverage.percentage < 25 ==> level == 1)
      && (coverage.Measured? && coverage.percentage < 50 ==> level <= 2)
      && (coverage.Measured? && coverage.percentage < 75 ==> level <= 3)
      && (level < uncapped ==> coverage.Measured? && coverage.percentage < 75)
  {
    LevelInRange(issue, review, coverage);
    LevelInRange(issue, review, Unmeasured);
  }

  // ----- the results in the fields -----

  /** The first hundred samples that are positive and at most 180 days. */
  function Usable(samples: seq<int>): seq<int> {
    Filter(d => 1 <= d && d <= 15_552_000, if |samples| <= 100 then samples else samples[..100])
  }

  /** High for ten samples of a complete history, low below three. */
  predicate ConfidenceFits(c: Confidence, size: int, cut: bool) {
    (c == High <==> 10 <= size && !cut) && (c == Low <==> size < 3)
  }

  /** The whole summary, in the samples themselves. */
  lemma SummaryInFields(samples: seq<int>, windowDays: int, truncated: bool)
    ensures var r, s := Summary(samples, windowDays, truncated), Usable(samples);
      && (r.available <==> s != []) && r.sampleSize == |s| && r.windowDays == windowDays
      && (r.truncated <==> truncated || |samples| > 100)
      && ConfidenceFits(r.confidence, |s|, r.truncated)
      && (s == [] ==> r.median == 0 && r.percentile90 == 0)
      && (s != [] ==> LeastCovering(s, 50, r.median) && LeastCovering(s, 90, r.percentile90))
  {
    FilterSame(d => 1 <= d && d <= 15_552_000, d => ValidSample(d), Bounded(samples));
    SortMembers(ByDuration(), ValidSamples(Bounded(samples)));
    if Usable(samples) != [] { MedianAtMostPercentile90(samples, windowDays, truncated); }
  }

  predicate Counts(metric: DurationAggregate) {
    metric.available && metric.sampleSize >= 1 && metric.median >= 1
  }

  /** One point, and one more for a median within a day, three days, a week, and two weeks. */
  function Points(median: int): int {
    1 + (if median <= 86_400 then 1 else 0) + (if median <= 259_200 then 1 else 0)
    + (if median <= 604_800 then 1 else 0) + (if median <= 1_209_600 then 1 else 0)
  }

  function Votes(metric: DurationAggregate): int {
    if Counts(metric) then metric.sampleSize else 0
  }

  function Score(metric: DurationAggregate): int {
    if Counts(metric) then Points(metric.median) * metric.sampleSize else 0
  }

  /** The level is the average of the points over all samples, rounded down, or the cap when that is lower. */
  predicate IsCappedAverage(level: int, score: int, votes: int, cap: int) {
    level <= cap && votes * level <= score && (level == cap || score < votes * (level + 1))
  }

  /** The share of answered issues was measured, and is below p percent when rounded half up. */
  predicate AnsweredBelow(unanswered: CountAggregate, p: nat) {
    && unanswered.available && unanswered.sampleSize >= 1 && 0 <= unanswered.value
    && unanswered.value <= unanswered.sampleSize
    && 100 * (unanswered.sampleSize - unanswered.value) + unanswered.sampleSize / 2 < p * unanswered.sampleSize
  }

  function Cap(unanswered: CountAggregate): int {
    if AnsweredBelow(unanswered, 25) then 1 else if AnsweredBelow(unanswered, 50) then 2
    else if AnsweredBelow(unanswered, 75) then 3 else 5
  }

  predicate LabelFits(level: int, text: string) {
    && (level >= 5 ==> text == "Very responsive") && (level == 4 ==> text == "Responsive")
    && (level == 3 ==> text == "Moderate") && (level == 2 ==> text == "Slow") && (level <= 1 ==> text == "Very slow")
  }

  /** The longest window of the metrics that count, none counting as zero. */
  predicate WindowFits(windowDays: int, issue: DurationAggregate, review: DurationAggregate) {
    && 0 <= windowDays
    && (Counts(issue) ==> issue.windowDays <= windowDays) && (Counts(review) ==> review.windowDays <= windowDays)
    && (windowDays == 0 || (Counts(issue) && windowDays == issue.windowDays)
        || (Counts(review) && windowDays == review.windowDays))
  }

  /** The percentage of answered issues, rounded half up, when some were sampled and the counts make sense. */
  predicate CoverageFits(coverage: Coverage, unanswered: CountAggregate) {
    var total, answered := unanswered.sampleSize, unanswered.sampleSize - unanswered.value;
    && (coverage.Measured? <==> unanswered.available && total >= 1 && 0 <= answered <= total)
    && (coverage.Measured? ==>
          coverage.percentage * total <= 100 * answered + total / 2 < (coverage.percentage + 1) * total)
  }

  /** A metric that counts is shown as it is; of any other one only the window and the truncation are. */
  predicate Shows(shown: DurationAggregate, metric: DurationAggregate) {
    if Counts(metric) then shown == metric
    else shown == DurationAggregate(false, 0, 0, 0, metric.windowDays, metric.truncated, Low)
  }

  lemma CoverageOfCounts(unanswered: CountAggregate)
    ensures CoverageFits(ResponseCoverage(unanswered), unanswered)
  {
    var total, answered := unanswered.sampleSize, unanswered.sampleSize - unanswered.value;
    if ResponseCoverage(unanswered).Measured? {
      var scaled := answered * 100 + total / 2;
      CoverageBelowIff(answered, total, 0);
      QuotientBound(scaled, total, scaled / total);
      QuotientBound(scaled, total, scaled / total + 1);
    }
  }

  lemma PointsAgree(metric: DurationAggregate)
    ensures Size(NormalizedAggregate(metric)) == Votes(metric)
    ensures Weight(NormalizedAggregate(metric)) == Score(metric)
  {
    if Counts(metric) {
      assert ResponseLevel(metric.median) == Points(metric.median);
    }
  }

  lemma CapAgrees(unanswered: CountAggregate, level: int)
    requires level <= 5
    ensures CappedLevel(level, ResponseCoverage(unanswered))
            == if level > Cap(unanswered) then Cap(unanswered) else level
  {
    if ResponseCoverage(unanswered).Measured? {
      var answered := unanswered.sampleSize - unanswered.value;
      CoverageBelowIff(answered, unanswered.sampleSize, 25);
      CoverageBelowIff(answered, unanswered.sampleSize, 50);
      CoverageBelowIff(answered, unanswered.sampleSize, 75);
    }
  }

  /** The level of an assessment, in the fields of its inputs. */
  lemma LevelInFields(issueResponse: DurationAggregate, pullReview: DurationAggregate, unanswered: CountAggregate)
    requires Votes(issueResponse) + Votes(pullReview) > 0
    ensures Size(NormalizedAggregate(issueResponse)) + Size(NormalizedAggregate(pullReview)) > 0
    ensures IsCappedAverage(
      Level(NormalizedAggregate(issueResponse), NormalizedAggregate(pullReview), ResponseCoverage(unanswered)),
      Score(issueResponse) + Score(pullReview), Votes(issueResponse) + Votes(pullReview), Cap(unanswered))
  {
    PointsAgree(issueResponse);
    PointsAgree(pullReview);
    var issue, review := NormalizedAggregate(issueResponse), NormalizedAggregate(pullReview);
    LevelInRange(issue, review, Unmeasured);
    var score, votes := Score(issueResponse) + Score(pullReview), Votes(issueResponse) + Votes(pullReview);
    var average := score / votes;
    QuotientBound(score, votes, average);
    QuotientBound(score, votes, average + 1);
    CapAgrees(unanswered, average);
    if Cap(unanswered) < average { ProductMonotone(votes, Cap(unanswered), average); }
  }
}
