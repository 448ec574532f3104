// The mapping store: image-name normalisation, best-match selection over the
// loaded mapping list, and the find-and-append update that is written back.

module Comets {
  import opened Levenshtein

  /** The platform discriminator the package's tests filter on by default. */
  const RHEL8: string := "rhel8"

  /** A downstream component known to resolve to a target. */
  datatype Component = Component(name: string, repo: string)

  /** One upstream build target and the components that map to it. */
  datatype Comet = Comet(to: string, from: seq<Component>)

  /** A lookup: the platform filter and the image being resolved. */
  datatype Guess = Guess(rhelVersion: string, image: string)

  datatype Option<T> = None | Some(value: T)

  datatype Error = NoMatch | NotFound

  datatype Result<T> = Success(value: T) | Failure(error: Error)

  // ---------------------------------------------------------------------------
  // Strings

  /** The first index of c in s, or -1 when c does not occur. */
  function IndexRune(s: string, c: char): (k: int)
    ensures -1 <= k < |s|
  {
    if |s| == 0 then -1
    else if s[0] == c then 0
    else
      var k := IndexRune(s[1..], c);
      if k < 0 then -1 else k + 1
  }

  /** IndexRune finds the first occurrence, and reports -1 exactly when
      there is none. */
  lemma {:induction false} IndexRuneFindsFirst(s: string, c: char)
    ensures IndexRune(s, c) == -1 <==> c !in s
    ensures IndexRune(s, c) >= 0 ==> s[IndexRune(s, c)] == c && c !in s[..IndexRune(s, c)]
  {
    if |s| > 0 && s[0] != c {
      IndexRuneFindsFirst(s[1..], c);
      var k := IndexRune(s[1..], c);
      assert s == [s[0]] + s[1..];
      if k >= 0 {
        assert s[..k + 1] == [s[0]] + s[1..][..k];
      }
    }
  }

  /** The image name without its leading registry or organisation segment:
      everything after the first '/', or the whole name when there is none. */
  function ImageName(image: string): string {
    image[IndexRune(image, '/') + 1..]
  }

  /** The image name is a suffix of the image: the whole image when it has no
      '/', and otherwise exactly the part after the first '/'. */
  lemma ImageNameDropsFirstSegment(image: string)
    ensures var r := ImageName(image);
      && |r| <= |image| && r == image[|image| - |r|..]
      && ('/' !in image ==> r == image)
      && ('/' in image ==> |r| < |image| && image[|image| - |r| - 1] == '/' && '/' !in image[..|image| - |r| - 1])
  {
    IndexRuneFindsFirst(image, '/');
  }

  /** Whatever precedes the first '/' is dropped, and only that. */
  lemma ImageNameAfterFirstSlash(prefix: string, rest: string)
    requires '/' !in prefix
    ensures ImageName(prefix + "/" + rest) == rest
  {
    var image := prefix + "/" + rest;
    IndexRuneFindsFirst(image, '/');
    assert image[|prefix|] == '/';
    assert image[..|prefix|] == prefix;
    assert image[|prefix| + 1..] == rest;
  }

  lemma ImageNameExamples()
    ensures ImageName("a/b/c") == "b/c"
    ensures ImageName("a/") == ""
    ensures ImageName("single") == "single"
  {
    ImageNameAfterFirstSlash("a", "b/c");
    assert "a" + "/" + "b/c" == "a/b/c";
    ImageNameAfterFirstSlash("a", "");
    assert "a" + "/" + "" == "a/";
    ImageNameDropsFirstSegment("single");
  }

  /** sub occurs in s starting at position i. */
  predicate OccursAt(s: string, sub: string, i: nat) {
    i + |sub| <= |s| && s[i..i + |sub|] == sub
  }

  lemma OccursAtEnd(s: string, sub: string)
    ensures OccursAt(s + sub, sub, |s|)
  {
  }

  /** Whether sub occurs in s as a contiguous substring; the empty string
      occurs in every string. */
  predicate Contains(s: string, sub: string) {
    exists i: nat | i <= |s| - |sub| :: OccursAt(s, sub, i)
  }

  /** The empty filter occurs in every string. */
  lemma ContainsEmpty(s: string)
    ensures Contains(s, "")
  {
    assert OccursAt(s, "", 0);
  }

  // ---------------------------------------------------------------------------
  // Selection

  /** An entry takes part in a lookup when its normalised target contains the filter. */
  predicate Eligible(c: Comet, filter: string) {
    Contains(ImageName(c.to), filter)
  }

  /** A distance between two names; the lookup uses EditDistance. */
  type Metric = (string, string) -> int

  /** The edit distance under the default costs, as the lookup measures it. */
  const EditDistance: Metric := (a, b) => Distance(DefaultOptions, a, b)

  /** dist measures what EditDistance measures. */
  ghost predicate IsEditDistance(dist: Metric) {
    forall a, b {:trigger Distance(DefaultOptions, a, b)} :: dist(a, b) == Distance(DefaultOptions, a, b)
  }

  /** EditDistance is such a metric, so a statement about every such metric
      covers the lookup the program performs. */
  lemma EditDistanceMeasures()
    ensures IsEditDistance(EditDistance)
  {
  }

  /** Distances from the normalised image to each normalised candidate repo, in order. */
  function CandidateScores(c: Comet, image: string, dist: Metric): (scores: seq<int>)
    ensures |scores| == |c.from|
  {
    seq(|c.from|, k requires 0 <= k < |c.from| => dist(image, ImageName(c.from[k].repo)))
  }

  /** All distances an entry is scored by: its candidates, then its own target
      (measured from the target to the image). */
  function Scores(c: Comet, image: string, dist: Metric): seq<int> {
    CandidateScores(c, image, dist) + [dist(ImageName(c.to), image)]
  }

  /** The smallest element of a non-empty sequence. */
  function MinOf(s: seq<int>): (m: int)
    requires |s| > 0
    ensures m in s
    ensures forall x :: x in s ==> m <= x
  {
    if |s| == 1 then s[0]
    else
      var p := s[..|s| - 1];
      assert s == p + [s[|s| - 1]];
      Min(MinOf(p), s[|s| - 1])
  }

  /** The best score an entry reaches. */
  function MinScore(c: Comet, image: string, dist: Metric): int {
    MinOf(Scores(c, image, dist))
  }

  /** A distance replaces the current best only when strictly smaller;
      None stands for the initial, unbeatable-by-nothing maximum. */
  predicate Improves(dist: int, shortest: Option<int>) {
    shortest.None? || dist < shortest.value
  }

  /** The best distance and entry index after offering scores[0], ...,
      scores[j - 1] of entry i in turn, starting from (shortest, idx). */
  function Scan(shortest: Option<int>, idx: int, scores: seq<int>, j: nat, i: int): (Option<int>, int)
    requires j <= |scores|
  {
    if j == 0 then (shortest, idx)
    else
      var prior := Scan(shortest, idx, scores, j - 1, i);
      if Improves(scores[j - 1], prior.0) then (Some(scores[j - 1]), i) else prior
  }

  /** Offering a run of scores changes the best only when its minimum beats it,
      and then the entry offering them takes over. */
  lemma {:induction false} ScanTakesMinimum(shortest: Option<int>, idx: int, scores: seq<int>, j: nat, i: int)
    requires 0 < j <= |scores|
    ensures Scan(shortest, idx, scores, j, i)
         == if Improves(MinOf(scores[..j]), shortest) then (Some(MinOf(scores[..j])), i) else (shortest, idx)
  {
    if j > 1 {
      ScanTakesMinimum(shortest, idx, scores, j - 1, i);
      assert scores[..j][..j - 1] == scores[..j - 1];
    }
  }

  /** Entries are offered in list order: a skipped entry leaves the state as
      it is, every other entry k offers its scores lists[k] in turn. */
  function Select(eligible: seq<bool>, lists: seq<seq<int>>, n: nat): (Option<int>, int)
    requires n <= |eligible| == |lists|
  {
    if n == 0 then (None, -1)
    else
      var prior := Select(eligible, lists, n - 1);
      if !eligible[n - 1] then prior
      else Scan(prior.0, prior.1, lists[n - 1], |lists[n - 1]|, n - 1)
  }

  /** The selection state after the first n entries: idx is the first eligible
      entry whose smallest score is the smallest score of all eligible entries
      so far, and shortest is that score; with no eligible entry yet, idx is -1
      and shortest is unset. */
  ghost predicate BestSoFar(eligible: seq<bool>, lists: seq<seq<int>>, n: nat, shortest: Option<int>, idx: int)
    requires n <= |eligible| == |lists|
    requires forall k :: 0 <= k < |lists| ==> |lists[k]| > 0
  {
    && (idx == -1 <==> shortest.None?)
    && (idx == -1 <==> forall k :: 0 <= k < n ==> !eligible[k])
    && (idx != -1 ==> 0 <= idx < n && eligible[idx] && shortest == Some(MinOf(lists[idx])))
    && (forall k :: 0 <= k < n && eligible[k] ==> shortest.Some? && shortest.value <= MinOf(lists[k]))
    && (forall k :: 0 <= k < idx && eligible[k] ==> shortest.Some? && shortest.value < MinOf(lists[k]))
  }

  lemma {:induction false} SelectIsBestSoFar(eligible: seq<bool>, lists: seq<seq<int>>, n: nat)
    requires n <= |eligible| == |lists|
    requires forall k :: 0 <= k < |lists| ==> |lists[k]| > 0
    ensures BestSoFar(eligible, lists, n, Select(eligible, lists, n).0, Select(eligible, lists, n).1)
  {
    if n > 0 {
      SelectIsBestSoFar(eligible, lists, n - 1);
      var prior := Select(eligible, lists, n - 1);
      if eligible[n - 1] {
        var scores := lists[n - 1];
        ScanTakesMinimum(prior.0, prior.1, scores, |scores|, n - 1);
        assert scores[..|scores|] == scores;
      }
    }
  }

  /** The whole scan selects the first eligible entry reaching the smallest
      score of any eligible entry, or nothing when no entry is eligible. */
  lemma SelectIsFirstMinimum(eligible: seq<bool>, lists: seq<seq<int>>)
    requires |eligible| == |lists|
    requires forall k :: 0 <= k < |lists| ==> |lists[k]| > 0
    ensures var idx := Select(eligible, lists, |lists|).1;
      && (idx < 0 <==> forall k :: 0 <= k < |lists| ==> !eligible[k])
      && (idx >= 0 ==> idx < |lists| && eligible[idx])
      && (idx >= 0 ==> forall k, d :: 0 <= k < |lists| && eligible[k] && d in lists[k] ==> MinOf(lists[idx]) <= d)
      && (idx >= 0 ==> forall k :: 0 <= k < idx && eligible[k] ==> MinOf(lists[idx]) < MinOf(lists[k]))
  {
    SelectIsBestSoFar(eligible, lists, |lists|);
  }

  /** For each entry, whether it takes part in a lookup with this filter. */
  function EligibleFlags(comets: seq<Comet>, filter: string): (flags: seq<bool>)
    ensures |flags| == |comets|
  {
    seq(|comets|, k requires 0 <= k < |comets| => Eligible(comets[k], filter))
  }

  /** For each entry, the scores it is ranked by. */
  function ScoreLists(comets: seq<Comet>, image: string, dist: Metric): (lists: seq<seq<int>>)
    ensures |lists| == |comets|
    ensures forall k :: 0 <= k < |lists| ==> |lists[k]| > 0
  {
    seq(|comets|, k requires 0 <= k < |comets| => Scores(comets[k], image, dist))
  }

  /** The outcome of a lookup: the position of the selected entry, or NoMatch. */
  function Guessed(comets: seq<Comet>, g: Guess, dist: Metric): Result<nat> {
    var idx := Select(EligibleFlags(comets, g.rhelVersion), ScoreLists(comets, ImageName(g.image), dist), |comets|).1;
    if idx < 0 then Failure(NoMatch) else Success(idx)
  }

  /** A lookup fails, with NoMatch, exactly when no entry is eligible; an empty
      filter makes every entry eligible. */
  lemma GuessedFailsIffNoneEligible(comets: seq<Comet>, g: Guess, dist: Metric)
    ensures Guessed(comets, g, dist).Failure? <==> forall k :: 0 <= k < |comets| ==> !Eligible(comets[k], g.rhelVersion)
    ensures Guessed(comets, g, dist).Failure? ==> Guessed(comets, g, dist).error == NoMatch
    ensures g.rhelVersion == "" ==> (Guessed(comets, g, dist).Failure? <==> comets == [])
    ensures g.rhelVersion == "" ==> forall k :: 0 <= k < |comets| ==> Eligible(comets[k], g.rhelVersion)
  {
    var filter, image := g.rhelVersion, ImageName(g.image);
    var eligible, lists := EligibleFlags(comets, filter), ScoreLists(comets, image, dist);
    SelectIsFirstMinimum(eligible, lists);
    if Select(eligible, lists, |lists|).1 < 0 {
      forall k | 0 <= k < |comets| ensures !Eligible(comets[k], filter) {
        assert !eligible[k];
      }
    }
    if filter == "" {
      forall k | 0 <= k < |comets| ensures Eligible(comets[k], filter) {
        ContainsEmpty(ImageName(comets[k].to));
      }
    }
  }

  /** A successful lookup selects an eligible entry whose best score is the
      smallest score of any eligible entry, over candidate repos and targets. */
  lemma GuessedSelectsMinimum(comets: seq<Comet>, g: Guess, dist: Metric)
    requires Guessed(comets, g, dist).Success?
    ensures Guessed(comets, g, dist).value < |comets|
    ensures Eligible(comets[Guessed(comets, g, dist).value], g.rhelVersion)
    ensures forall k, d ::
              0 <= k < |comets| && Eligible(comets[k], g.rhelVersion) && d in Scores(comets[k], ImageName(g.image), dist)
              ==> MinScore(comets[Guessed(comets, g, dist).value], ImageName(g.image), dist) <= d
  {
    var filter, image := g.rhelVersion, ImageName(g.image);
    var eligible, lists := EligibleFlags(comets, filter), ScoreLists(comets, image, dist);
    SelectIsFirstMinimum(eligible, lists);
    var idx := Select(eligible, lists, |lists|).1;
    assert lists[idx] == Scores(comets[idx], image, dist);
    forall k, d | 0 <= k < |comets| && Eligible(comets[k], filter) && d in Scores(comets[k], image, dist)
      ensures MinScore(comets[idx], image, dist) <= d
    {
      assert eligible[k] && lists[k] == Scores(comets[k], image, dist);
    }
  }

  /** Ties go to the earliest entry: no eligible entry before the selected one
      reaches its best score. */
  lemma GuessedPrefersEarliest(comets: seq<Comet>, g: Guess, dist: Metric)
    requires Guessed(comets, g, dist).Success?
    ensures Guessed(comets, g, dist).value < |comets|
    ensures forall k ::
              0 <= k < Guessed(comets, g, dist).value && Eligible(comets[k], g.rhelVersion)
              ==> MinScore(comets[Guessed(comets, g, dist).value], ImageName(g.image), dist) < MinScore(comets[k], ImageName(g.image), dist)
  {
    var filter, image := g.rhelVersion, ImageName(g.image);
    var eligible, lists := EligibleFlags(comets, filter), ScoreLists(comets, image, dist);
    SelectIsFirstMinimum(eligible, lists);
    var idx := Select(eligible, lists, |lists|).1;
    assert lists[idx] == Scores(comets[idx], image, dist);
    forall k | 0 <= k < idx && Eligible(comets[k], filter)
      ensures MinScore(comets[idx], image, dist) < MinScore(comets[k], image, dist)
    {
      assert eligible[k] && lists[k] == Scores(comets[k], image, dist);
    }
  }

  /** The lookup depends only on the values of the metric. */
  lemma GuessedRespectsMetric(comets: seq<Comet>, g: Guess, d1: Metric, d2: Metric)
    requires forall a, b :: d1(a, b) == d2(a, b)
    ensures Guessed(comets, g, d1) == Guessed(comets, g, d2)
  {
    var image := ImageName(g.image);
    forall k | 0 <= k < |comets|
      ensures Scores(comets[k], image, d1) == Scores(comets[k], image, d2)
    {
      var c := comets[k];
      forall j | 0 <= j < |c.from|
        ensures CandidateScores(c, image, d1)[j] == CandidateScores(c, image, d2)[j]
      {
        assert d1(image, ImageName(c.from[j].repo)) == d2(image, ImageName(c.from[j].repo));
      }
      assert CandidateScores(c, image, d1) == CandidateScores(c, image, d2);
    }
    assert ScoreLists(comets, image, d1) == ScoreLists(comets, image, d2);
  }

  /** Every metric that measures the edit distance gives the same lookup. */
  lemma GuessedByAnyEditDistance(comets: seq<Comet>, g: Guess, d1: Metric, d2: Metric)
    requires IsEditDistance(d1) && IsEditDistance(d2)
    ensures Guessed(comets, g, d1) == Guessed(comets, g, d2)
  {
    forall a, b ensures d1(a, b) == d2(a, b) {
      assert d1(a, b) == Distance(DefaultOptions, a, b);
    }
    GuessedRespectsMetric(comets, g, d1, d2);
  }

  /** With a single eligible entry, the lookup selects it whatever its scores. */
  lemma GuessedSingleEligible(c: Comet, g: Guess, dist: Metric)
    requires Eligible(c, g.rhelVersion)
    ensures Guessed([c], g, dist) == Success(0)
  {
    GuessedFailsIffNoneEligible([c], g, dist);
    GuessedSelectsMinimum([c], g, dist);
  }

  /** A one-entry list whose target, past its organisation segment, ends in
      the rhel8 filter resolves any image, the activator image among them, to
      that entry. */
  lemma ServingActivatorResolves(image: string)
    ensures var target := Comet("openshift-serverless-1" + "/" + ("serving-activator-" + RHEL8),
                                [Component("kn-serving-activator", "serverless-operator-135/kn-serving-activator")]);
      Guessed([target], Guess(RHEL8, image), EditDistance) == Success(0)
  {
    var target := Comet("openshift-serverless-1" + "/" + ("serving-activator-" + RHEL8),
                        [Component("kn-serving-activator", "serverless-operator-135/kn-serving-activator")]);
    ImageNameAfterFirstSlash("openshift-serverless-1", "serving-activator-" + RHEL8);
    OccursAtEnd("serving-activator-", RHEL8);
    GuessedSingleEligible(target, Guess(RHEL8, image), EditDistance);
  }

  /** The body of the lookup loop for the entry at position i: skip it when
      its normalised target lacks the filter; otherwise score every candidate
      repo, then the entry's own target, keeping the first strictly smaller
      distance. The ghost flag and scores say what the entry offers. */
  method OfferEntry(comet: Comet, filter: string, image: string, i: int, shortest0: Option<int>, idx0: int,
                    ghost dist: Metric, ghost eligible: bool, ghost scores: seq<int>)
    returns (shortest: Option<int>, idx: int)
    requires IsEditDistance(dist)
    requires eligible == Eligible(comet, filter) && scores == Scores(comet, image, dist)
    ensures (shortest, idx) == if eligible then Scan(shortest0, idx0, scores, |scores|, i) else (shortest0, idx0)
  {
    shortest, idx := shortest0, idx0;
    var to := ImageName(comet.to);
    if !Contains(to, filter) {
      return;
    }
    var j := 0;
    while j < |comet.from|
      invariant 0 <= j <= |comet.from|
      invariant (shortest, idx) == Scan(shortest0, idx0, scores, j, i)
    {
      var from := ImageName(comet.from[j].repo);
      var d := DistanceForStrings(image, from, DefaultOptions);
      assert scores[j] == d;
      if Improves(d, shortest) {
        shortest := Some(d);
        idx := i;
      }
      j := j + 1;
    }
    var d := DistanceForStrings(to, image, DefaultOptions);
    assert scores[j] == d;
    if Improves(d, shortest) {
      shortest := Some(d);
      idx := i;
    }
  }

  /** The lookup loop over the entries, offering each in turn. The ghost
      flags and score lists say, entry by entry, what each entry offers. */
  method SelectEntry(comets: seq<Comet>, filter: string, image: string,
                     ghost dist: Metric, ghost eligible: seq<bool>, ghost lists: seq<seq<int>>)
    returns (idx: int)
    requires IsEditDistance(dist)
    requires |eligible| == |lists| == |comets|
    requires forall k :: 0 <= k < |comets| ==> eligible[k] == Eligible(comets[k], filter)
    requires forall k :: 0 <= k < |comets| ==> lists[k] == Scores(comets[k], image, dist)
    ensures idx == Select(eligible, lists, |comets|).1
  {
    var shortest: Option<int> := None;
    idx := -1;
    var i := 0;
    while i < |comets|
      invariant 0 <= i <= |comets|
      invariant (shortest, idx) == Select(eligible, lists, i)
    {
      shortest, idx := OfferEntry(comets[i], filter, image, i, shortest, idx, dist, eligible[i], lists[i]);
      i := i + 1;
    }
  }

  /** The best-match lookup over a loaded mapping list. On success the result
      is the position of the chosen entry in the list. */
  method GuessComet(comets: seq<Comet>, g: Guess) returns (r: Result<nat>)
    ensures forall dist :: IsEditDistance(dist) ==> r == Guessed(comets, g, dist)
  {
    EditDistanceMeasures();
    ghost var dist: Metric :| IsEditDistance(dist);
    var image := ImageName(g.image);
    var idx := SelectEntry(comets, g.rhelVersion, image, dist,
                           EligibleFlags(comets, g.rhelVersion), ScoreLists(comets, image, dist));
    if idx < 0 {
      r := Failure(NoMatch);
    } else {
      r := Success(idx);
    }
    forall other | IsEditDistance(other)
      ensures r == Guessed(comets, g, other)
    {
      GuessedByAnyEditDistance(comets, g, dist, other);
    }
  }

  // ---------------------------------------------------------------------------
  // Recording a mapping

  /** The position of the first entry whose target is `to`. */
  function FirstWithTo(comets: seq<Comet>, to: string): (k: Option<nat>)
    ensures k.None? <==> forall m :: 0 <= m < |comets| ==> comets[m].to != to
    ensures k.Some? ==> k.value < |comets| && comets[k.value].to == to
    ensures k.Some? ==> forall m :: 0 <= m < k.value ==> comets[m].to != to
  {
    if |comets| == 0 then None
    else if comets[0].to == to then Some(0)
    else match FirstWithTo(comets[1..], to)
      case None => None
      case Some(k) => Some(k + 1)
  }

  /** Whether some component in the list already carries this name. */
  predicate HasComponent(from: seq<Component>, name: string) {
    exists m :: 0 <= m < |from| && from[m].name == name
  }

  /** The list written back after recording `from` under target `to`, or
      NotFound when no entry has that target. */
  function Persisted(comets: seq<Comet>, to: string, from: Component): Result<seq<Comet>> {
    match FirstWithTo(comets, to)
    case None => Failure(NotFound)
    case Some(k) =>
      if HasComponent(comets[k].from, from.name) then Success(comets)
      else Success(comets[k := comets[k].(from := comets[k].from + [from])])
  }

  /** Record `from` under the first entry whose target is `to`. On success the
      result is the whole list to write back; on failure nothing is written. */
  method Persist(comets: seq<Comet>, to: string, from: Component) returns (r: Result<seq<Comet>>)
    ensures r == Persisted(comets, to, from)
  {
    var list := comets;
    var found := false;
    var i := 0;
    while i < |list|
      invariant 0 <= i <= |list|
      invariant list == comets && !found
      invariant forall m :: 0 <= m < i ==> comets[m].to != to
    {
      if list[i].to == to {
        found := false;
        var j := 0;
        while j < |list[i].from|
          invariant 0 <= j <= |list[i].from|
          invariant !found
          invariant forall m :: 0 <= m < j ==> list[i].from[m].name != from.name
        {
          if list[i].from[j].name == from.name {
            found := true;
            break;
          }
          j := j + 1;
        }
        assert found <==> HasComponent(comets[i].from, from.name);
        if !found {
          found := true;
          list := list[i := list[i].(from := list[i].from + [from])];
        }
        assert FirstWithTo(comets, to) == Some(i);
        break;
      }
      i := i + 1;
    }
    if !found {
      r := Failure(NotFound);
    } else {
      r := Success(list);
    }
  }

  /** Persist fails, with NotFound and nothing written, exactly when no entry
      has the target. */
  lemma PersistFailsWithoutTarget(comets: seq<Comet>, to: string, from: Component)
    ensures Persisted(comets, to, from).Failure? <==> forall m :: 0 <= m < |comets| ==> comets[m].to != to
    ensures Persisted(comets, to, from).Failure? ==> Persisted(comets, to, from).error == NotFound
  {
  }

  /** Only the first entry with the target changes: `from` is appended to its
      components when no component has that name, otherwise nothing changes.
      Every other entry is left as it was, and afterwards the name is present. */
  lemma PersistChangesFirstMatchOnly(comets: seq<Comet>, to: string, from: Component, k: nat)
    requires k < |comets| && comets[k].to == to
    requires forall m :: 0 <= m < k ==> comets[m].to != to
    ensures Persisted(comets, to, from).Success?
    ensures var r := Persisted(comets, to, from).value;
      && |r| == |comets|
      && (forall m :: 0 <= m < |comets| && m != k ==> r[m] == comets[m])
      && r[k].to == to
      && (HasComponent(comets[k].from, from.name) ==> r[k] == comets[k])
      && (!HasComponent(comets[k].from, from.name) ==> r[k].from == comets[k].from + [from])
      && HasComponent(r[k].from, from.name)
  {
    assert FirstWithTo(comets, to) == Some(k);
    var r := Persisted(comets, to, from).value;
    if !HasComponent(comets[k].from, from.name) {
      assert r[k].from[|comets[k].from|] == from;
    }
  }

  /** Recording the same component twice writes the same list as recording it once. */
  lemma PersistIdempotent(comets: seq<Comet>, to: string, from: Component)
    requires Persisted(comets, to, from).Success?
    ensures Persisted(Persisted(comets, to, from).value, to, from) == Persisted(comets, to, from)
  {
    var k := FirstWithTo(comets, to).value;
    PersistChangesFirstMatchOnly(comets, to, from, k);
    var r := Persisted(comets, to, from).value;
    PersistChangesFirstMatchOnly(r, to, from, k);
  }

  /** The component named `name` is recorded under target `to`: the first
      entry with that target has a component of that name. */
  predicate Recorded(comets: seq<Comet>, to: string, name: string) {
    match FirstWithTo(comets, to)
    case None => false
    case Some(k) => HasComponent(comets[k].from, name)
  }

  /** c2 keeps every entry of c1, in place, with the same target, and extends
      its components at the end. */
  predicate Extends(c1: seq<Comet>, c2: seq<Comet>) {
    && |c2| == |c1|
    && forall m :: 0 <= m < |c1| ==>
         && c2[m].to == c1[m].to
         && |c1[m].from| <= |c2[m].from|
         && c2[m].from[..|c1[m].from|] == c1[m].from
  }

  lemma ExtendsTransitive(c1: seq<Comet>, c2: seq<Comet>, c3: seq<Comet>)
    requires Extends(c1, c2) && Extends(c2, c3)
    ensures Extends(c1, c3)
  {
  }

  /** Growing a list never loses a recorded component. */
  lemma RecordedStable(c1: seq<Comet>, c2: seq<Comet>, to: string, name: string)
    requires Extends(c1, c2)
    ensures Recorded(c1, to, name) ==> Recorded(c2, to, name)
  {
  }

  /** What one call leaves behind: the loaded list when it fails, and what it
      writes when it succeeds. */
  function AfterPersist(comets: seq<Comet>, to: string, from: Component): seq<Comet> {
    match Persisted(comets, to, from)
    case Success(written) => written
    case Failure(_) => comets
  }

  /** A successful call records the component and only ever extends the list. */
  lemma PersistExtends(comets: seq<Comet>, to: string, from: Component)
    ensures Extends(comets, AfterPersist(comets, to, from))
    ensures Persisted(comets, to, from).Success? ==> Recorded(AfterPersist(comets, to, from), to, from.name)
  {
    match FirstWithTo(comets, to)
    case None =>
    case Some(k) =>
      PersistChangesFirstMatchOnly(comets, to, from, k);
      var r := AfterPersist(comets, to, from);
      assert r[k].from[..|comets[k].from|] == comets[k].from;
      assert FirstWithTo(r, to) == Some(k);
  }

  /** Calls serialised by the store's lock: each request, in order, reads what
      the previous one left behind. */
  function PersistAll(comets: seq<Comet>, requests: seq<(string, Component)>): seq<Comet>
    decreases |requests|
  {
    if requests == [] then comets
    else PersistAll(AfterPersist(comets, requests[0].0, requests[0].1), requests[1..])
  }

  /** Serialised calls lose no update: everything recorded before is still
      recorded afterwards, and so is every component whose call succeeded,
      which is every request whose target is in the list. */
  lemma {:induction false} PersistAllKeepsEveryComponent(comets: seq<Comet>, requests: seq<(string, Component)>)
    ensures Extends(comets, PersistAll(comets, requests))
    ensures forall to, name :: Recorded(comets, to, name) ==> Recorded(PersistAll(comets, requests), to, name)
    ensures forall q :: 0 <= q < |requests| && (exists m :: 0 <= m < |comets| && comets[m].to == requests[q].0)
              ==> Recorded(PersistAll(comets, requests), requests[q].0, requests[q].1.name)
    decreases |requests|
  {
    var final := PersistAll(comets, requests);
    if requests == [] {
      assert Extends(comets, final);
    } else {
      var (to, from) := requests[0];
      var next := AfterPersist(comets, to, from);
      PersistExtends(comets, to, from);
      PersistAllKeepsEveryComponent(next, requests[1..]);
      ExtendsTransitive(comets, next, final);
      forall to', name | Recorded(comets, to', name)
        ensures Recorded(final, to', name)
      {
        RecordedStable(comets, next, to', name);
      }
      forall q | 0 <= q < |requests| && (exists m :: 0 <= m < |comets| && comets[m].to == requests[q].0)
        ensures Recorded(final, requests[q].0, requests[q].1.name)
      {
        if q == 0 {
          var m :| 0 <= m < |comets| && comets[m].to == to;
          assert Persisted(comets, to, from).Success?;
        } else {
          var m :| 0 <= m < |comets| && comets[m].to == requests[q].0;
          assert next[m].to == requests[1..][q - 1].0;
        }
      }
    }
  }
}
