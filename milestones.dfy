/**
 * `extract_milestones`: the milestones to create on GitHub, gathered from all
 * mapped issues. The source collects the distinct names, the distinct
 * descriptions and the distinct due dates as three separate Python sets,
 * zips them, and removes the `(None, None, None)` tuple that issues without a
 * sprint contribute. The iteration order of a Python set is unspecified, so
 * each set is given here as an arbitrary duplicate-free sequence of its
 * elements.
 */
module Milestones {
  import opened Wrappers
  import opened FieldMapper

  /** A milestone tuple in the source's order: (name, description, due date). */
  type Triple = (Option<string>, Option<string>, Option<string>)

  /** The tuple an issue without a sprint contributes. */
  const Sentinel: Triple := (None, None, None)

  /** `list.remove` found nothing to remove: Python raises ValueError. */
  datatype ExtractError = SentinelAbsent

  /** `milestone.get('name')`: None for the empty record `{}`. */
  function NameOf(m: MilestoneRecord): Option<string>
  {
    if m.Milestone? then m.name else None
  }

  /** `milestone.get('description')`. */
  function DescriptionOf(m: MilestoneRecord): Option<string>
  {
    if m.Milestone? then m.description else None
  }

  /** `milestone.get('due_date')`. */
  function DueDateOf(m: MilestoneRecord): Option<string>
  {
    if m.Milestone? then m.dueDate else None
  }

  /** The full tuple of one issue's milestone. */
  function TripleOf(issue: GitHubIssue): Triple
  {
    (NameOf(issue.milestone), DescriptionOf(issue.milestone), DueDateOf(issue.milestone))
  }

  /** `deduped_milestone_names`. */
  function Names(issues: seq<GitHubIssue>): (r: set<Option<string>>)
  {
    set j | 0 <= j < |issues| :: NameOf(issues[j].milestone)
  }

  /** `deduped_milestone_descriptions`. */
  function Descriptions(issues: seq<GitHubIssue>): (r: set<Option<string>>)
  {
    set j | 0 <= j < |issues| :: DescriptionOf(issues[j].milestone)
  }

  /** `deduped_milestone_dates`. */
  function DueDates(issues: seq<GitHubIssue>): (r: set<Option<string>>)
  {
    set j | 0 <= j < |issues| :: DueDateOf(issues[j].milestone)
  }

  /**
   * Each set holds exactly the values its field takes on the issues: every
   * issue contributes its value, and every member comes from some issue.
   */
  lemma DedupedSets(issues: seq<GitHubIssue>, x: Option<string>)
    ensures x in Names(issues) <==> exists j :: 0 <= j < |issues| && NameOf(issues[j].milestone) == x
    ensures x in Descriptions(issues) <==> exists j :: 0 <= j < |issues| && DescriptionOf(issues[j].milestone) == x
    ensures x in DueDates(issues) <==> exists j :: 0 <= j < |issues| && DueDateOf(issues[j].milestone) == x
    ensures |issues| == 0 <==> Names(issues) == {} && Descriptions(issues) == {} && DueDates(issues) == {}
  {
    if |issues| > 0 {
      assert NameOf(issues[0].milestone) in Names(issues);
    }
  }

  /** The tuples the issues carry, deduplicated as whole tuples. */
  function Triples(issues: seq<GitHubIssue>): set<Triple>
  {
    set j | 0 <= j < |issues| :: TripleOf(issues[j])
  }

  predicate Distinct<T(==)>(xs: seq<T>)
  {
    forall i, j :: 0 <= i < j < |xs| ==> xs[i] != xs[j]
  }

  /** `xs` is one iteration order of the set `s`. */
  predicate Enumerates(xs: seq<Option<string>>, s: set<Option<string>>)
  {
    && Distinct(xs)
    && (forall i :: 0 <= i < |xs| ==> xs[i] in s)
    && (forall x :: x in s ==> x in xs)
  }

  function Min3(a: nat, b: nat, c: nat): nat
  {
    if a <= b && a <= c then a else if b <= c then b else c
  }

  /** `list(zip(a, b, c))`: stops at the shortest input. */
  function Zip3(a: seq<Option<string>>, b: seq<Option<string>>, c: seq<Option<string>>): (r: seq<Triple>)
    ensures |r| == Min3(|a|, |b|, |c|)
    ensures forall i :: 0 <= i < |r| ==> r[i] == (a[i], b[i], c[i])
  {
    seq(Min3(|a|, |b|, |c|), i requires 0 <= i < Min3(|a|, |b|, |c|) => (a[i], b[i], c[i]))
  }

  /** Position of the first `x` in `xs`. */
  function Find(xs: seq<Triple>, x: Triple): (k: nat)
    requires x in xs
    ensures k < |xs| && xs[k] == x
    ensures forall j :: 0 <= j < k ==> xs[j] != x
  {
    if xs[0] == x then 0 else 1 + Find(xs[1..], x)
  }

  /** `list.remove(x)`: drops the first `x`, and raises when there is none. */
  function RemoveFirst(xs: seq<Triple>, x: Triple): (r: Option<seq<Triple>>)
    ensures r.None? <==> x !in xs
    ensures r.Some? ==> r.value == xs[..Find(xs, x)] + xs[Find(xs, x) + 1..]
  {
    if |xs| == 0 then None
    else if xs[0] == x then Some(xs[1..])
    else match RemoveFirst(xs[1..], x)
      case None => None
      case Some(rest) =>
        assert xs[1..][..Find(xs[1..], x)] == xs[1..Find(xs, x)];
        Some([xs[0]] + rest)
  }

  /** What `extract_milestones` returns or raises, for given iteration orders of its three sets. */
  function Extracted(names: seq<Option<string>>, descriptions: seq<Option<string>>, dueDates: seq<Option<string>>)
    : (r: Result<seq<Triple>, ExtractError>)
    ensures r.Err? <==> Sentinel !in Zip3(names, descriptions, dueDates)
    ensures r.Ok? ==> |r.value| == Min3(|names|, |descriptions|, |dueDates|) - 1
    ensures r.Ok? ==> forall t :: t in r.value ==> t in Zip3(names, descriptions, dueDates)
  {
    match RemoveFirst(Zip3(names, descriptions, dueDates), Sentinel)
    case None => Err(SentinelAbsent)
    case Some(ms) => Ok(ms)
  }

  /**
   * `extract_milestones`, given the three sets `Names(issues)`,
   * `Descriptions(issues)` and `DueDates(issues)` in the order Python happens
   * to iterate them. The list built by `zip` is then changed in place by
   * `remove`, which scans it for the first `(None, None, None)`. The result
   * depends on the issues only through those orders.
   */
  method ExtractMilestones(names: seq<Option<string>>,
                           descriptions: seq<Option<string>>,
                           dueDates: seq<Option<string>>)
    returns (r: Result<seq<Triple>, ExtractError>)
    ensures r == Extracted(names, descriptions, dueDates)
  {
    var milestones := Zip3(names, descriptions, dueDates);
    var i := 0;
    while i < |milestones| && milestones[i] != Sentinel
      invariant 0 <= i <= |milestones|
      invariant forall j :: 0 <= j < i ==> milestones[j] != Sentinel
    {
      i := i + 1;
    }
    if i == |milestones| {
      return Err(SentinelAbsent);
    }
    assert Find(milestones, Sentinel) == i;
    milestones := milestones[..i] + milestones[i + 1..];
    return Ok(milestones);
  }

  // ---------------------------------------------------------------------
  // What the source's aggregation guarantees, and what it does not.
  // ---------------------------------------------------------------------

  /**
   * The call succeeds exactly when the sentinel appears in the zipped list;
   * it then yields one tuple fewer than the shortest of the three sets, and
   * never the sentinel itself, because no set holds None twice.
   */
  lemma ExtractedShape(names: seq<Option<string>>, descriptions: seq<Option<string>>, dueDates: seq<Option<string>>)
    requires Distinct(names)
    ensures Extracted(names, descriptions, dueDates).Ok? <==> Sentinel in Zip3(names, descriptions, dueDates)
    ensures Extracted(names, descriptions, dueDates).Ok? ==>
      && |Extracted(names, descriptions, dueDates).value| == Min3(|names|, |descriptions|, |dueDates|) - 1
      && Sentinel !in Extracted(names, descriptions, dueDates).value
  {
    var zipped := Zip3(names, descriptions, dueDates);
    if Sentinel in zipped {
      var k := Find(zipped, Sentinel);
      var ms := zipped[..k] + zipped[k + 1..];
      forall j | 0 <= j < |ms| ensures ms[j] != Sentinel {
        if j >= k {
          assert ms[j] == zipped[j + 1];
          assert names[j + 1] != names[k];
        }
      }
    }
  }

  /** A member of `xs` with position `k` removed sits somewhere in `xs`. */
  lemma ZippedFrom(xs: seq<Triple>, k: nat, t: Triple) returns (j: nat)
    requires k < |xs| && t in xs[..k] + xs[k + 1..]
    ensures j < |xs| && xs[j] == t
  {
    if t in xs[..k] {
      var i :| 0 <= i < k && xs[..k][i] == t;
      j := i;
    } else {
      var i :| 0 <= i < |xs[k + 1..]| && xs[k + 1..][i] == t;
      j := k + 1 + i;
    }
  }

  /** Every tuple produced sits at one position of the zipped orders. */
  lemma ExtractedPosition(names: seq<Option<string>>,
                          descriptions: seq<Option<string>>,
                          dueDates: seq<Option<string>>,
                          t: Triple)
    returns (j: nat)
    requires Extracted(names, descriptions, dueDates).Ok?
    requires t in Extracted(names, descriptions, dueDates).value
    ensures j < |names| && j < |descriptions| && j < |dueDates|
    ensures t == (names[j], descriptions[j], dueDates[j])
  {
    var zipped := Zip3(names, descriptions, dueDates);
    var k := Find(zipped, Sentinel);
    j := ZippedFrom(zipped, k, t);
  }

  /** Every tuple produced pairs a name, a description and a due date each seen on some issue. */
  lemma ExtractedProvenance(issues: seq<GitHubIssue>,
                            names: seq<Option<string>>,
                            descriptions: seq<Option<string>>,
                            dueDates: seq<Option<string>>)
    requires Enumerates(names, Names(issues))
    requires Enumerates(descriptions, Descriptions(issues))
    requires Enumerates(dueDates, DueDates(issues))
    ensures Extracted(names, descriptions, dueDates).Ok? ==>
      forall t :: t in Extracted(names, descriptions, dueDates).value ==>
        t.0 in Names(issues) && t.1 in Descriptions(issues) && t.2 in DueDates(issues)
  {
    var r := Extracted(names, descriptions, dueDates);
    if r.Ok? {
      forall t | t in r.value
        ensures t.0 in Names(issues) && t.1 in Descriptions(issues) && t.2 in DueDates(issues)
      {
        var j := ExtractedPosition(names, descriptions, dueDates, t);
      }
    }
  }

  /**
   * When every issue has a sprint with a name, None is not among the names,
   * so the sentinel cannot be formed and the call raises; so does an empty
   * issue list.
   */
  lemma ExtractedFailsWithoutUnscheduledIssue(issues: seq<GitHubIssue>,
                                             names: seq<Option<string>>,
                                             descriptions: seq<Option<string>>,
                                             dueDates: seq<Option<string>>)
    requires Enumerates(names, Names(issues))
    requires forall j :: 0 <= j < |issues| ==> NameOf(issues[j].milestone).Some?
    ensures Extracted(names, descriptions, dueDates) == Err(SentinelAbsent)
  {
    var zipped := Zip3(names, descriptions, dueDates);
    assert None !in Names(issues);
    assert forall j :: 0 <= j < |zipped| ==> zipped[j].0 == names[j] != None;
  }

  /** A duplicate-free sequence has as many elements as its set. */
  lemma {:induction false} DistinctCard(xs: seq<Option<string>>)
    requires Distinct(xs)
    ensures |set x | x in xs| == |xs|
  {
    if |xs| > 0 {
      DistinctCard(xs[1..]);
      assert (set x | x in xs) == {xs[0]} + (set x | x in xs[1..]);
      assert xs[0] !in xs[1..];
    }
  }

  /** An iteration order of a set lists each element once. */
  lemma EnumerationLength(xs: seq<Option<string>>, s: set<Option<string>>)
    requires Enumerates(xs, s)
    ensures |xs| == |s|
  {
    DistinctCard(xs);
    assert (set x | x in xs) == s;
  }

  /** An issue record that differs from another only in its milestone. */
  function IssueWith(m: MilestoneRecord): GitHubIssue
  {
    GitHubIssue("PRJ-1", "", "", [], NotSet, [], Project("PRJ", "Project"), m, Open, "To Do")
  }

  /** Two sprints that differ only in their end date, and one issue without a sprint. */
  function DueDateOnlyIssues(): seq<GitHubIssue>
  {
    [IssueWith(Milestone(Some("S"), Some("D1"), Some("G"))),
     IssueWith(Milestone(Some("S"), Some("D2"), Some("G"))),
     IssueWith(NoMilestone)]
  }

  lemma DueDateOnlySets()
    ensures |Names(DueDateOnlyIssues())| == 2
    ensures |Descriptions(DueDateOnlyIssues())| == 2
    ensures |DueDates(DueDateOnlyIssues())| == 3
  {
    var issues := DueDateOnlyIssues();
    assert Names(issues) == {Some("S"), None} by {
      assert NameOf(issues[0].milestone) == Some("S") && NameOf(issues[2].milestone) == None;
    }
    assert Descriptions(issues) == {Some("G"), None} by {
      assert DescriptionOf(issues[0].milestone) == Some("G") && DescriptionOf(issues[2].milestone) == None;
    }
    assert DueDates(issues) == {Some("D1"), Some("D2"), None} by {
      assert DueDateOf(issues[0].milestone) == Some("D1") && DueDateOf(issues[1].milestone) == Some("D2");
      assert DueDateOf(issues[2].milestone) == None;
    }
  }

  /**
   * On success the number of milestones is one less than the size of the
   * smallest of the three distinct-value sets.
   */
  lemma ExtractedCount(issues: seq<GitHubIssue>,
                       names: seq<Option<string>>,
                       descriptions: seq<Option<string>>,
                       dueDates: seq<Option<string>>)
    requires Enumerates(names, Names(issues))
    requires Enumerates(descriptions, Descriptions(issues))
    requires Enumerates(dueDates, DueDates(issues))
    ensures Extracted(names, descriptions, dueDates).Ok? ==>
      |Extracted(names, descriptions, dueDates).value|
        == Min3(|Names(issues)|, |Descriptions(issues)|, |DueDates(issues)|) - 1
  {
    EnumerationLength(names, Names(issues));
    EnumerationLength(descriptions, Descriptions(issues));
    EnumerationLength(dueDates, DueDates(issues));
    ExtractedShape(names, descriptions, dueDates);
  }

  /**
   * For the issues above, whatever the set orders, at most one milestone
   * comes out, so the two sprints are never both migrated.
   */
  lemma DueDateOnlyDifferenceLost(names: seq<Option<string>>,
                                  descriptions: seq<Option<string>>,
                                  dueDates: seq<Option<string>>)
    requires Enumerates(names, Names(DueDateOnlyIssues()))
    requires Enumerates(descriptions, Descriptions(DueDateOnlyIssues()))
    requires Enumerates(dueDates, DueDates(DueDateOnlyIssues()))
    ensures Extracted(names, descriptions, dueDates).Ok? ==>
      && |Extracted(names, descriptions, dueDates).value| == 1
      && !((Some("S"), Some("G"), Some("D1")) in Extracted(names, descriptions, dueDates).value &&
           (Some("S"), Some("G"), Some("D2")) in Extracted(names, descriptions, dueDates).value)
  {
    DueDateOnlySets();
    EnumerationLength(names, Names(DueDateOnlyIssues()));
    EnumerationLength(descriptions, Descriptions(DueDateOnlyIssues()));
    EnumerationLength(dueDates, DueDates(DueDateOnlyIssues()));
    TwoByTwoByThree(names, descriptions, dueDates);
  }

  /** Zipping sets of sizes 2, 2 and 3 leaves at most one tuple after the removal. */
  lemma TwoByTwoByThree(names: seq<Option<string>>, descriptions: seq<Option<string>>, dueDates: seq<Option<string>>)
    requires Distinct(names) && |names| == 2 && |descriptions| == 2 && |dueDates| == 3
    ensures Extracted(names, descriptions, dueDates).Ok? ==>
      && |Extracted(names, descriptions, dueDates).value| == 1
      && !((Some("S"), Some("G"), Some("D1")) in Extracted(names, descriptions, dueDates).value &&
           (Some("S"), Some("G"), Some("D2")) in Extracted(names, descriptions, dueDates).value)
  {
    ExtractedShape(names, descriptions, dueDates);
  }

  /**
   * With one issue lacking a sprint, the call can still raise: here None is
   * first among the names but last among the descriptions, so no zipped
   * tuple is `(None, None, None)`.
   */
  lemma UnalignedSentinelRaises()
    ensures var issues := [IssueWith(Milestone(Some("S"), Some("D"), Some("G"))), IssueWith(NoMilestone)];
      && Enumerates([None, Some("S")], Names(issues))
      && Enumerates([Some("G"), None], Descriptions(issues))
      && Enumerates([Some("D"), None], DueDates(issues))
      && Extracted([None, Some("S")], [Some("G"), None], [Some("D"), None]) == Err(SentinelAbsent)
  {
    var issues := [IssueWith(Milestone(Some("S"), Some("D"), Some("G"))), IssueWith(NoMilestone)];
    assert NameOf(issues[0].milestone) == Some("S") && NameOf(issues[1].milestone) == None;
    assert DescriptionOf(issues[0].milestone) == Some("G") && DescriptionOf(issues[1].milestone) == None;
    assert DueDateOf(issues[0].milestone) == Some("D") && DueDateOf(issues[1].milestone) == None;
    var zipped := Zip3([None, Some("S")], [Some("G"), None], [Some("D"), None]);
    assert zipped == [(None, Some("G"), Some("D")), (Some("S"), None, None)];
  }

  /**
   * The evidently intended aggregation: milestones deduplicated as
   * whole (name, description, due date) tuples, in the order issues first
   * carry them, with the no-sprint tuple left out and no failure when it is
   * absent.
   */
  method DistinctMilestones(issues: seq<GitHubIssue>) returns (ms: seq<Triple>)
    ensures Distinct(ms)
    ensures Sentinel !in ms
    ensures forall t :: t in ms <==> t in Triples(issues) && t != Sentinel
  {
    ms := [];
    for i := 0 to |issues|
      invariant Distinct(ms) && Sentinel !in ms
      invariant forall t :: t in ms <==> t != Sentinel && exists j :: 0 <= j < i && TripleOf(issues[j]) == t
    {
      var t := TripleOf(issues[i]);
      if t != Sentinel && t !in ms {
        ms := ms + [t];
      }
    }
  }
}
