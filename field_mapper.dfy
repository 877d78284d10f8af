/**
 * The pure part of `map_issue_fields`: one Jira issue, with the comments
 * already fetched, becomes one GitHub-shaped issue record, or the mapping
 * raises (a malformed sprint string, an assignee missing from the user table).
 */
module FieldMapper {
  import opened Wrappers
  import opened Text
  import opened SprintDecoder

  /** A Jira comment as `jira_api.comments` gives it (the author in its printed form). */
  datatype Comment = Comment(author: string, created: string, body: string)

  datatype Project = Project(key: string, name: string)

  /** The Jira issue fields the mapping reads. */
  datatype JiraIssue = JiraIssue(
    key: string,
    summary: string,
    description: Option<string>,
    statusName: string,
    statusCategoryKey: string,
    assignee: Option<string>,      // the assignee's key, when the issue has an assignee
    labels: seq<string>,
    project: Project,
    sprint: Option<seq<string>>,   // customfield_10020: the GreenHopper sprint strings
    comments: seq<Comment>)

  /** GitHub issue state. */
  datatype State = Open | Closed

  /** The assignee handed to GitHub: `github.GithubObject.NotSet`, or a GitHub login. */
  datatype Assignee = NotSet | Login(login: string)

  /**
   * The milestone dictionary: `{}` when the issue has no sprint, otherwise
   * the three entries read from the decoded sprint, each None when absent.
   */
  datatype MilestoneRecord =
    | NoMilestone
    | Milestone(name: Option<string>, dueDate: Option<string>, description: Option<string>)

  /** The dictionary `map_issue_fields` returns. */
  datatype GitHubIssue = GitHubIssue(
    jiraId: string,
    title: string,
    body: string,
    comments: seq<string>,
    assignee: Assignee,
    labels: seq<string>,
    project: Project,
    milestone: MilestoneRecord,
    state: State,
    status: string)

  /** Why the mapping of one issue raises. */
  datatype MapError =
    | SprintFailure(cause: SprintError)   // raised inside `extract_sprint_fields`
    | UnknownAssignee(key: string)        // KeyError from `USER_MAPPING[...]`

  /** `USER_MAPPING`, the static Jira-to-GitHub user table. */
  const UserMapping: map<string, string> := map["jira_username" := "github_username"]

  /** Python truthiness of an optional string: None and "" are false. */
  predicate Truthy(s: Option<string>)
  {
    s.Some? && s.value != ""
  }

  /** Python truthiness of the sprint field: None and [] are false. */
  predicate SprintTruthy(sprint: Option<seq<string>>)
  {
    sprint.Some? && sprint.value != []
  }

  /** `dict.get(k)`. */
  function Get(m: map<string, string>, k: string): (r: Option<string>)
    ensures r.Some? <==> k in m
    ensures r.Some? ==> r.value == m[k]
  {
    if k in m then Some(m[k]) else None
  }

  // ---------------------------------------------------------------------
  // State, milestone, assignee, body and comments.
  // ---------------------------------------------------------------------

  /** The issue is closed exactly when its status category key is `done`. */
  function StateOf(statusCategoryKey: string): (r: State)
    ensures r == Closed <==> statusCategoryKey == "done"
    ensures r == Open <==> statusCategoryKey != "done"
  {
    if statusCategoryKey == "done" then Closed else Open
  }

  /**
   * The milestone record: `{}` exactly when the sprint field is falsy;
   * otherwise built from the decoded sprint string, whose failures propagate.
   */
  function MilestoneOf(sprint: Option<seq<string>>): (r: Result<MilestoneRecord, SprintError>)
    ensures r == Ok(NoMilestone) <==> !SprintTruthy(sprint)
    ensures r.Err? <==> SprintTruthy(sprint) && Decode(sprint.value).Err?
    ensures r.Err? ==> r.error == Decode(sprint.value).error
    ensures SprintTruthy(sprint) && Decode(sprint.value).Ok? ==>
      var fields := Decode(sprint.value).value;
      r == Ok(Milestone(Get(fields, "name"), Get(fields, "endDate"), Get(fields, "goal")))
  {
    if !SprintTruthy(sprint) then Ok(NoMilestone)
    else match Decode(sprint.value)
      case Err(e) => Err(e)
      case Ok(fields) =>
        Ok(Milestone(Get(fields, "name"), Get(fields, "endDate"), Get(fields, "goal")))
  }

  /** The assignee: NotSet when there is none, else the table's login; a key missing from the table raises. */
  function AssigneeOf(assignee: Option<string>, users: map<string, string>): (r: Result<Assignee, string>)
    ensures r == Ok(NotSet) <==> assignee.None?
    ensures r.Err? <==> assignee.Some? && assignee.value !in users
    ensures r.Err? ==> r.error == assignee.value
    ensures r.Ok? && r.value.Login? ==> assignee.Some? && users[assignee.value] == r.value.login
  {
    match assignee
    case None => Ok(NotSet)
    case Some(k) => if k in users then Ok(Login(users[k])) else Err(k)
  }

  /** With the table as shipped, the only assignee that maps is `jira_username`. */
  lemma ShippedUserTable(key: string)
    ensures AssigneeOf(Some(key), UserMapping) == (if key == "jira_username" then Ok(Login("github_username")) else Err(key))
  {
  }

  /** The provenance line that opens every migrated body. */
  function Marker(key: string): string
  {
    "Migrated from Jira issue " + key
  }

  /**
   * The issue body: the provenance line, then a newline and the description
   * when the description is non-empty; the line alone otherwise.
   */
  function Body(key: string, description: Option<string>): (r: string)
    ensures |Marker(key)| <= |r| && r[..|Marker(key)|] == Marker(key)
    ensures r == Marker(key) <==> !Truthy(description)
    ensures Truthy(description) ==> r[|Marker(key)|] == '\n' && r[|Marker(key)| + 1..] == description.value
  {
    if Truthy(description) then Marker(key) + "\n" + description.value else Marker(key)
  }

  /** Reads the description back out of a body for the issue `key`. */
  function DescriptionIn(body: string, key: string): Option<string>
  {
    var m := Marker(key);
    if |body| > |m| + 1 then Some(body[|m| + 1..]) else None
  }

  /** The body keeps the description: it can be read back, and only an empty or absent one is lost. */
  lemma BodyRoundTrip(key: string, description: Option<string>)
    ensures DescriptionIn(Body(key, description), key) == (if Truthy(description) then description else None)
  {
  }

  /** One formatted comment: `Author: <a>\nCreated: <c>\n\n<body>`. */
  function FormatComment(c: Comment): (r: string)
    ensures |"Author: " + c.author + "\n"| <= |r| && r[..|"Author: " + c.author + "\n"|] == "Author: " + c.author + "\n"
    ensures |c.body| <= |r| && r[|r| - |c.body|..] == c.body
  {
    "Author: " + c.author + "\nCreated: " + c.created + "\n\n" + c.body
  }

  /** Splits `tag + line + "\n" + rest` into `line` and `rest`; None when `s` does not start that way. */
  function TaggedLine(s: string, tag: string): Option<(string, string)>
  {
    if |s| < |tag| || s[..|tag|] != tag || '\n' !in s[|tag|..] then None
    else
      var r := s[|tag|..];
      var i := IndexOf(r, '\n');
      Some((r[..i], r[i + 1..]))
  }

  lemma TaggedLineOf(tag: string, line: string, rest: string)
    requires '\n' !in line
    ensures TaggedLine(tag + line + "\n" + rest, tag) == Some((line, rest))
  {
    var s := tag + line + "\n" + rest;
    assert s[..|tag|] == tag;
    assert s[|tag|..] == line + ("\n" + rest);
    IndexOfAfterPrefix(line, "\n" + rest, '\n');
    assert (line + ("\n" + rest))[..|line|] == line;
    assert (line + ("\n" + rest))[|line| + 1..] == rest;
  }

  /** Reads a formatted comment back into its three parts. */
  function ParseComment(s: string): Option<Comment>
  {
    match TaggedLine(s, "Author: ")
    case None => None
    case Some((author, r)) =>
      match TaggedLine(r, "Created: ")
      case None => None
      case Some((created, r')) =>
        if |r'| > 0 && r'[0] == '\n' then Some(Comment(author, created, r'[1..])) else None
  }

  /** Formatting loses nothing when author and timestamp are single-line. */
  lemma CommentRoundTrip(c: Comment)
    requires '\n' !in c.author && '\n' !in c.created
    ensures ParseComment(FormatComment(c)) == Some(c)
  {
    var r' := "\n" + c.body;
    var r := "Created: " + c.created + "\n" + r';
    assert FormatComment(c) == "Author: " + c.author + "\n" + r;
    TaggedLineOf("Author: ", c.author, r);
    TaggedLineOf("Created: ", c.created, r');
    assert r'[1..] == c.body;
  }

  /** The comment loop: one formatted string per comment, in order. */
  method FormatComments(raw: seq<Comment>) returns (comments: seq<string>)
    ensures |comments| == |raw|
    ensures forall i :: 0 <= i < |raw| ==> comments[i] == FormatComment(raw[i])
  {
    comments := [];
    for i := 0 to |raw|
      invariant |comments| == i
      invariant forall k :: 0 <= k < i ==> comments[k] == FormatComment(raw[k])
    {
      comments := comments + [FormatComment(raw[i])];
    }
  }

  // ---------------------------------------------------------------------
  // The whole record.
  // ---------------------------------------------------------------------

  /**
   * What `map_issue_fields` returns or raises. The sprint is decoded before
   * the assignee is looked up, so a sprint failure is the one reported.
   */
  function MappedIssue(issue: JiraIssue): (r: Result<GitHubIssue, MapError>)
    ensures r.Err? <==>
      || (SprintTruthy(issue.sprint) && Decode(issue.sprint.value).Err?)
      || (issue.assignee.Some? && issue.assignee.value !in UserMapping)
    ensures r.Err? && SprintTruthy(issue.sprint) && Decode(issue.sprint.value).Err? ==>
      r.error == SprintFailure(Decode(issue.sprint.value).error)
    ensures r.Err? && !(SprintTruthy(issue.sprint) && Decode(issue.sprint.value).Err?) ==>
      issue.assignee.Some? && r.error == UnknownAssignee(issue.assignee.value)
    ensures r.Ok? ==>
      && r.value.jiraId == issue.key
      && r.value.title == issue.summary
      && r.value.labels == issue.labels
      && r.value.project == issue.project
      && r.value.status == issue.statusName
      && (r.value.state == Closed <==> issue.statusCategoryKey == "done")
      && MilestoneOf(issue.sprint) == Ok(r.value.milestone)
      && (r.value.milestone == NoMilestone <==> !SprintTruthy(issue.sprint))
      && AssigneeOf(issue.assignee, UserMapping) == Ok(r.value.assignee)
      && (r.value.assignee == NotSet <==> issue.assignee.None?)
      && r.value.body == Body(issue.key, issue.description)
      && |r.value.comments| == |issue.comments|
      && forall i :: 0 <= i < |issue.comments| ==> r.value.comments[i] == FormatComment(issue.comments[i])
  {
    match MilestoneOf(issue.sprint)
    case Err(e) => Err(SprintFailure(e))
    case Ok(milestone) =>
      match AssigneeOf(issue.assignee, UserMapping)
      case Err(k) => Err(UnknownAssignee(k))
      case Ok(assignee) =>
        Ok(GitHubIssue(
          issue.key, issue.summary, Body(issue.key, issue.description),
          seq(|issue.comments|, i requires 0 <= i < |issue.comments| => FormatComment(issue.comments[i])),
          assignee, issue.labels, issue.project, milestone,
          StateOf(issue.statusCategoryKey), issue.statusName))
  }

  /** `map_issue_fields`, step by step as the source does it. */
  method MapIssueFields(issue: JiraIssue) returns (r: Result<GitHubIssue, MapError>)
    ensures r == MappedIssue(issue)
  {
    var comments := FormatComments(issue.comments);
    var state := StateOf(issue.statusCategoryKey);

    var milestone := NoMilestone;
    if SprintTruthy(issue.sprint) {
      var sprintFields := ExtractSprintFields(issue.sprint.value);
      if sprintFields.Err? {
        return Err(SprintFailure(sprintFields.error));
      }
      milestone := Milestone(Get(sprintFields.value, "name"),
                             Get(sprintFields.value, "endDate"),
                             Get(sprintFields.value, "goal"));
    }

    var assignee := NotSet;
    if issue.assignee.Some? {
      if issue.assignee.value !in UserMapping {
        return Err(UnknownAssignee(issue.assignee.value));
      }
      assignee := Login(UserMapping[issue.assignee.value]);
    }

    var body := Body(issue.key, issue.description);
    assert comments == seq(|issue.comments|, i requires 0 <= i < |issue.comments| => FormatComment(issue.comments[i]));
    r := Ok(GitHubIssue(issue.key, issue.summary, body, comments, assignee,
                        issue.labels, issue.project, milestone, state, issue.statusName));
  }

  // ---------------------------------------------------------------------
  // The sprint strings Jira writes, and the milestone each one gives.
  // ---------------------------------------------------------------------

  /** A sprint key or value with no `,`, no `=` and no newline. */
  predicate Plain(v: string)
  {
    '=' !in v && ',' !in v && '\n' !in v
  }

  /** Every key and every value of the list is plain. */
  predicate PlainPairs(pairs: seq<(string, string)>)
  {
    forall i :: 0 <= i < |pairs| ==> Plain(pairs[i].0) && Plain(pairs[i].1)
  }

  /** One `key=value` field. */
  function FieldText(p: (string, string)): string
  {
    p.0 + "=" + p.1
  }

  /** The fields of a list of pairs, in order. */
  function FieldsOf(pairs: seq<(string, string)>): (fs: seq<string>)
    ensures |fs| == |pairs|
  {
    seq(|pairs|, i requires 0 <= i < |pairs| => FieldText(pairs[i]))
  }

  /**
   * A sprint entry as GreenHopper writes it: `<prefix>[k1=v1,k2=v2,…]`, with
   * any keys (`id`, `rapidViewId`, `state`, `name`, `startDate`, `endDate`,
   * `completeDate`, `sequence`, `goal`, …) in any order.
   */
  function SprintEntry(prefix: string, pairs: seq<(string, string)>): string
    requires |pairs| >= 1
  {
    prefix + "[" + Join(FieldsOf(pairs), ',') + "]"
  }

  /**
   * The value the LAST pair with key `k` carries, or None when no pair has
   * that key: the reference for what a dictionary filled from the pairs in
   * order holds.
   */
  function LastValue(pairs: seq<(string, string)>, k: string): (r: Option<string>)
    ensures r.None? <==> forall i :: 0 <= i < |pairs| ==> pairs[i].0 != k
    ensures r.Some? ==> exists i :: 0 <= i < |pairs| && pairs[i] == (k, r.value)
                                   && forall j :: i < j < |pairs| ==> pairs[j].0 != k
    decreases |pairs|
  {
    if |pairs| == 0 then None
    else if pairs[|pairs| - 1].0 == k then Some(pairs[|pairs| - 1].1)
    else
      var r := LastValue(pairs[..|pairs| - 1], k);
      assert forall i :: 0 <= i < |pairs| - 1 ==> pairs[..|pairs| - 1][i] == pairs[i];
      r
  }

  /** `k=v` with plain `k` and `v` has key `k` and value `v`, and no `,` or newline. */
  lemma PairSplits(k: string, v: string)
    requires Plain(k) && Plain(v)
    ensures HasValue(k + "=" + v) && Key(k + "=" + v) == k && Value(k + "=" + v) == v
    ensures '\n' !in k + "=" + v && ',' !in k + "=" + v
  {
    SplitJoin([k, v], '=');
    JoinAvoids([k, v], '=', '\n');
    JoinAvoids([k, v], '=', ',');
    assert Join([k, v], '=') == k + "=" + v;
  }

  /** Each field of plain pairs has the pair's key and value. */
  lemma FieldsKeyed(pairs: seq<(string, string)>)
    requires PlainPairs(pairs)
    ensures forall i :: 0 <= i < |pairs| ==>
      && HasValue(FieldsOf(pairs)[i])
      && Key(FieldsOf(pairs)[i]) == pairs[i].0
      && Value(FieldsOf(pairs)[i]) == pairs[i].1
      && '\n' !in FieldsOf(pairs)[i] && ',' !in FieldsOf(pairs)[i]
  {
    forall i | 0 <= i < |pairs|
      ensures && HasValue(FieldsOf(pairs)[i])
              && Key(FieldsOf(pairs)[i]) == pairs[i].0
              && Value(FieldsOf(pairs)[i]) == pairs[i].1
              && '\n' !in FieldsOf(pairs)[i] && ',' !in FieldsOf(pairs)[i]
    {
      PairSplits(pairs[i].0, pairs[i].1);
    }
  }

  /** The dictionary filled from the fields of plain pairs gives each key its last value, and None for a key no pair has. */
  lemma {:induction false} FieldMapOfPairs(pairs: seq<(string, string)>, k: string)
    requires PlainPairs(pairs)
    ensures && (forall i :: 0 <= i < |pairs| ==> HasValue(FieldsOf(pairs)[i]))
            && Get(FieldMap(FieldsOf(pairs)), k) == LastValue(pairs, k)
    decreases |pairs|
  {
    FieldsKeyed(pairs);
    if |pairs| > 0 {
      var init := pairs[..|pairs| - 1];
      assert PlainPairs(init) by {
        assert forall i :: 0 <= i < |init| ==> init[i] == pairs[i];
      }
      FieldMapOfPairs(init, k);
      assert FieldsOf(pairs)[..|pairs| - 1] == FieldsOf(init);
    }
  }

  /** Such an entry decodes to the dictionary of its fields. */
  lemma EntryDecodes(prefix: string, pairs: seq<(string, string)>)
    requires '[' !in prefix && '\n' !in prefix
    requires |pairs| >= 1 && PlainPairs(pairs)
    ensures && (forall i :: 0 <= i < |pairs| ==> HasValue(FieldsOf(pairs)[i]))
            && Decode([SprintEntry(prefix, pairs)]) == Ok(FieldMap(FieldsOf(pairs)))
  {
    var fields := FieldsOf(pairs);
    FieldsKeyed(pairs);
    JoinAvoids(fields, ',', '\n');
    SplitJoin(fields, ',');
    BracketedGroup(prefix, Join(fields, ','));
  }

  /**
   * A sprint entry of plain `key=value` fields, in any order and with any
   * other keys, gives the milestone whose name, due date and description are
   * the last `name`, `endDate` and `goal` values, each None when the entry
   * has no such key.
   */
  lemma SprintEntryMilestone(prefix: string, pairs: seq<(string, string)>)
    requires '[' !in prefix && '\n' !in prefix
    requires |pairs| >= 1 && PlainPairs(pairs)
    ensures MilestoneOf(Some([SprintEntry(prefix, pairs)]))
         == Ok(Milestone(LastValue(pairs, "name"), LastValue(pairs, "endDate"), LastValue(pairs, "goal")))
  {
    EntryDecodes(prefix, pairs);
    FieldMapOfPairs(pairs, "name");
    FieldMapOfPairs(pairs, "endDate");
    FieldMapOfPairs(pairs, "goal");
  }

  /** The last pair with key `k` supplies its value when no later pair repeats `k`. */
  lemma {:induction false} LastValueAt(front: seq<(string, string)>, k: string, v: string, back: seq<(string, string)>)
    requires forall i :: 0 <= i < |back| ==> back[i].0 != k
    ensures LastValue(front + [(k, v)] + back, k) == Some(v)
    decreases |back|
  {
    var pairs := front + [(k, v)] + back;
    if |back| > 0 {
      var init := back[..|back| - 1];
      LastValueAt(front, k, v, init);
      assert pairs[..|pairs| - 1] == front + [(k, v)] + init;
    }
  }

  /** The pairs of a typical GreenHopper entry. */
  function ExamplePairs(): seq<(string, string)>
  {
    [("id", "7"), ("rapidViewId", "3"), ("state", "CLOSED"),
     ("name", "Sprint 1"), ("startDate", "2020-01-01"), ("endDate", "2020-01-15"),
     ("completeDate", "<null>"), ("sequence", "7"), ("goal", "Ship it")]
  }

  lemma ExamplePlainA()
    ensures Plain("id") && Plain("7") && Plain("rapidViewId") && Plain("3")
  {
  }

  lemma ExamplePlainB()
    ensures Plain("state") && Plain("CLOSED") && Plain("name") && Plain("Sprint 1")
  {
  }

  lemma ExamplePlainC()
    ensures Plain("startDate") && Plain("2020-01-01") && Plain("endDate") && Plain("2020-01-15")
  {
  }

  lemma ExamplePlainD()
    ensures Plain("completeDate") && Plain("<null>") && Plain("sequence") && Plain("goal") && Plain("Ship it")
  {
  }

  /** Its keys and values are plain. */
  lemma ExamplePlain()
    ensures PlainPairs(ExamplePairs())
  {
    ExamplePlainA();
    ExamplePlainB();
    ExamplePlainC();
    ExamplePlainD();
  }

  /** Its last `name`, `endDate` and `goal` values. */
  lemma ExampleValues()
    ensures LastValue(ExamplePairs(), "name") == Some("Sprint 1")
    ensures LastValue(ExamplePairs(), "endDate") == Some("2020-01-15")
    ensures LastValue(ExamplePairs(), "goal") == Some("Ship it")
  {
    var a := [("id", "7"), ("rapidViewId", "3"), ("state", "CLOSED")];
    var b := [("startDate", "2020-01-01")];
    var c := [("completeDate", "<null>"), ("sequence", "7")];
    var pairs := ExamplePairs();
    LastValueAt(a, "name", "Sprint 1", b + [("endDate", "2020-01-15")] + c + [("goal", "Ship it")]);
    assert pairs == a + [("name", "Sprint 1")] + (b + [("endDate", "2020-01-15")] + c + [("goal", "Ship it")]);
    LastValueAt(a + [("name", "Sprint 1")] + b, "endDate", "2020-01-15", c + [("goal", "Ship it")]);
    assert pairs == a + [("name", "Sprint 1")] + b + [("endDate", "2020-01-15")] + (c + [("goal", "Ship it")]);
    LastValueAt(a + [("name", "Sprint 1")] + b + [("endDate", "2020-01-15")] + c, "goal", "Ship it", []);
    assert pairs == a + [("name", "Sprint 1")] + b + [("endDate", "2020-01-15")] + c + [("goal", "Ship it")] + [];
  }

  /**
   * A typical GreenHopper entry,
   * `Sprint@1b2c[id=7,rapidViewId=3,state=CLOSED,name=Sprint 1,startDate=2020-01-01,endDate=2020-01-15,completeDate=<null>,sequence=7,goal=Ship it]`,
   * gives milestone `Sprint 1`, due `2020-01-15`, described `Ship it`.
   */
  lemma SprintExample()
    ensures MilestoneOf(Some([SprintEntry("Sprint@1b2c", ExamplePairs())]))
         == Ok(Milestone(Some("Sprint 1"), Some("2020-01-15"), Some("Ship it")))
  {
    ExamplePlain();
    ExampleValues();
    SprintEntryMilestone("Sprint@1b2c", ExamplePairs());
  }

  /** An entry without a `goal` key gives a milestone with no description. */
  lemma EntryWithoutGoal(prefix: string, name: string, end: string)
    requires '[' !in prefix && '\n' !in prefix && Plain(name) && Plain(end)
    ensures MilestoneOf(Some([SprintEntry(prefix, [("name", name), ("endDate", end)])]))
         == Ok(Milestone(Some(name), Some(end), None))
  {
    var pairs := [("name", name), ("endDate", end)];
    SprintEntryMilestone(prefix, pairs);
    assert LastValue(pairs, "goal") == None;
  }
}
