/**
 * The decoder for Jira's legacy GreenHopper sprint string
 * (`extract_sprint_fields`). A sprint entry looks like
 * `...Sprint@1a2b[id=1,name=Sprint 1,endDate=2020-01-15,goal=Ship it]`;
 * the decoder takes the first entry of the sprint list, selects the
 * bracketed span with the regular expression `\[(.*)\]`, splits it on `,`
 * and each piece on `=`, and collects key/value pairs into a dictionary.
 */
module SprintDecoder {
  import opened Wrappers
  import opened Text

  /** The three ways the decoder raises. */
  datatype SprintError =
    | NoSprintEntry   // `sprint_data[0]` on an empty list: IndexError
    | NoBracketSpan   // `re.search` found nothing and `.group` is called on None
    | MissingEquals   // a piece without `=`: `key_value[1]` is out of range

  // ---------------------------------------------------------------------
  // The regular expression `\[(.*)\]` under `re.search`.
  // `.` matches any character but a newline, and `.*` is greedy, so from an
  // opening `[` at position a the match ends at the LAST `]` before the next
  // newline. The search tries opening positions from left to right.
  // ---------------------------------------------------------------------

  /** Position of the first newline at or after `i`, or `|s|`: where a `.*` run from `i` must stop. */
  function LineEnd(s: string, i: nat): (e: nat)
    requires i <= |s|
    ensures i <= e <= |s|
    ensures e == |s| || s[e] == '\n'
    ensures forall k :: i <= k < e ==> s[k] != '\n'
    decreases |s| - i
  {
    if i == |s| || s[i] == '\n' then i else LineEnd(s, i + 1)
  }

  /** The largest position in [lo, hi) holding `]`, if any. */
  function LastClose(s: string, lo: nat, hi: nat): (r: Option<nat>)
    requires lo <= hi <= |s|
    ensures r.Some? ==> lo <= r.value < hi && s[r.value] == ']'
    ensures r.Some? ==> forall k :: r.value < k < hi ==> s[k] != ']'
    ensures r.None? ==> forall k :: lo <= k < hi ==> s[k] != ']'
    decreases hi - lo
  {
    if lo == hi then None
    else if s[hi - 1] == ']' then Some(hi - 1)
    else LastClose(s, lo, hi - 1)
  }

  /** No `]` follows position `a` on its own line: an opening `[` at `a` cannot start a match. */
  predicate NoCloseOnLine(s: string, a: nat)
    requires a < |s|
  {
    forall k :: a < k < LineEnd(s, a + 1) ==> s[k] != ']'
  }

  /** The leftmost match of `\[(.*)\]` starting at or after `p`, as the positions of its two brackets. */
  function SpanFrom(s: string, p: nat): (r: Option<(nat, nat)>)
    requires p <= |s|
    ensures r.Some? ==>
      var (a, b) := r.value;
      && p <= a < b < |s| && b < LineEnd(s, a + 1)
      && s[a] == '[' && s[b] == ']'
      && (forall k :: b < k < LineEnd(s, a + 1) ==> s[k] != ']')
      && (forall a' :: p <= a' < a && s[a'] == '[' ==> NoCloseOnLine(s, a'))
    ensures r.None? ==> forall a' :: p <= a' < |s| && s[a'] == '[' ==> NoCloseOnLine(s, a')
    decreases |s| - p
  {
    if p == |s| then None
    else if s[p] == '[' then
      match LastClose(s, p + 1, LineEnd(s, p + 1))
      case Some(b) => Some((p, b))
      case None => SpanFrom(s, p + 1)
    else SpanFrom(s, p + 1)
  }

  /** `re.search(r'\[(.*)\]', s)`: the bracket positions of the match, or None. */
  function Search(s: string): (r: Option<(nat, nat)>)
    ensures r.Some? ==>
      var (a, b) := r.value;
      && a < b < |s| && s[a] == '[' && s[b] == ']'
      && (forall k :: a < k < b ==> s[k] != '\n')
      && (forall a' :: 0 <= a' < a && s[a'] == '[' ==> NoCloseOnLine(s, a'))
    ensures r.None? <==> forall a :: 0 <= a < |s| && s[a] == '[' ==> NoCloseOnLine(s, a)
  {
    SpanFrom(s, 0)
  }

  /** `.group(1)` of that match: the text strictly between the two brackets. */
  function Group(s: string): (g: Option<string>)
    ensures g.Some? <==> Search(s).Some?
    ensures g.Some? ==> '\n' !in g.value
  {
    match Search(s)
    case None => None
    case Some((a, b)) =>
      assert forall k :: a + 1 <= k < b ==> s[k] != '\n';
      Some(s[a + 1..b])
  }

  /**
   * On a single line the match runs from the FIRST `[` to the LAST `]`, and
   * there is one exactly when some `]` follows the first `[`.
   */
  lemma SingleLineSpan(s: string)
    requires '\n' !in s
    ensures Search(s).Some? <==> '[' in s && ']' in s[IndexOf(s, '[') + 1..]
    ensures Search(s).Some? ==>
      && Search(s).value.0 == IndexOf(s, '[')
      && s[Search(s).value.1] == ']'
      && forall k :: Search(s).value.1 < k < |s| ==> s[k] != ']'
  {
    assert forall k :: 0 <= k < |s| ==> s[k] != '\n';
    assert forall i :: 0 <= i <= |s| ==> LineEnd(s, i) == |s|;
    match Search(s)
    case Some((a, b)) =>
      var f := IndexOf(s, '[');
      assert f <= a;
      assert f < b < LineEnd(s, f + 1) && s[b] == ']';
      assert !NoCloseOnLine(s, f);
      assert s[b] == s[f + 1..][b - f - 1];
    case None =>
      if '[' in s {
        var f := IndexOf(s, '[');
        assert NoCloseOnLine(s, f);
        assert forall k :: f < k < |s| ==> s[k] != ']';
      }
  }

  /** The group of `prefix[inner]` on one line, with no `[` before the span, is `inner`, whatever `inner` holds. */
  lemma BracketedGroup(prefix: string, inner: string)
    requires '[' !in prefix && '\n' !in prefix && '\n' !in inner
    ensures Group(prefix + "[" + inner + "]") == Some(inner)
  {
    var s := prefix + "[" + inner + "]";
    assert '\n' !in s by {
      assert forall k :: 0 <= k < |s| ==> s[k] == (if k < |prefix| then prefix[k] else if k == |prefix| then '[' else if k < |s| - 1 then inner[k - |prefix| - 1] else ']');
    }
    var a := |prefix|;
    assert s[a] == '[';
    assert forall k :: 0 <= k < a ==> s[k] == prefix[k];
    assert IndexOf(s, '[') == a;
    assert s[a + 1..][|s| - a - 2] == ']';
    SingleLineSpan(s);
    assert Search(s).value.1 == |s| - 1;
    assert s[a + 1..|s| - 1] == inner;
  }

  /** An empty span `[]` gives one empty field, which has no `=`. */
  lemma EmptyBracketsFail(prefix: string)
    requires '[' !in prefix && '\n' !in prefix
    ensures Decode([prefix + "[]"]) == Err(MissingEquals)
  {
    BracketedGroup(prefix, "");
    assert prefix + "[" + "" + "]" == prefix + "[]";
    assert Split("", ',') == [""];
    HasValueIff("");
  }

  /** A trailing comma leaves an empty last field, which has no `=`. */
  lemma TrailingCommaFails(prefix: string, field: string)
    requires '[' !in prefix && '\n' !in prefix && '\n' !in field && ',' !in field
    ensures Decode([prefix + "[" + field + ",]"]) == Err(MissingEquals)
  {
    BracketedGroup(prefix, field + ",");
    assert prefix + "[" + (field + ",") + "]" == prefix + "[" + field + ",]";
    SplitJoin([field, ""], ',');
    assert Join([field, ""], ',') == field + ",";
    HasValueIff("");
  }

  // ---------------------------------------------------------------------
  // Splitting the span into key/value pairs.
  // ---------------------------------------------------------------------

  /** `key_value = raw_field.split('=')` has an element at index 1. */
  predicate HasValue(field: string)
  {
    |Split(field, '=')| >= 2
  }

  /** `key_value[0]`. */
  function Key(field: string): string
  {
    Split(field, '=')[0]
  }

  /** `key_value[1]`. */
  function Value(field: string): string
    requires HasValue(field)
  {
    Split(field, '=')[1]
  }

  /** A field has a value exactly when it contains `=`. */
  lemma HasValueIff(field: string)
    ensures HasValue(field) <==> '=' in field
  {
    if '=' in field { SplitTail(field, '='); } else { SplitNoSeparator(field, '='); }
  }

  /**
   * The key is the text before the first `=`; the value is the text between
   * the first and the second `=`, so anything from a second `=` on is dropped.
   */
  lemma KeyValueText(field: string)
    ensures Key(field) == Before(field, '=')
    ensures HasValue(field) ==> Value(field) == Before(After(field, '='), '=')
  {
    SplitHead(field, '=');
    HasValueIff(field);
    if '=' in field {
      SplitTail(field, '=');
      SplitHead(After(field, '='), '=');
    }
  }

  /** The dictionary that the loop builds from fields that all have a value; later keys overwrite. */
  function FieldMap(fields: seq<string>): (m: map<string, string>)
    requires forall i :: 0 <= i < |fields| ==> HasValue(fields[i])
    ensures forall i :: 0 <= i < |fields| ==> Key(fields[i]) in m
  {
    if |fields| == 0 then map[]
    else
      var last := fields[|fields| - 1];
      FieldMap(fields[..|fields| - 1])[Key(last) := Value(last)]
  }

  /** Every field has a value exactly when every field contains `=`. */
  lemma AllHaveValues(fields: seq<string>)
    ensures (forall i :: 0 <= i < |fields| ==> HasValue(fields[i])) <==> forall f :: f in fields ==> '=' in f
  {
    forall i | 0 <= i < |fields| ensures HasValue(fields[i]) <==> '=' in fields[i] {
      HasValueIff(fields[i]);
    }
  }

  /** The pieces of the bracketed span of the first sprint entry. */
  function Fields(sprintData: seq<string>): (r: Result<seq<string>, SprintError>)
    ensures r.Ok? ==> |r.value| >= 1
  {
    if |sprintData| == 0 then Err(NoSprintEntry)
    else match Group(sprintData[0])
      case None => Err(NoBracketSpan)
      case Some(g) => Ok(Split(g, ','))
  }

  /** What `extract_sprint_fields(sprint_data)` returns or raises. */
  function Decode(sprintData: seq<string>): (r: Result<map<string, string>, SprintError>)
    ensures r.Ok? <==> Fields(sprintData).Ok? && forall f :: f in Fields(sprintData).value ==> '=' in f
    ensures r.Err? && Fields(sprintData).Ok? ==> r.error == MissingEquals
  {
    match Fields(sprintData)
    case Err(e) => Err(e)
    case Ok(fields) =>
      AllHaveValues(fields);
      if forall i :: 0 <= i < |fields| ==> HasValue(fields[i]) then Ok(FieldMap(fields))
      else Err(MissingEquals)
  }

  /** `extract_sprint_fields`: fills the dictionary field by field. */
  method ExtractSprintFields(sprintData: seq<string>) returns (r: Result<map<string, string>, SprintError>)
    ensures r == Decode(sprintData)
  {
    if |sprintData| == 0 {
      return Err(NoSprintEntry);
    }
    var group := Group(sprintData[0]);
    if group.None? {
      return Err(NoBracketSpan);
    }
    var rawFields := Split(group.value, ',');
    var sprintFields: map<string, string> := map[];
    var i := 0;
    while i < |rawFields|
      invariant 0 <= i <= |rawFields|
      invariant forall j :: 0 <= j < i ==> HasValue(rawFields[j])
      invariant sprintFields == FieldMap(rawFields[..i])
    {
      var keyValue := Split(rawFields[i], '=');
      if |keyValue| < 2 {
        return Err(MissingEquals);
      }
      assert rawFields[..i + 1][..i] == rawFields[..i];
      sprintFields := sprintFields[keyValue[0] := keyValue[1]];
      i := i + 1;
    }
    assert rawFields[..i] == rawFields;
    return Ok(sprintFields);
  }

  // ---------------------------------------------------------------------
  // What the decoded dictionary holds.
  // ---------------------------------------------------------------------

  /** The dictionary's keys are exactly the fields' keys. */
  lemma {:induction false} FieldMapKeys(fields: seq<string>)
    requires forall i :: 0 <= i < |fields| ==> HasValue(fields[i])
    ensures FieldMap(fields).Keys == set i | 0 <= i < |fields| :: Key(fields[i])
  {
    if |fields| > 0 {
      var init := fields[..|fields| - 1];
      FieldMapKeys(init);
      var ks := set i | 0 <= i < |fields| :: Key(fields[i]);
      var ks' := set i | 0 <= i < |init| :: Key(init[i]);
      assert ks == ks' + {Key(fields[|fields| - 1])} by {
        forall k | k in ks ensures k in ks' + {Key(fields[|fields| - 1])} {
          var i :| 0 <= i < |fields| && Key(fields[i]) == k;
          if i < |init| { assert Key(init[i]) == k; }
        }
        forall k | k in ks' ensures k in ks {
          var i :| 0 <= i < |init| && Key(init[i]) == k;
          assert Key(fields[i]) == k;
        }
      }
    }
  }

  /** For a repeated key the last field carrying it wins. */
  lemma {:induction false} FieldMapLastWins(fields: seq<string>, j: nat)
    requires forall i :: 0 <= i < |fields| ==> HasValue(fields[i])
    requires j < |fields|
    requires forall k :: j < k < |fields| ==> Key(fields[k]) != Key(fields[j])
    ensures Key(fields[j]) in FieldMap(fields)
    ensures FieldMap(fields)[Key(fields[j])] == Value(fields[j])
  {
    if j < |fields| - 1 {
      var init := fields[..|fields| - 1];
      FieldMapLastWins(init, j);
    }
  }

  /** Only the first sprint entry is read: later entries change nothing. */
  lemma OnlyFirstEntryRead(first: string, rest: seq<string>)
    ensures Decode([first] + rest) == Decode([first])
  {
    assert ([first] + rest)[0] == first;
  }

  /** The decoder raises exactly in the cases of `SprintError`, and in no other. */
  lemma DecodeFailures(sprintData: seq<string>)
    ensures Decode(sprintData) == Err(NoSprintEntry) <==> |sprintData| == 0
    ensures Decode(sprintData) == Err(NoBracketSpan) <==> |sprintData| > 0 && Search(sprintData[0]).None?
    ensures Decode(sprintData) == Err(MissingEquals) <==>
      && |sprintData| > 0
      && Group(sprintData[0]).Some?
      && exists f :: f in Split(Group(sprintData[0]).value, ',') && '=' !in f
  {
    if |sprintData| > 0 && Group(sprintData[0]).Some? {
      var fields := Split(Group(sprintData[0]).value, ',');
      forall i | 0 <= i < |fields| ensures HasValue(fields[i]) <==> '=' in fields[i] {
        HasValueIff(fields[i]);
      }
    }
  }
}
