/** The optimistic side of editing an issue's fields (`onMutate` and
    `onError` of `useUpdateIssueMutation` in
    src/api/update-issue.mutation.ts): the cached issue gets the new field
    values at once. A new value that is an object (or `null`) is spread over
    the field it replaces; any other value replaces the field. */
module UpdateIssue {
  import opened JsString
  import opened Issues

  /** The id of the issue and the new field values, as the entries of the
      `fields` record in their iteration order. */
  datatype Variables = Variables(issueId: string, fields: seq<(string, Json)>)

  /** `issue.fields[key]`, absent when the issue has no such field. */
  function Lookup(fields: map<string, Json>, key: string): Option<Json> {
    if key in fields then Some(fields[key]) else None
  }

  /** The entries `{...items}` copies from an array or a string: one per
      position, keyed by the position's decimal form. */
  function Indexed(items: seq<Json>): map<string, Json> {
    if items == [] then map[]
    else Indexed(items[..|items| - 1])[NatToString(|items| - 1) := items[|items| - 1]]
  }

  /** The entries `{...value}` copies: an object's own entries, the
      positions of an array or of a string's characters, and nothing from
      `null`, `undefined`, numbers or booleans. */
  function Spread(value: Option<Json>): (r: map<string, Json>)
    ensures value.Some? && value.value.JObj? ==> r == value.value.entries
    ensures value.None? || value == Some(JNull) || (value.Some? && (value.value.JNum? || value.value.JBool?))
            ==> r == map[]
  {
    match value
    case None => map[]
    case Some(JObj(entries)) => entries
    case Some(JArr(items)) => Indexed(items)
    case Some(JStr(s)) => Indexed(seq(|s|, i requires 0 <= i < |s| => JStr([s[i]])))
    case Some(_) => map[]
  }

  /** `typeof value === "object" && !Array.isArray(value)`, which holds for
      `null` too. */
  predicate IsPlainObject(value: Json) {
    value.JObj? || value.JNull?
  }

  /** The new value of one field: an object (or `null`) is spread over the
      existing value, so its keys win and the others stay; anything else
      replaces the field. */
  function Merged(existing: Option<Json>, value: Json): (r: Json)
    ensures !IsPlainObject(value) ==> r == value
    ensures IsPlainObject(value) ==> r.JObj?
    ensures value.JObj? ==> forall k :: k in value.entries ==> k in r.entries && r.entries[k] == value.entries[k]
    ensures value.JObj? && existing.Some? && existing.value.JObj? ==>
              r.entries.Keys == existing.value.entries.Keys + value.entries.Keys
              && forall k :: k in existing.value.entries && k !in value.entries ==>
                   r.entries[k] == existing.value.entries[k]
    ensures value.JNull? && existing.Some? && existing.value.JObj? ==> r == existing.value
    ensures value.JObj? && (existing.None? || existing == Some(JNull)) ==> r == value
  {
    if IsPlainObject(value) then JObj(Spread(existing) + Spread(Some(value))) else value
  }

  /** Merging the same value twice gives what merging it once gave. */
  lemma MergedTwice(existing: Option<Json>, value: Json)
    ensures Merged(Some(Merged(existing, value)), value) == Merged(existing, value)
  {
    if value.JObj? {
      var once := Spread(existing) + value.entries;
      assert once + value.entries == once;
    } else if value.JNull? {
      assert Spread(existing) + map[] == Spread(existing);
    }
  }

  /** `updatedFields` after the first `n` entries. */
  function Updates(current: map<string, Json>, entries: seq<(string, Json)>, n: nat): map<string, Json>
    requires n <= |entries|
  {
    if n == 0 then map[]
    else
      var (key, value) := entries[n - 1];
      Updates(current, entries, n - 1)[key := Merged(Lookup(current, key), value)]
  }

  /** The keys of `updatedFields` are exactly the keys of the new values... */
  lemma {:induction false} UpdatesKeys(current: map<string, Json>, entries: seq<(string, Json)>, n: nat)
    requires n <= |entries|
    ensures Updates(current, entries, n).Keys == set i | 0 <= i < n :: entries[i].0
  {
    if n > 0 {
      UpdatesKeys(current, entries, n - 1);
      assert (set i | 0 <= i < n :: entries[i].0)
             == (set i | 0 <= i < n - 1 :: entries[i].0) + {entries[n - 1].0};
    }
  }

  /** ...and each holds the merge of the last value given for it. */
  lemma {:induction false} UpdatesLast(current: map<string, Json>, entries: seq<(string, Json)>, n: nat, i: nat)
    requires i < n <= |entries|
    requires forall j :: i < j < n ==> entries[j].0 != entries[i].0
    ensures entries[i].0 in Updates(current, entries, n)
    ensures Updates(current, entries, n)[entries[i].0] == Merged(Lookup(current, entries[i].0), entries[i].1)
  {
    if i < n - 1 {
      UpdatesLast(current, entries, n - 1, i);
    }
  }

  /** The `for` loop over the entries of `variables.fields`. */
  method UpdatedFields(current: map<string, Json>, entries: seq<(string, Json)>)
    returns (updatedFields: map<string, Json>)
    ensures updatedFields == Updates(current, entries, |entries|)
  {
    updatedFields := map[];
    var i := 0;
    while i < |entries|
      invariant 0 <= i <= |entries|
      invariant updatedFields == Updates(current, entries, i)
    {
      var (key, value) := entries[i];
      if IsPlainObject(value) {
        updatedFields := updatedFields[key := JObj(Spread(Lookup(current, key)) + Spread(Some(value)))];
      } else {
        updatedFields := updatedFields[key := value];
      }
      i := i + 1;
    }
  }

  /** The matching issue after the update: `{...issue.fields, ...updatedFields}`. */
  function UpdatedIssue(issue: Issue, entries: seq<(string, Json)>): Issue {
    issue.(fields := issue.fields + Updates(issue.fields, entries, |entries|))
  }

  /** A field the update does not name keeps its value (or stays absent). */
  lemma UnnamedFieldKept(issue: Issue, entries: seq<(string, Json)>, key: string)
    requires forall i :: 0 <= i < |entries| ==> entries[i].0 != key
    ensures Lookup(UpdatedIssue(issue, entries).fields, key) == Lookup(issue.fields, key)
  {
    UpdatesKeys(issue.fields, entries, |entries|);
    assert key !in Updates(issue.fields, entries, |entries|);
  }

  /** A field the update names holds the merge of the last value given for
      it with the field's old value. */
  lemma NamedFieldMerged(issue: Issue, entries: seq<(string, Json)>, i: nat)
    requires i < |entries|
    requires forall j :: i < j < |entries| ==> entries[j].0 != entries[i].0
    ensures Lookup(UpdatedIssue(issue, entries).fields, entries[i].0)
            == Some(Merged(Lookup(issue.fields, entries[i].0), entries[i].1))
  {
    UpdatesLast(issue.fields, entries, |entries|, i);
  }

  /** Applying the same update twice gives what applying it once gave. */
  lemma UpdatedIssueTwice(issue: Issue, entries: seq<(string, Json)>)
    ensures UpdatedIssue(UpdatedIssue(issue, entries), entries) == UpdatedIssue(issue, entries)
  {
    var once := UpdatedIssue(issue, entries);
    var twice := UpdatedIssue(once, entries);
    UpdatesKeys(issue.fields, entries, |entries|);
    UpdatesKeys(once.fields, entries, |entries|);
    forall key | key in twice.fields || key in once.fields
      ensures key in twice.fields && key in once.fields && twice.fields[key] == once.fields[key]
    {
      if exists i :: 0 <= i < |entries| && entries[i].0 == key {
        var i := LastWithKey(entries, key);
        UpdatesLast(issue.fields, entries, |entries|, i);
        UpdatesLast(once.fields, entries, |entries|, i);
        MergedTwice(Lookup(issue.fields, key), entries[i].1);
      }
    }
    assert twice.fields == once.fields;
  }

  /** The index of the last entry for `key`, when there is one. */
  lemma LastWithKey(entries: seq<(string, Json)>, key: string) returns (i: nat)
    requires exists i :: 0 <= i < |entries| && entries[i].0 == key
    ensures i < |entries| && entries[i].0 == key
    ensures forall j :: i < j < |entries| ==> entries[j].0 != key
  {
    i := |entries| - 1;
    while entries[i].0 != key
      invariant 0 <= i < |entries|
      invariant forall j :: i < j < |entries| ==> entries[j].0 != key
      invariant exists j :: 0 <= j <= i && entries[j].0 == key
      decreases i
    {
      i := i - 1;
    }
  }

  /** The list written to the cache by `onMutate`. */
  function Updated(issues: seq<Issue>, v: Variables): seq<Issue> {
    MapMatching(issues, v.issueId, (issue: Issue) => UpdatedIssue(issue, v.fields))
  }

  /** Only the issues with the updated id change; length, order, ids and
      keys are kept; a repeated update changes nothing more. */
  lemma UpdatedChangesOnlyTarget(issues: seq<Issue>, v: Variables)
    ensures |Updated(issues, v)| == |issues|
    ensures forall i :: 0 <= i < |issues| ==>
              Updated(issues, v)[i].id == issues[i].id && Updated(issues, v)[i].key == issues[i].key
    ensures forall i :: 0 <= i < |issues| && issues[i].id != v.issueId ==> Updated(issues, v)[i] == issues[i]
    ensures Updated(Updated(issues, v), v) == Updated(issues, v)
  {
    var once := Updated(issues, v);
    forall i | 0 <= i < |issues|
      ensures Updated(once, v)[i] == once[i]
    {
      if issues[i].id == v.issueId {
        UpdatedIssueTwice(issues[i], v.fields);
      }
    }
  }

  /** `onMutate`: rewrite the cached list issue by issue and hand back the
      list as it was for `onError`. */
  method OnMutate(cache: QueryCache, v: Variables) returns (previousIssues: seq<Issue>)
    modifies cache
    ensures previousIssues == old(cache.issues)
    ensures cache.issues == Updated(old(cache.issues), v)
  {
    var issues := cache.issues;
    var newIssues: seq<Issue> := [];
    var i := 0;
    while i < |issues|
      invariant 0 <= i <= |issues|
      invariant newIssues == Updated(issues, v)[..i]
    {
      var issue := issues[i];
      if issue.id == v.issueId {
        var updatedFields := UpdatedFields(issue.fields, v.fields);
        newIssues := newIssues + [issue.(fields := issue.fields + updatedFields)];
      } else {
        newIssues := newIssues + [issue];
      }
      i := i + 1;
    }
    cache.issues := newIssues;
    previousIssues := issues;
  }

  /** A failed update puts the list back as it was before `onMutate`. */
  method UpdateFails(cache: QueryCache, v: Variables)
    modifies cache
    ensures cache.issues == old(cache.issues)
  {
    var previousIssues := OnMutate(cache, v);
    cache.Restore(Some(previousIssues));
  }
}
