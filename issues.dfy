/** Issues as the query cache holds them under the key `issues` (the
    `Issue` type of src/api/get-issues.query.ts and the `issue` schema of
    src/api/issue-query.ts): an id, a key and a record of fields whose values
    are arbitrary JSON. This module also holds the cache entry itself, which
    both optimistic mutations (src/api/transition-issue.mutation.ts and
    src/api/update-issue.mutation.ts) rewrite and roll back. */
module Issues {
  import opened JsString

  /** A JSON value. Numbers are kept as integers: no rule modelled here does
      arithmetic on them. */
  datatype Json =
    | JNull
    | JBool(b: bool)
    | JNum(n: int)
    | JStr(s: string)
    | JArr(items: seq<Json>)
    | JObj(entries: map<string, Json>)

  datatype Issue = Issue(id: string, key: string, fields: map<string, Json>)

  /** `issues.findIndex((issue) => issue.id === issueId)`. */
  function FindIndex(issues: seq<Issue>, issueId: string): (r: int)
    ensures -1 <= r < |issues|
    ensures r >= 0 ==> issues[r].id == issueId
    ensures forall j :: 0 <= j < |issues| && (r < 0 || j < r) ==> issues[j].id != issueId
  {
    if issues == [] then -1
    else if issues[0].id == issueId then 0
    else
      var rest := FindIndex(issues[1..], issueId);
      if rest < 0 then -1 else rest + 1
  }

  /** `issues.map((issue) => issue.id === issueId ? update(issue) : issue)`. */
  function MapMatching(issues: seq<Issue>, issueId: string, update: Issue -> Issue): (r: seq<Issue>)
    ensures |r| == |issues|
    ensures forall i :: 0 <= i < |issues| && issues[i].id != issueId ==> r[i] == issues[i]
    ensures forall i :: 0 <= i < |issues| && issues[i].id == issueId ==> r[i] == update(issues[i])
  {
    seq(|issues|, i requires 0 <= i < |issues| => if issues[i].id == issueId then update(issues[i]) else issues[i])
  }

  /** The `issues` entry of the query cache. */
  class QueryCache {
    var issues: seq<Issue>

    constructor (issues: seq<Issue>)
      ensures this.issues == issues
    {
      this.issues := issues;
    }

    /** `onError`: `setQueryData(["issues"], context?.previousIssues ?? [])`
        -- the list saved before the optimistic update, or an empty list
        when there is no context. */
    method Restore(context: Option<seq<Issue>>)
      modifies this
      ensures issues == (if context.Some? then context.value else [])
    {
      if context.Some? {
        issues := context.value;
      } else {
        issues := [];
      }
    }
  }
}
