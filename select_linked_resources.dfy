/** The dialog that opens an issue's linked resources
    (`SelectLinkedResourcesModal` in
    src/modals/select-linked-resources.modal.tsx): the issue in Jira first,
    then one option per merge request, a focus that moves with Up and Down,
    Confirm opening the focused option and `a` opening every merge request
    still waiting for review. Opening a URL is an effect outside the model:
    the operations return the URLs they would open. */
module SelectLinkedResources {
  import opened JsString

  datatype Reviewer = Reviewer(approved: bool)

  datatype MergeRequest = MergeRequest(repositoryName: string, name: string, status: string, url: string,
                                       reviewers: Option<seq<Reviewer>>)

  /** An option; `caption` is the source's `label`, a reserved word in
      Dafny. */
  datatype LinkOption =
    | JiraOption(caption: string, value: string)
    | MergeRequestOption(status: string, caption: string, value: string, allApproved: bool)

  const JiraLabel := "Open issue in Jira"

  /** `!!(reviewers?.length && reviewers?.every((r) => r.approved))`. */
  function AllApproved(reviewers: Option<seq<Reviewer>>): (r: bool)
    ensures r <==> reviewers.Some? && |reviewers.value| > 0
                   && forall i :: 0 <= i < |reviewers.value| ==> reviewers.value[i].approved
  {
    match reviewers
    case None => false
    case Some(list) => |list| > 0 && EveryApproved(list)
  }

  function EveryApproved(list: seq<Reviewer>): (r: bool)
    ensures r <==> forall i :: 0 <= i < |list| ==> list[i].approved
  {
    if list == [] then true else list[0].approved && EveryApproved(list[1..])
  }

  /** The suffix after the merge request's name: its lower-cased status
      unless it is `OPEN`, `(approved)` when open and approved by everyone,
      nothing otherwise. */
  function StatusSuffix(mergeRequest: MergeRequest): (r: string)
    ensures mergeRequest.status != "OPEN" ==> r == " (" + ToLower(mergeRequest.status) + ")"
    ensures mergeRequest.status == "OPEN" ==> (r == " (approved)" <==> AllApproved(mergeRequest.reviewers))
    ensures mergeRequest.status == "OPEN" && !AllApproved(mergeRequest.reviewers) ==> r == ""
  {
    if mergeRequest.status != "OPEN" then " (" + ToLower(mergeRequest.status) + ")"
    else if AllApproved(mergeRequest.reviewers) then " (approved)"
    else ""
  }

  function ToOption(mergeRequest: MergeRequest): (r: LinkOption)
    ensures r.MergeRequestOption? && r.status == mergeRequest.status && r.value == mergeRequest.url
    ensures r.allApproved == AllApproved(mergeRequest.reviewers)
    ensures r.caption == "[" + mergeRequest.repositoryName + "] " + mergeRequest.name + StatusSuffix(mergeRequest)
  {
    MergeRequestOption(mergeRequest.status,
                       "[" + mergeRequest.repositoryName + "] " + mergeRequest.name + StatusSuffix(mergeRequest),
                       mergeRequest.url, AllApproved(mergeRequest.reviewers))
  }

  /** The options effect: the Jira option, then the merge requests in
      order (none while they are not loaded). */
  function BuildOptions(baseUrl: string, issueKey: string, mergeRequests: Option<seq<MergeRequest>>)
    : (r: seq<LinkOption>)
    ensures |r| == 1 + (if mergeRequests.Some? then |mergeRequests.value| else 0)
    ensures r[0] == JiraOption(JiraLabel, IssueUrl(baseUrl, issueKey))
    ensures mergeRequests.Some? ==>
              forall i :: 0 <= i < |mergeRequests.value| ==> r[i + 1] == ToOption(mergeRequests.value[i])
  {
    match mergeRequests
    case None => [JiraOption(JiraLabel, IssueUrl(baseUrl, issueKey))]
    case Some(requests) => [JiraOption(JiraLabel, IssueUrl(baseUrl, issueKey))] + MergeRequestOptions(requests)
  }

  /** The issue's page in Jira. */
  function IssueUrl(baseUrl: string, issueKey: string): string {
    baseUrl + "/browse/" + issueKey
  }

  /** `mergeRequests.map(...)`. */
  function MergeRequestOptions(requests: seq<MergeRequest>): (r: seq<LinkOption>)
    ensures |r| == |requests|
    ensures forall i :: 0 <= i < |requests| ==> r[i] == ToOption(requests[i])
  {
    seq(|requests|, i requires 0 <= i < |requests| => ToOption(requests[i]))
  }

  /** An open merge request option that not everyone has approved. */
  predicate IsReviewable(option: LinkOption) {
    option.MergeRequestOption? && option.status == "OPEN" && !option.allApproved
  }

  /** `openMergeRequestOptionsAtom`. */
  function Reviewable(options: seq<LinkOption>): seq<LinkOption> {
    Filter(options, IsReviewable)
  }

  /** Merge request `i` is open and not approved by everyone. */
  predicate Waiting(mergeRequests: seq<MergeRequest>, i: int) {
    0 <= i < |mergeRequests| && mergeRequests[i].status == "OPEN" && !AllApproved(mergeRequests[i].reviewers)
  }

  /** The reviewable options are exactly the options of the open merge
      requests not approved by everyone, and their labels carry no
      suffix. */
  lemma ReviewableOptions(baseUrl: string, issueKey: string, mergeRequests: seq<MergeRequest>, option: LinkOption)
    ensures option in Reviewable(BuildOptions(baseUrl, issueKey, Some(mergeRequests)))
            <==> exists i :: Waiting(mergeRequests, i) && option == ToOption(mergeRequests[i])
    ensures option in Reviewable(BuildOptions(baseUrl, issueKey, Some(mergeRequests))) ==>
              exists i :: 0 <= i < |mergeRequests|
                          && option.caption == "[" + mergeRequests[i].repositoryName + "] " + mergeRequests[i].name
  {
    ReviewableAmong(BuildOptions(baseUrl, issueKey, Some(mergeRequests)), mergeRequests, option);
  }

  lemma ReviewableAmong(options: seq<LinkOption>, mergeRequests: seq<MergeRequest>, option: LinkOption)
    requires |options| == 1 + |mergeRequests| && options[0].JiraOption?
    requires forall i :: 0 <= i < |mergeRequests| ==> options[i + 1] == ToOption(mergeRequests[i])
    ensures option in Reviewable(options) <==> exists i :: Waiting(mergeRequests, i) && option == ToOption(mergeRequests[i])
    ensures option in Reviewable(options) ==>
              exists i :: 0 <= i < |mergeRequests|
                          && option.caption == "[" + mergeRequests[i].repositoryName + "] " + mergeRequests[i].name
  {
    FilterMember(options, IsReviewable, option);
    if option in options && IsReviewable(option) {
      var k :| 0 <= k < |options| && options[k] == option;
      ReviewableIsWaiting(options, mergeRequests, k);
    }
    if exists i :: Waiting(mergeRequests, i) && option == ToOption(mergeRequests[i]) {
      var i :| Waiting(mergeRequests, i) && option == ToOption(mergeRequests[i]);
      assert options[i + 1] == option;
    }
  }

  /** A reviewable option among the built ones is a waiting merge request's,
      and its label is the bare repository and name. */
  lemma ReviewableIsWaiting(options: seq<LinkOption>, mergeRequests: seq<MergeRequest>, k: int)
    requires |options| == 1 + |mergeRequests| && options[0].JiraOption?
    requires forall i :: 0 <= i < |mergeRequests| ==> options[i + 1] == ToOption(mergeRequests[i])
    requires 0 <= k < |options| && IsReviewable(options[k])
    ensures Waiting(mergeRequests, k - 1) && options[k] == ToOption(mergeRequests[k - 1])
    ensures options[k].caption == "[" + mergeRequests[k - 1].repositoryName + "] " + mergeRequests[k - 1].name
  {
    var m := mergeRequests[k - 1];
    assert options[k] == ToOption(m);
    assert StatusSuffix(m) == "";
    assert ("[" + m.repositoryName + "] " + m.name) + "" == options[k].caption;
  }

  /** The Jira option is never reviewable. */
  lemma JiraNeverReviewable(baseUrl: string, issueKey: string, mergeRequests: Option<seq<MergeRequest>>)
    ensures BuildOptions(baseUrl, issueKey, mergeRequests)[0] !in Reviewable(BuildOptions(baseUrl, issueKey, mergeRequests))
  {
    var options := BuildOptions(baseUrl, issueKey, mergeRequests);
    FilterMember(options, IsReviewable, options[0]);
  }

  /** Some option is reviewable exactly when the reviewable list is not
      empty. */
  lemma ReviewableNonEmpty(options: seq<LinkOption>)
    ensures |Reviewable(options)| > 0 <==> exists k :: 0 <= k < |options| && IsReviewable(options[k])
  {
    if |Reviewable(options)| > 0 {
      FilterMember(options, IsReviewable, Reviewable(options)[0]);
    }
    if exists k :: 0 <= k < |options| && IsReviewable(options[k]) {
      var k :| 0 <= k < |options| && IsReviewable(options[k]);
      FilterMember(options, IsReviewable, options[k]);
    }
  }

  /** Border, padding, arrow and space around a label. */
  const StandardWidth := 1 + 5 + 1 + 1

  /** The width of the dialog: the longest label, or the 26 cells the
      heading needs, plus `StandardWidth`. */
  function MaxLength(options: seq<LinkOption>): (r: int)
    ensures r >= 26 + StandardWidth
    ensures forall i :: 0 <= i < |options| ==> r >= |options[i].caption| + StandardWidth
    ensures r == 26 + StandardWidth || exists i :: 0 <= i < |options| && r == |options[i].caption| + StandardWidth
  {
    if options == [] then 26 + StandardWidth
    else
      var rest := MaxLength(options[1..]);
      var here := |options[0].caption| + StandardWidth;
      if here >= rest then here
      else
        assert forall i :: 1 <= i < |options| ==> options[i] == options[1..][i - 1];
        rest
  }

  /** The dialog's state: the options and the focused index. */
  class LinkedResources {
    var options: seq<LinkOption>
    var focused: int

    /** The focus is on an option. */
    predicate Valid()
      reads this
    {
      0 <= focused < |options|
    }

    /** Opening the dialog: the Jira option alone until the merge requests
        load, focused. */
    constructor (baseUrl: string, issueKey: string)
      ensures options == BuildOptions(baseUrl, issueKey, None) && focused == 0
      ensures Valid()
    {
      options := BuildOptions(baseUrl, issueKey, None);
      focused := 0;
    }

    /** The options effect re-running when the merge requests load; the
        focus is left where it was. */
    method SetMergeRequests(baseUrl: string, issueKey: string, mergeRequests: Option<seq<MergeRequest>>)
      modifies this
      ensures options == BuildOptions(baseUrl, issueKey, mergeRequests) && focused == old(focused)
      ensures old(focused) == 0 ==> Valid()
    {
      options := BuildOptions(baseUrl, issueKey, mergeRequests);
    }

    /** The mount effect: focus on the first option. */
    method ResetFocus()
      modifies this
      ensures focused == 0 && options == old(options)
    {
      focused := 0;
    }

    /** Up: one option back, not before the first. */
    method Up()
      modifies this
      ensures focused == (if old(focused) - 1 >= 0 then old(focused) - 1 else 0)
      ensures options == old(options)
      ensures old(Valid()) ==> Valid()
    {
      if focused - 1 >= 0 {
        focused := focused - 1;
      } else {
        focused := 0;
      }
    }

    /** Down: one option further, not past the last. */
    method Down()
      modifies this
      ensures focused == (if old(focused) + 1 <= |options| - 1 then old(focused) + 1 else |options| - 1)
      ensures options == old(options)
      ensures old(Valid()) ==> Valid()
    {
      if focused + 1 <= |options| - 1 {
        focused := focused + 1;
      } else {
        focused := |options| - 1;
      }
    }

    /** Confirm: the URL of the focused option. */
    method Confirm() returns (url: string)
      requires Valid()
      ensures url == options[focused].value
    {
      url := options[focused].value;
    }

    /** `a`: the URLs of the reviewable merge requests, in order; the
        binding is enabled only while there is at least one. */
    method OpenAllReviewable() returns (urls: seq<string>)
      ensures |urls| == |Reviewable(options)|
      ensures forall k :: 0 <= k < |urls| ==> urls[k] == Reviewable(options)[k].value
    {
      var reviewable := Reviewable(options);
      urls := [];
      for k := 0 to |reviewable|
        invariant |urls| == k
        invariant forall m :: 0 <= m < k ==> urls[m] == reviewable[m].value
      {
        urls := urls + [reviewable[k].value];
      }
    }

    /** The `when` guard of `a`. */
    function OpenAllEnabled(): bool
      reads this
    {
      |Reviewable(options)| > 0
    }
  }
}
