/**
  The document builder `generate_policy` of the role-policy generator: a fixed
  tag-enforcement deny policy template, and one copy of it per slice of actions
  that `slice_list` cuts out under the budget left once the template itself
  is paid for.

  A policy is a value here, so the deep copy the builder takes of its template
  for each slice is simply a new value: no two emitted policies can share
  state.
*/
module PolicyDocument {
  import opened Packing

  /** A policy statement: the keys Sid, Effect, Action, Resource and
      Condition. The condition maps an operator ("Null") to a map from
      condition keys to values. */
  datatype Statement = Statement(
    sid: string,
    effect: string,
    action: seq<string>,
    resource: string,
    condition: map<string, map<string, string>>)

  /** A policy document: the keys Version and Statement. */
  datatype Policy = Policy(version: string, statement: seq<Statement>)

  const PolicyVersion: string := "2012-10-17"

  /** The character limit generate_policy uses when its caller gives none. */
  const DefaultCharLimit: int := 6144

  /** The condition block of the template: one Null operator over the two
      request-tag keys, which holds when the request carries neither the Team
      tag nor the CostCentre tag. */
  const TagCondition: map<string, map<string, string>> :=
    map["Null" := map["aws:RequestTag/Team" := "true", "aws:RequestTag/CostCentre" := "true"]]

  /** The fields every policy generate_policy emits for `resource` has, whatever
      its actions. */
  predicate HasTemplateFields(p: Policy, resource: string)
  {
    && p.version == PolicyVersion
    && |p.statement| == 1
    && p.statement[0].sid == "Deny" + resource
    && p.statement[0].effect == "Deny"
    && p.statement[0].resource == "*"
    && p.statement[0].condition == TagCondition
  }

  /** The actions of the first statement of `p`, the one generate_policy fills. */
  function ActionsOf(p: Policy): seq<string>
  {
    if p.statement == [] then [] else p.statement[0].action
  }

  /** The template generate_policy builds for `resource`, with an empty
      action list. */
  function Template(resource: string): (p: Policy)
    ensures HasTemplateFields(p, resource)
    ensures ActionsOf(p) == []
  {
    Policy(PolicyVersion, [Statement("Deny" + resource, "Deny", [], "*", TagCondition)])
  }

  /** `policy["Statement"][0]["Action"] = actions`: replaces the action list of
      the first statement and leaves every other field as it was. */
  function SetActions(p: Policy, actions: seq<string>): (q: Policy)
    requires p.statement != []
    ensures ActionsOf(q) == actions
    ensures q.version == p.version && |q.statement| == |p.statement|
    ensures q.statement[0] == p.statement[0].(action := actions)
    ensures q.statement[1..] == p.statement[1..]
  {
    p.(statement := [p.statement[0].(action := actions)] + p.statement[1..])
  }

  /** The policy emitted for one slice: a fresh copy of the template whose
      action list is the slice. It keeps the template's fields, and its
      actions are the slice. */
  function PolicyFor(resource: string, slice: seq<string>): (p: Policy)
    ensures HasTemplateFields(p, resource)
    ensures ActionsOf(p) == slice
  {
    SetActions(Template(resource), slice)
  }

  /** The policy for a slice is determined by the resource and the slice, and
      two slices give the same policy only when they are the same slice. */
  lemma PolicyForInjective(resource: string, s1: seq<string>, s2: seq<string>)
    ensures PolicyFor(resource, s1) == PolicyFor(resource, s2) <==> s1 == s2
  {
    if PolicyFor(resource, s1) == PolicyFor(resource, s2) {
      assert ActionsOf(PolicyFor(resource, s1)) == ActionsOf(PolicyFor(resource, s2));
    }
  }

  /** All action lists of `policies` joined in order. */
  function AllActions(policies: seq<Policy>): seq<string>
  {
    if policies == [] then [] else ActionsOf(policies[0]) + AllActions(policies[1..])
  }

  /** The budget generate_policy hands slice_list: `maxCharCount` less
      `overhead`, the length of the serialised template. */
  function ActionBudget(maxCharCount: int, overhead: int): int
  {
    maxCharCount - overhead
  }

  /** Joined in order, the action lists of one PolicyFor per slice are the
      slices joined in order. */
  lemma {:induction false} AllActionsOfSlices(resource: string, slices: seq<seq<string>>, policies: seq<Policy>)
    requires |policies| == |slices|
    requires forall k :: 0 <= k < |slices| ==> policies[k] == PolicyFor(resource, slices[k])
    ensures AllActions(policies) == Flatten(slices)
  {
    if slices != [] {
      AllActionsOfSlices(resource, slices[1..], policies[1..]);
    }
  }

  /** The loop of generate_policy: one copy of the template per slice, in
      order, with that slice as its action list. */
  method PoliciesFor(resource: string, slices: seq<seq<string>>) returns (policies: seq<Policy>)
    ensures |policies| == |slices|
    ensures forall k :: 0 <= k < |policies| ==> policies[k] == PolicyFor(resource, slices[k])
    ensures AllActions(policies) == Flatten(slices)
  {
    policies := [];
    for j := 0 to |slices|
      invariant |policies| == j
      invariant forall k :: 0 <= k < j ==> policies[k] == PolicyFor(resource, slices[k])
    {
      var policy := PolicyFor(resource, slices[j]);
      policies := policies + [policy];
    }
    AllActionsOfSlices(resource, slices, policies);
  }

  /** generate_policy: slices `actions` under the budget left once the
      template (`overhead` characters when serialised) is paid for, and emits
      one copy of the template per slice, in order, with that slice as its
      action list. */
  method GeneratePolicy(resource: string, actions: seq<string>, maxCharCount: int, overhead: int)
    returns (policies: seq<Policy>)
    ensures |policies| == |Slices(actions, ActionBudget(maxCharCount, overhead))|
    ensures forall k :: 0 <= k < |policies| ==>
      policies[k] == PolicyFor(resource, Slices(actions, ActionBudget(maxCharCount, overhead))[k])
    ensures forall k :: 0 <= k < |policies| ==>
      HasTemplateFields(policies[k], resource)
      && ActionsOf(policies[k]) == Slices(actions, ActionBudget(maxCharCount, overhead))[k]
    ensures AllActions(policies) == actions
    ensures policies == [] <==> actions == []
  {
    var maxActionChar := ActionBudget(maxCharCount, overhead);
    var trimmedActionList := SliceList(actions, maxActionChar);
    policies := PoliciesFor(resource, trimmedActionList);
  }
}
