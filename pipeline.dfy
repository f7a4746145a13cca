/**
  The generator's entry point, less its file and console I/O: drop the
  actions of the excluded services from the catalogue, then pack what remains
  into tag-enforcement policies for the resource "all" under a 5000-character
  limit per policy.
*/
module Pipeline {
  import opened Packing
  import opened PolicyDocument
  import opened ExclusionFilter

  /** The resource named in every policy's Sid. */
  const PolicyResource: string := "all"

  /** The character limit the entry point passes for each policy. */
  const PolicyCharLimit: int := 5000

  /** Filter the catalogue, then generate the policies. `overhead` is the
      length of the serialised template, which the generator measures. Every
      policy carries the template's fields; joined in order the policies'
      actions are the filtered catalogue; each surviving action occurs in them
      as often as in the catalogue and no excluded action occurs at all. */
  method TagEnforcementPolicies(catalogue: seq<string>, overhead: int) returns (policies: seq<Policy>)
    ensures |policies| == |Slices(Filter(catalogue, ExcludedServices), ActionBudget(PolicyCharLimit, overhead))|
    ensures forall k :: 0 <= k < |policies| ==>
      policies[k] == PolicyFor(PolicyResource, Slices(Filter(catalogue, ExcludedServices), ActionBudget(PolicyCharLimit, overhead))[k])
    ensures forall k :: 0 <= k < |policies| ==> HasTemplateFields(policies[k], PolicyResource)
    ensures AllActions(policies) == Filter(catalogue, ExcludedServices)
    ensures forall a :: multiset(AllActions(policies))[a]
                        == (if HasExcludedPrefix(a, ExcludedServices) then 0 else multiset(catalogue)[a])
    ensures IsSubsequence(AllActions(policies), catalogue)
    ensures policies == [] <==> Filter(catalogue, ExcludedServices) == []
  {
    var filteredActions := Filter(catalogue, ExcludedServices);
    policies := GeneratePolicy(PolicyResource, filteredActions, PolicyCharLimit, overhead);
    forall a
      ensures multiset(AllActions(policies))[a]
        == if HasExcludedPrefix(a, ExcludedServices) then 0 else multiset(catalogue)[a]
    {
      FilterCount(catalogue, ExcludedServices, a);
    }
    FilterSubsequence(catalogue, ExcludedServices);
  }
}
