# Tag-enforcement policy packing, modelled in Dafny

The generator takes a catalogue of AWS IAM actions (strings of the form
`service:Action`). First it drops every action that begins with the name of
an excluded service. Then it packs the remaining actions into deny policies.
Each policy denies its actions when the request carries neither the `Team`
nor the `CostCentre` tag: one `Null` condition on both request-tag keys.
The packing aims to keep each policy under a character limit. Its own running count of a slice's length does not guarantee that: an
action too long for the budget is still emitted, alone in its own slice, and
the count charges each later slice's first action less than that action
takes once serialised.

The model has four modules:

- `Packing` (packing.dfy) models `slice_list`. This is a single greedy pass over the actions.
  - An action's charge is its length plus four.
  - An action goes into the open slice when the slice's running length plus that charge is within the limit.
  - Otherwise the open slice is closed, even when it is empty. A new slice is then opened with the action, and its running length is reset to the action's bare length.
  - The method `SliceList` keeps the source's loop. It is proved equal to the function `Slices`, a declarative reference definition.
  - `IsGreedyPacking` gives the properties that define the packing: coverage, which slices may be empty, the per-slice limits and greedy maximality. `SlicesCharacterised` proves that `Slices` is the one and only sequence of slices with all of them.
- `PolicyDocument` (policy.dfy) models `generate_policy`.
  - It defines the fixed policy template.
  - It passes slice_list a budget: the character limit less the template's serialised length.
  - It emits one copy of the template per slice, with that slice as the copy's action list.
- `ExclusionFilter` (filter.dfy) models the excluded-service list and the comprehension that filters the catalogue with it.
- `Pipeline` (pipeline.dfy) models the entry point without its I/O. It filters the catalogue, then generates the policies for resource `all` with a limit of 5000 characters.

Policies are modelled as datatype values. The deep copy the source takes of the template for each slice is therefore simply a new value.

## Model

| member | source | states |
|---|---|---|
| Packing.Cost | src/role_policy.py:192-194 | The charge of an action, `len(f'"{action}, "')`, is its length plus four |
| Packing.FitCount | src/role_policy.py:191-194 | The number of leading actions absorbed into an open slice of running length `used`: that many fit within the limit, and one more would not (or none is left) |
| Packing.FitCountUnique | src/role_policy.py:191-194 | Any count that fits and cannot be extended is FitCount's: the greedy choice is determined |
| Packing.SliceList | src/role_policy.py:175-203 | The loop yields exactly `Slices`. It is a greedy packing, its slices joined give back the input, and it is empty exactly when the input is |
| Packing.PendingAppend | src/role_policy.py:192-194 | Appending an action that fits leaves the slices still to come unchanged |
| Packing.PendingSpill | src/role_policy.py:195-198 | Closing the open slice on an action that does not fit emits that slice, then continues from a slice holding only the action, at the action's bare length |
| Packing.SlicesCharacterised | src/role_policy.py:175-203 | A sequence of slices equals slice_list's result if and only if it satisfies IsGreedyPacking (coverage, only the first slice possibly empty, limits, greedy maximality) |
| Packing.SlicesCoverage | src/role_policy.py:191-201 | Joining the slices in order gives the input back: nothing lost, duplicated or reordered |
| Packing.SlicesEmpty | src/role_policy.py:187-203 | The result is empty if and only if the input is |
| Packing.SlicesOnlyFirstEmpty | src/role_policy.py:192-198 | Every slice but the first is non-empty. The first is empty if and only if there is an action and the first one's length plus four exceeds the limit |
| Packing.SlicesWithinLimit | src/role_policy.py:192-198 | The first slice's total charge is within the limit. So is the accounted size of every later slice of two or more actions (head at bare length, the rest at length plus four). A later single-action slice is accounted at its bare length, for which no bound is promised; `SlicesExampleEmptyFirst` shows one over the limit |
| Packing.SlicesGreedy | src/role_policy.py:192-198 | Adding the next slice's first action to any slice's accounted size would exceed the limit |
| Packing.SlicesExampleOneSlice | src/role_policy.py:192-194 | Two 12-character actions under limit 100 share a single slice |
| Packing.SlicesExampleEmptyFirst | src/role_policy.py:195-201 | Under limit 5, `["abcdef", "ab"]` packs as `[[], ["abcdef"], ["ab"]]`: an empty first slice and an over-limit singleton (see also `SlicesWithinLimit`) |
| PolicyDocument.Template | src/role_policy.py:216-232 | The template has version 2012-10-17, one statement with Sid `Deny`+resource, Effect Deny, Resource `*`, the Null condition on both request tags, and no actions |
| PolicyDocument.SetActions | src/role_policy.py:241 | Assigning the first statement's Action sets those actions and leaves every other field as it was |
| PolicyDocument.PolicyFor | src/role_policy.py:240-241 | A copy of the template with a slice as its actions keeps all template fields and carries exactly that slice |
| PolicyDocument.PolicyForInjective | src/role_policy.py:240-241 | Two slices give equal policies if and only if they are equal |
| PolicyDocument.AllActionsOfSlices | src/role_policy.py:238-242 | The action lists of one template copy per slice, joined in order, are the slices joined in order |
| PolicyDocument.PoliciesFor | src/role_policy.py:238-242 | The loop yields one policy per slice, in order, each the template filled with that slice |
| PolicyDocument.GeneratePolicy | src/role_policy.py:205-242 | There is one policy per slice of `Slices(actions, maxCharCount - overhead)`, each carrying the template fields and its slice. Joined in order, the policies' actions are the input. There are no policies if and only if there are no actions |
| ExclusionFilter.HasExcludedPrefix | src/role_policy.py:274 | `any(action.startswith(p) ...)` is true if and only if some listed entry is a prefix of the action |
| ExclusionFilter.Filter | src/role_policy.py:274 | The result is no longer than the input, and no kept action has an excluded prefix |
| ExclusionFilter.FilterCount | src/role_policy.py:274 | An action with an excluded prefix occurs zero times in the result. Any other action occurs exactly as often as in the input, so duplicates are kept |
| ExclusionFilter.FilterSubsequence | src/role_policy.py:274 | The result is a subsequence of the input: input order is kept |
| ExclusionFilter.FilterAppend | src/role_policy.py:274 | Filtering a concatenation is the concatenation of the filtered parts |
| ExclusionFilter.FilterIdempotent | src/role_policy.py:274 | Filtering twice is the same as filtering once |
| ExclusionFilter.FilterKeepsAll | src/role_policy.py:274 | When no action has an excluded prefix, the catalogue is kept whole |
| ExclusionFilter.ExcludesListedService | src/role_policy.py:274 | Every action `service:name` whose service is on the list is dropped |
| ExclusionFilter.PrefixReachesUnlistedService | src/role_policy.py:274 | The prefix test also drops services that are not listed: on the two-entry list `["iot", "iot1click"]`, `iotroborunner:CreateSite` is dropped although `iotroborunner` is not on that list |
| ExclusionFilter.FilterExample | src/role_policy.py:274 | Excluding `ec2` and `iam` from a four-action catalogue keeps its two `s3` actions, duplicate included |
| Pipeline.TagEnforcementPolicies | src/role_policy.py:271-275 | The entry point filters with the excluded-service list, then generates policies for `all` within 5000 characters. Every policy carries the template fields, and the policies' actions joined are the filtered catalogue. They keep each surviving action's multiplicity, contain no excluded action, and follow catalogue order |

## Left out

- File and console I/O is not modelled: reading `_actions.json`, writing the policy files (`create_policy_file`), and the `print` of the budget and of each policy's length. The catalogue is a parameter.
- `json.dumps` is library code outside the model. The template's serialised length, which `generate_policy` subtracts from the limit, is the parameter `overhead`. The `return_json` branch, which serialises the result list, is not modelled either.
- The key order of the Condition dictionaries is not modelled, because maps in the model are unordered.
- Logging has no observable effect on the result and is not modelled.
- src/resource_action.py, which builds the action catalogue from AWS documentation pages, is not part of this model.
- The deep copy is not modelled as aliasing. Values cannot alias, so the model cannot show that the source's policies are independent objects. It only shows that each has the right contents.
- `generate_policy`'s default `max_char_count` of 6144 is the constant `PolicyDocument.DefaultCharLimit`. Dafny has no default arguments, so `GeneratePolicy` always takes the limit as a parameter, and a caller that relies on the default passes that constant.
- Python integers are unbounded, so integer widths need no modelling. Any budget is allowed, including one that is zero or negative (a limit below the template's length). When the budget is below 4 no action fits: the first slice is empty and every action has a slice of its own.

### Behaviour of the code worth knowing

- Exclusion is a string-prefix test (line 274), not a comparison of the list with the text before `:`. An action whose service name only begins with a listed entry is dropped too (`PrefixReachesUnlistedService`).
- No packing error is raised. An action too long for the budget is emitted alone in a slice that is over budget, and an overlong first action is preceded by an empty slice (`SlicesOnlyFirstEmpty`, `SlicesExampleEmptyFirst`).
- A slice's running length does not match its serialised length. The first action of each later slice is counted at its bare length, and every other action at its length plus four. The model keeps this accounting (`Accounted`, `SlicesWithinLimit`).
