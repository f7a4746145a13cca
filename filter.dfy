/**
  The service exclusion the role-policy generator applies to the action
  catalogue before packing: an action is dropped when it begins with any entry
  of a fixed list of service names, and every other action is kept, in order
  and with its duplicates.
*/
module ExclusionFilter {

  /** The excluded service names, in the order the generator lists them. */
  const ExcludedServices: seq<string> := [
    "a4b", "access-analyzer", "airflow", "aoss", "app-integrations",
    "application-autoscaling", "appmesh", "apprunner", "appstream", "appsync", "aps",
    "aws-marketplace", "billingconductor", "braket", "bugbust", "cases", "cassandra", "ce",
    "chime", "cleanrooms", "cloud9", "cloudhsm", "codeartifact", "codebuild",
    "codecatalyst", "codeguru-profiler", "codeguru-reviewer", "codeguru-security",
    "codepipeline", "codestar", "codestar-connections", "codestar-notifications",
    "codewhisperer", "cognito-identity", "cognito-idp", "comprehend", "config", "connect",
    "connect-campaigns", "databrew", "dataexchange", "datapipeline", "datazonecontrol",
    "deepcomposer", "deepracer", "detective", "devicefarm", "directconnect", "dlm", "dms",
    "docdb-elastic", "drs", "ds", "elasticbeanstalk", "elasticmapreduce",
    "elemental-activations", "elemental-appliances-software", "emr-containers",
    "emr-serverless", "entityresolution", "es", "evidently", "finspace", "fis", "fms",
    "forecast", "frauddetector", "freertos", "fsx", "gamelift", "gamesparks", "geo",
    "globalaccelerator", "greengrass", "groundstation", "healthlake", "inspector2",
    "internetmonitor", "iot", "iot1click", "iotanalytics", "iotdeviceadvisor", "iotevents",
    "iotfleethub", "iotfleetwise", "iotsitewise", "iottwinmaker", "iotwireless", "ivs",
    "ivschat", "kafka", "kendra", "kendra-ranking", "lex", "license-manager", "lightsail",
    "lookoutequipment", "lookoutmetrics", "lookoutvision", "m2", "macie2",
    "managedblockchain", "mediaconvert", "medialive", "mediapackage", "mediapackage-vod",
    "mediapackagev2", "mediastore", "mediatailor", "medical-imaging", "memorydb", "mgn",
    "migrationhub-orchestrator", "mobiletargeting", "monitron", "mq", "nimble",
    "notifications", "notifications-contacts", "oam", "omics", "organizations", "osis",
    "outposts", "panorama", "payment-cryptography", "pca-connector-ad", "pi", "pipes",
    "private-networks", "proton", "purchase-orders", "qldb", "ram", "rbin",
    "refactor-spaces", "rekognition", "resiliencehub", "resource-explorer-2",
    "resource-groups", "robomaker", "rolesanywhere", "rum", "savingsplans", "scheduler",
    "schemas", "scn", "securityhub", "securitylake", "servicecatalog", "servicediscovery",
    "servicequotas", "ses", "shield", "signer", "simspaceweaver", "sms-voice",
    "snow-device-management", "swf", "synthetics", "timestream", "tnb"
  ]

  /** `s.startswith(prefix)`. */
  predicate StartsWith(s: string, prefix: string)
  {
    |prefix| <= |s| && s[..|prefix|] == prefix
  }

  /** `any(action.startswith(p) for p in prefixes)`, scanning the prefixes in
      order and stopping at the first that matches. */
  function HasExcludedPrefix(action: string, prefixes: seq<string>): (b: bool)
    ensures b <==> exists i :: 0 <= i < |prefixes| && StartsWith(action, prefixes[i])
  {
    if prefixes == [] then false
    else if StartsWith(action, prefixes[0]) then
      assert StartsWith(action, prefixes[0]);
      true
    else
      var rest := HasExcludedPrefix(action, prefixes[1..]);
      assert forall i :: 1 <= i < |prefixes| ==> prefixes[i] == prefixes[1..][i - 1];
      rest
  }

  /** The comprehension that keeps the actions with no excluded prefix. */
  function Filter(actions: seq<string>, excluded: seq<string>): (r: seq<string>)
    ensures |r| <= |actions|
    ensures forall i :: 0 <= i < |r| ==> !HasExcludedPrefix(r[i], excluded)
  {
    if actions == [] then []
    else
      (if HasExcludedPrefix(actions[0], excluded) then [] else [actions[0]])
      + Filter(actions[1..], excluded)
  }

  /** One step of the comprehension: the first action is kept exactly when
      it has no excluded prefix. */
  lemma FilterCons(a: string, rest: seq<string>, excluded: seq<string>)
    ensures Filter([a] + rest, excluded)
      == (if HasExcludedPrefix(a, excluded) then [] else [a]) + Filter(rest, excluded)
  {
    assert ([a] + rest)[1..] == rest;
  }

  /** An action with an excluded prefix never survives, and any other action
      survives as many times as it occurs: the multiset of kept actions is the
      input's, with the excluded ones removed. */
  lemma {:induction false} FilterCount(actions: seq<string>, excluded: seq<string>, a: string)
    ensures multiset(Filter(actions, excluded))[a]
      == if HasExcludedPrefix(a, excluded) then 0 else multiset(actions)[a]
  {
    if actions != [] {
      FilterCount(actions[1..], excluded, a);
      assert actions == [actions[0]] + actions[1..];
      assert multiset(actions) == multiset{actions[0]} + multiset(actions[1..]);
    }
  }

  /** `sub` is `s` with some elements deleted, the rest in their order. */
  predicate IsSubsequence(sub: seq<string>, s: seq<string>)
  {
    || sub == []
    || (s != [] && ((sub[0] == s[0] && IsSubsequence(sub[1..], s[1..])) || IsSubsequence(sub, s[1..])))
  }

  /** The kept actions appear in the order of the input. */
  lemma {:induction false} FilterSubsequence(actions: seq<string>, excluded: seq<string>)
    ensures IsSubsequence(Filter(actions, excluded), actions)
  {
    if actions != [] {
      FilterSubsequence(actions[1..], excluded);
      if !HasExcludedPrefix(actions[0], excluded) {
        assert Filter(actions, excluded)[1..] == Filter(actions[1..], excluded);
      } else {
        assert Filter(actions, excluded) == Filter(actions[1..], excluded);
      }
    }
  }

  /** Filtering a concatenation filters each part. */
  lemma {:induction false} FilterAppend(a: seq<string>, b: seq<string>, excluded: seq<string>)
    ensures Filter(a + b, excluded) == Filter(a, excluded) + Filter(b, excluded)
  {
    if a == [] {
      assert a + b == b;
    } else {
      var head := if HasExcludedPrefix(a[0], excluded) then [] else [a[0]];
      FilterAppend(a[1..], b, excluded);
      assert (a + b)[0] == a[0] && (a + b)[1..] == a[1..] + b;
      assert Filter(a + b, excluded) == head + Filter(a[1..] + b, excluded);
      assert Filter(a, excluded) == head + Filter(a[1..], excluded);
      assert head + (Filter(a[1..], excluded) + Filter(b, excluded))
          == (head + Filter(a[1..], excluded)) + Filter(b, excluded);
    }
  }

  /** Filtering twice keeps what filtering once keeps. */
  lemma {:induction false} FilterIdempotent(actions: seq<string>, excluded: seq<string>)
    ensures Filter(Filter(actions, excluded), excluded) == Filter(actions, excluded)
  {
    if actions != [] {
      FilterIdempotent(actions[1..], excluded);
      var head := if HasExcludedPrefix(actions[0], excluded) then [] else [actions[0]];
      FilterAppend(head, Filter(actions[1..], excluded), excluded);
      if head != [] {
        FilterCons(actions[0], [], excluded);
      }
    }
  }

  /** When no action has an excluded prefix, every action is kept. */
  lemma {:induction false} FilterKeepsAll(actions: seq<string>, excluded: seq<string>)
    requires forall i :: 0 <= i < |actions| ==> !HasExcludedPrefix(actions[i], excluded)
    ensures Filter(actions, excluded) == actions
  {
    if actions != [] {
      FilterKeepsAll(actions[1..], excluded);
    }
  }

  /** Every action of a listed service is dropped: an action `service:name`
      whose service is in the list begins with a listed entry. */
  lemma ExcludesListedService(service: string, name: string, excluded: seq<string>)
    requires service in excluded
    ensures HasExcludedPrefix(service + ":" + name, excluded)
  {
    var i :| 0 <= i < |excluded| && excluded[i] == service;
    assert (service + ":" + name)[..|service|] == service;
    assert StartsWith(service + ":" + name, excluded[i]);
  }

  /** The test is on prefixes, not on service names: an action of a service
      that is not listed is still dropped when the service's name begins with
      a listed one. Shown on the two-entry list ["iot", "iot1click"], where
      "iot" begins "iotroborunner". */
  lemma PrefixReachesUnlistedService()
    ensures "iotroborunner" !in ["iot", "iot1click"]
    ensures HasExcludedPrefix("iotroborunner:CreateSite", ["iot", "iot1click"])
  {
    assert "iotroborunner" != "iot" by { assert |"iotroborunner"| != |"iot"|; }
    assert "iotroborunner:CreateSite"[..3] == "iot";
    assert StartsWith("iotroborunner:CreateSite", ["iot", "iot1click"][0]);
  }

  /** A string whose character at `j` differs from the prefix's does not
      begin with it. */
  lemma NotStartsWithAt(s: string, prefix: string, j: nat)
    requires j < |s| && j < |prefix| && s[j] != prefix[j]
    ensures !StartsWith(s, prefix)
  {
  }

  /** With the services "ec2" and "iam" excluded, only the "s3" actions of
      this catalogue remain, with their duplicate. */
  lemma FilterExample()
    ensures Filter(["s3:GetObject", "iam:CreateRole", "s3:GetObject", "ec2:RunInstances"], ["ec2", "iam"])
      == ["s3:GetObject", "s3:GetObject"]
  {
    var excluded := ["ec2", "iam"];
    assert !HasExcludedPrefix("s3:GetObject", excluded) by {
      NotStartsWithAt("s3:GetObject", excluded[0], 0);
      NotStartsWithAt("s3:GetObject", excluded[1], 0);
    }
    assert HasExcludedPrefix("iam:CreateRole", excluded) by {
      assert StartsWith("iam:CreateRole", excluded[1]);
    }
    assert HasExcludedPrefix("ec2:RunInstances", excluded) by {
      assert StartsWith("ec2:RunInstances", excluded[0]);
    }
    FilterCons("ec2:RunInstances", [], excluded);
    FilterCons("s3:GetObject", ["ec2:RunInstances"], excluded);
    FilterCons("iam:CreateRole", ["s3:GetObject", "ec2:RunInstances"], excluded);
    FilterCons("s3:GetObject", ["iam:CreateRole", "s3:GetObject", "ec2:RunInstances"], excluded);
  }
}
