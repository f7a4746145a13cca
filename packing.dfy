/**
  The greedy character-budget packer `slice_list` of the role-policy
  generator: it cuts an ordered list of permission actions into consecutive
  slices so that each slice's action list stays within a character budget.

  The packer is modelled exactly as written, including its uneven size
  accounting: appending an action to the open slice costs the length of
  `"` + action + `, "` (the action's length plus 4), but a slice opened by an
  action that did not fit starts its running length at the action's bare
  length. As a consequence the first slice may be empty (when the first action
  alone is too big), a later slice may be a single over-budget action, and the
  packer never fails.
*/
module Packing {

  /** The characters slice_list charges for appending `action` to a slice:
      the length of the text `"` + action + `, "`. */
  function Cost(action: string): (n: nat)
    ensures n == |action| + 4
  {
    |"\"" + action + ", \""|
  }

  /** The total charge for appending every action of `s`, one after another. */
  function SumCost(s: seq<string>): nat
  {
    if s == [] then 0 else SumCost(s[..|s| - 1]) + Cost(s[|s| - 1])
  }

  /** Every action charges at least 4, so a longer prefix costs strictly more. */
  lemma {:induction false} SumCostPrefixGrows(s: seq<string>, i: nat, j: nat)
    requires i <= j <= |s|
    ensures SumCost(s[..i]) + 4 * (j - i) <= SumCost(s[..j])
  {
    if i < j {
      SumCostPrefixGrows(s, i, j - 1);
      assert s[..j][..j - 1] == s[..j - 1];
    }
  }

  /** Charging from the front gives the same total as charging from the back. */
  lemma {:induction false} SumCostCons(a: string, s: seq<string>)
    ensures SumCost([a] + s) == Cost(a) + SumCost(s)
  {
    if s == [] {
      assert [a] + s == [a];
      assert [a][..0] == [];
    } else {
      assert ([a] + s)[..|[a] + s| - 1] == [a] + s[..|s| - 1];
      SumCostCons(a, s[..|s| - 1]);
    }
  }

  /** The running length slice_list holds for a slice when it closes it:
      the first slice (index 0) was opened empty at length 0 and charged every
      action it took; every later slice was opened by its first action at that
      action's bare length and charged every further action. */
  function Accounted(index: nat, slice: seq<string>): int
  {
    if index == 0 then SumCost(slice)
    else if slice == [] then 0
    else |slice[0]| + SumCost(slice[1..])
  }

  /** How many leading actions of `rest` slice_list appends to an open slice
      whose running length is `used`: the longest prefix that stays within
      `limit`, and no longer prefix does. */
  function FitCount(rest: seq<string>, limit: int, used: int): (n: nat)
    ensures n <= |rest|
    ensures n == 0 || used + SumCost(rest[..n]) <= limit
    ensures n == |rest| || used + SumCost(rest[..n + 1]) > limit
    decreases |rest|
  {
    if rest == [] then 0
    else if used + Cost(rest[0]) > limit then
      assert rest[..1] == [rest[0]] && rest[..1][..0] == [];
      0
    else
      var m := FitCount(rest[1..], limit, used + Cost(rest[0]));
      assert rest[..m + 1] == [rest[0]] + rest[1..][..m];
      SumCostCons(rest[0], rest[1..][..m]);
      if m < |rest[1..]| then
        assert rest[..m + 2] == [rest[0]] + rest[1..][..m + 1];
        SumCostCons(rest[0], rest[1..][..m + 1]);
        1 + m
      else
        1 + m
  }

  /** FitCount is the only count with both properties of its contract. */
  lemma FitCountUnique(rest: seq<string>, limit: int, used: int, m: nat)
    requires m <= |rest|
    requires m == 0 || used + SumCost(rest[..m]) <= limit
    requires m == |rest| || used + SumCost(rest[..m + 1]) > limit
    ensures m == FitCount(rest, limit, used)
  {
    var n := FitCount(rest, limit, used);
    if m < n {
      SumCostPrefixGrows(rest, m + 1, n);
    } else if n < m {
      SumCostPrefixGrows(rest, n + 1, m);
    }
  }

  /** The slices after the first: each is opened by the next action that did
      not fit, and then takes every following action that fits. */
  function LaterSlices(rest: seq<string>, limit: int): seq<seq<string>>
    decreases |rest|
  {
    if rest == [] then []
    else
      var n := 1 + FitCount(rest[1..], limit, |rest[0]|);
      [rest[..n]] + LaterSlices(rest[n..], limit)
  }

  /** The slices slice_list(actions, limit) returns: the first slice is the
      longest prefix that fits from length 0 (possibly empty), the rest are
      LaterSlices; no input gives a trailing empty slice. */
  function Slices(actions: seq<string>, limit: int): seq<seq<string>>
  {
    if actions == [] then []
    else
      var n := FitCount(actions, limit, 0);
      [actions[..n]] + LaterSlices(actions[n..], limit)
  }

  /** All slices joined in order. */
  function Flatten(slices: seq<seq<string>>): seq<string>
  {
    if slices == [] then [] else slices[0] + Flatten(slices[1..])
  }

  lemma FlattenCons(s: seq<string>, rest: seq<seq<string>>)
    ensures Flatten([s] + rest) == s + Flatten(rest)
  {
    assert ([s] + rest)[0] == s;
    assert ([s] + rest)[1..] == rest;
  }

  /** What slice_list promises of the slices it returns for `actions` and
      `limit`, stated slice by slice:
      - joined in order they give back `actions`;
      - only the first slice can be empty, and it is exactly when the first
        action alone does not fit;
      - every slice that took more than its opening action stays within the
        limit by slice_list's own accounting;
      - no slice followed by another could have taken that next slice's first
        action. */
  predicate IsGreedyPacking(actions: seq<string>, limit: int, r: seq<seq<string>>)
  {
    && Flatten(r) == actions
    && (forall k :: 0 < k < |r| ==> r[k] != [])
    && ((0 < |r| && r[0] == []) <==> (0 < |actions| && Cost(actions[0]) > limit))
    && (forall k {:trigger Accounted(k, r[k])} :: 0 <= k < |r| && |r[k]| > (if k == 0 then 0 else 1) ==>
          Accounted(k, r[k]) <= limit)
    && (forall k {:trigger Accounted(k, r[k])} :: 0 <= k < |r| - 1 ==>
          r[k + 1] != [] && Accounted(k, r[k]) + Cost(r[k + 1][0]) > limit)
  }

  /** LaterSlices joined in order give back `rest`. */
  lemma {:induction false} LaterSlicesCover(rest: seq<string>, limit: int)
    ensures Flatten(LaterSlices(rest, limit)) == rest
    decreases |rest|
  {
    if rest != [] {
      var n := 1 + FitCount(rest[1..], limit, |rest[0]|);
      LaterSlicesUnfold(rest, limit);
      LaterSlicesCover(rest[n..], limit);
      FlattenCons(rest[..n], LaterSlices(rest[n..], limit));
      assert rest[..n] + rest[n..] == rest;
    }
  }

  /** The first of the LaterSlices of a non-empty `rest`, and what follows it. */
  lemma LaterSlicesUnfold(rest: seq<string>, limit: int)
    requires rest != []
    ensures var n := 1 + FitCount(rest[1..], limit, |rest[0]|);
      && LaterSlices(rest, limit) == [rest[..n]] + LaterSlices(rest[n..], limit)
      && LaterSlices(rest, limit)[0] == rest[..n]
      && LaterSlices(rest, limit)[1..] == LaterSlices(rest[n..], limit)
  {
  }

  /** The first of the LaterSlices within the limit, and unable to take the
      action after it. */
  lemma LaterFirstSlice(rest: seq<string>, limit: int)
    requires rest != []
    ensures var s := rest[..1 + FitCount(rest[1..], limit, |rest[0]|)];
      && (|s| > 1 ==> Accounted(1, s) <= limit)
      && (|s| < |rest| ==> Accounted(1, s) + Cost(rest[|s|]) > limit)
  {
    var m := FitCount(rest[1..], limit, |rest[0]|);
    var s := rest[..1 + m];
    assert s[1..] == rest[1..][..m];
    if |s| < |rest| {
      assert rest[1..][..m + 1][..m] == rest[1..][..m];
      assert rest[1..][m] == rest[|s|];
    }
  }

  /** Joining the slices from index `i` on. */
  lemma FlattenFrom(r: seq<seq<string>>, i: nat)
    requires i < |r|
    ensures Flatten(r[i..]) == r[i] + Flatten(r[i + 1..])
  {
    assert r[i..] == [r[i]] + r[i + 1..];
    FlattenCons(r[i], r[i + 1..]);
  }

  /** A non-empty slice `s` that fits as a later slice and could not take the
      first action of `more` is the first of the LaterSlices of `s + more`. */
  lemma LaterFirstSliceUnique(s: seq<string>, more: seq<string>, limit: int)
    requires s != []
    requires |s| > 1 ==> Accounted(1, s) <= limit
    requires more != [] ==> Accounted(1, s) + Cost(more[0]) > limit
    ensures LaterSlices(s + more, limit) == [s] + LaterSlices(more, limit)
  {
    var rest := s + more;
    var m := |s| - 1;
    assert rest[0] == s[0];
    assert s[1..] == rest[1..][..m];
    if more != [] {
      assert rest[1..][..m + 1][..m] == rest[1..][..m];
      assert rest[1..][m] == more[0];
    }
    FitCountUnique(rest[1..], limit, |rest[0]|, m);
    LaterSlicesUnfold(rest, limit);
    assert rest[..|s|] == s && rest[|s|..] == more;
  }

  /** Every slice of `r` is opened by an action, fits as a later slice, and
      could not take the first action of the slice after it. */
  predicate LaterOk(r: seq<seq<string>>, limit: int)
  {
    r != [] ==>
      && r[0] != []
      && (|r[0]| > 1 ==> Accounted(1, r[0]) <= limit)
      && (|r| > 1 ==> r[1] != [] && Accounted(1, r[0]) + Cost(r[1][0]) > limit)
      && LaterOk(r[1..], limit)
  }

  /** Slices with LaterOk are the LaterSlices of what they join to. */
  lemma {:induction false} LaterOkUnique(r: seq<seq<string>>, limit: int)
    requires LaterOk(r, limit)
    ensures r == LaterSlices(Flatten(r), limit)
  {
    if r != [] {
      var tail := r[1..];
      var more := Flatten(tail);
      assert Flatten(r) == r[0] + more;
      if tail != [] {
        assert more == tail[0] + Flatten(tail[1..]);
        assert more[0] == r[1][0];
      }
      LaterFirstSliceUnique(r[0], more, limit);
      LaterOkUnique(tail, limit);
      assert r == [r[0]] + tail;
    }
  }

  /** LaterSlices have LaterOk. */
  lemma {:induction false} LaterSlicesOk(rest: seq<string>, limit: int)
    ensures LaterOk(LaterSlices(rest, limit), limit)
    decreases |rest|
  {
    if rest != [] {
      var n := 1 + FitCount(rest[1..], limit, |rest[0]|);
      var slices := LaterSlices(rest, limit);
      LaterSlicesUnfold(rest, limit);
      LaterFirstSlice(rest, limit);
      LaterSlicesOk(rest[n..], limit);
      if 1 < |slices| {
        assert rest[n..] != [];
        LaterSlicesUnfold(rest[n..], limit);
        assert slices[1] == LaterSlices(rest[n..], limit)[0];
        assert slices[1][0] == rest[n..][0] == rest[n];
      }
    }
  }

  /** LaterOk, slice by slice. */
  lemma {:induction false} LaterOkAt(r: seq<seq<string>>, limit: int, k: nat)
    requires LaterOk(r, limit) && k < |r|
    ensures r[k] != []
    ensures |r[k]| > 1 ==> Accounted(1, r[k]) <= limit
    ensures k + 1 < |r| ==> r[k + 1] != [] && Accounted(1, r[k]) + Cost(r[k + 1][0]) > limit
  {
    if k > 0 {
      LaterOkAt(r[1..], limit, k - 1);
      assert r[k] == r[1..][k - 1];
      assert k + 1 < |r| ==> r[k + 1] == r[1..][k];
    }
  }

  /** The quantified later-slice properties of IsGreedyPacking, from index i
      on, give LaterOk(r[i..]). */
  lemma {:induction false} LaterOkFrom(r: seq<seq<string>>, limit: int, i: nat)
    requires 1 <= i <= |r|
    requires forall k :: i <= k < |r| ==> r[k] != []
    requires forall k {:trigger Accounted(k, r[k])} :: i <= k < |r| && |r[k]| > 1 ==> Accounted(k, r[k]) <= limit
    requires forall k {:trigger Accounted(k, r[k])} :: i <= k < |r| - 1 ==>
      Accounted(k, r[k]) + Cost(r[k + 1][0]) > limit
    ensures LaterOk(r[i..], limit)
    decreases |r| - i
  {
    if i < |r| {
      LaterOkFrom(r, limit, i + 1);
      assert r[i..][0] == r[i] && r[i..][1..] == r[i + 1..];
      assert Accounted(i, r[i]) == Accounted(1, r[i]);
      if i + 1 < |r| {
        assert r[i..][1] == r[i + 1];
      }
    }
  }

  /** The first slice of a non-empty input and what follows it. */
  lemma FirstSlice(actions: seq<string>, limit: int)
    requires actions != []
    ensures var n := FitCount(actions, limit, 0);
      && Slices(actions, limit) == [actions[..n]] + LaterSlices(actions[n..], limit)
      && (n == 0 <==> Cost(actions[0]) > limit)
      && (n > 0 ==> SumCost(actions[..n]) <= limit)
      && (n < |actions| ==> SumCost(actions[..n]) + Cost(actions[n]) > limit)
  {
    var n := FitCount(actions, limit, 0);
    assert actions[..1] == [actions[0]] && actions[..1][..0] == [];
    if n > 0 {
      SumCostPrefixGrows(actions, 1, n);
    }
    if n < |actions| {
      assert actions[..n + 1][..n] == actions[..n];
    }
  }

  /** The first `n` actions as first slice, followed by slices with LaterOk
      that join to the remaining actions, have every property of
      IsGreedyPacking. */
  lemma GreedyFromParts(actions: seq<string>, limit: int, n: nat, tail: seq<seq<string>>)
    requires actions != [] && n <= |actions|
    requires Flatten(tail) == actions[n..]
    requires LaterOk(tail, limit)
    requires n == 0 <==> Cost(actions[0]) > limit
    requires n > 0 ==> SumCost(actions[..n]) <= limit
    requires tail != [] ==> tail[0][0] == actions[n] && SumCost(actions[..n]) + Cost(actions[n]) > limit
    ensures IsGreedyPacking(actions, limit, [actions[..n]] + tail)
  {
    var s := actions[..n];
    var r := [s] + tail;
    FlattenCons(s, tail);
    assert s + actions[n..] == actions;
    assert r[0] == s;
    forall k | 0 < k < |r|
      ensures r[k] != []
      ensures |r[k]| > 1 ==> Accounted(k, r[k]) <= limit
      ensures k < |r| - 1 ==> r[k + 1] != [] && Accounted(k, r[k]) + Cost(r[k + 1][0]) > limit
    {
      LaterOkAt(tail, limit, k - 1);
      assert r[k] == tail[k - 1];
      assert k < |r| - 1 ==> r[k + 1] == tail[k];
    }
    if 1 < |r| {
      LaterOkAt(tail, limit, 0);
      assert r[1] == tail[0];
      assert Accounted(0, r[0]) + Cost(r[1][0]) > limit;
    }
  }

  /** The LaterSlices of `rest` are opened by its first action, if any. */
  lemma LaterSlicesHead(rest: seq<string>, limit: int)
    ensures LaterSlices(rest, limit) == [] <==> rest == []
    ensures rest != [] ==> LaterSlices(rest, limit)[0][0] == rest[0]
  {
    if rest != [] {
      LaterSlicesUnfold(rest, limit);
    }
  }

  /** The first slice of a non-empty input and the LaterSlices after it have
      every property of IsGreedyPacking. */
  lemma FirstAndLaterArePacking(actions: seq<string>, limit: int, n: nat)
    requires actions != [] && n == FitCount(actions, limit, 0)
    ensures IsGreedyPacking(actions, limit, [actions[..n]] + LaterSlices(actions[n..], limit))
  {
    var more := actions[n..];
    FirstSlice(actions, limit);
    LaterSlicesCover(more, limit);
    LaterSlicesOk(more, limit);
    LaterSlicesHead(more, limit);
    GreedyFromParts(actions, limit, n, LaterSlices(more, limit));
  }

  /** slice_list's result has every property of IsGreedyPacking. */
  lemma SlicesArePacking(actions: seq<string>, limit: int)
    ensures IsGreedyPacking(actions, limit, Slices(actions, limit))
  {
    if actions != [] {
      FirstAndLaterArePacking(actions, limit, FitCount(actions, limit, 0));
    }
  }

  /** A slice `s` that fits as a first slice and could not take the first
      action of `more` is the first slice of `s + more`. */
  lemma FirstSliceUnique(s: seq<string>, more: seq<string>, limit: int)
    requires s + more != []
    requires s != [] ==> SumCost(s) <= limit
    requires more != [] ==> SumCost(s) + Cost(more[0]) > limit
    ensures Slices(s + more, limit) == [s] + LaterSlices(more, limit)
  {
    var actions := s + more;
    assert actions[..|s|] == s && actions[|s|..] == more;
    if more != [] {
      assert actions[..|s| + 1][..|s|] == s;
      assert actions[|s|] == more[0];
    }
    FitCountUnique(actions, limit, 0, |s|);
  }

  /** What IsGreedyPacking says of the first slice and the actions after it. */
  lemma GreedyFirstSlice(actions: seq<string>, limit: int, r: seq<seq<string>>)
    requires IsGreedyPacking(actions, limit, r) && r != []
    ensures actions == r[0] + Flatten(r[1..]) && actions != []
    ensures r[0] != [] ==> SumCost(r[0]) <= limit
    ensures Flatten(r[1..]) != [] ==> SumCost(r[0]) + Cost(Flatten(r[1..])[0]) > limit
  {
    FlattenFrom(r, 0);
    assert r[0..] == r;
    if |r| == 1 {
      assert r[1..] == [];
    } else {
      FlattenFrom(r, 1);
      assert Flatten(r[1..])[0] == r[1][0];
      assert Accounted(0, r[0]) + Cost(r[1][0]) > limit;
    }
    assert r[0] != [] ==> Accounted(0, r[0]) <= limit;
    assert actions != [] by {
      if r[0] == [] {
        assert 0 < |actions|;
      }
    }
  }

  /** The slices after the first of a greedy packing have LaterOk. */
  lemma GreedyLaterOk(actions: seq<string>, limit: int, r: seq<seq<string>>)
    requires IsGreedyPacking(actions, limit, r) && r != []
    ensures LaterOk(r[1..], limit)
  {
    LaterOkFrom(r, limit, 1);
  }

  /** A first slice that fits and could not take the next action, followed by
      slices with LaterOk, is slice_list's result for what they join to. */
  lemma SlicesFromParts(r: seq<seq<string>>, limit: int)
    requires r != []
    requires r[0] != [] ==> SumCost(r[0]) <= limit
    requires Flatten(r[1..]) != [] ==> SumCost(r[0]) + Cost(Flatten(r[1..])[0]) > limit
    requires r[0] + Flatten(r[1..]) != []
    requires LaterOk(r[1..], limit)
    ensures r == Slices(r[0] + Flatten(r[1..]), limit)
  {
    FirstSliceUnique(r[0], Flatten(r[1..]), limit);
    LaterOkUnique(r[1..], limit);
    assert r == [r[0]] + r[1..];
  }

  /** IsGreedyPacking leaves no choice: only slice_list's result has it. */
  lemma GreedyPackingUnique(actions: seq<string>, limit: int, r: seq<seq<string>>)
    requires IsGreedyPacking(actions, limit, r)
    ensures r == Slices(actions, limit)
  {
    if r != [] {
      GreedyFirstSlice(actions, limit, r);
      GreedyLaterOk(actions, limit, r);
      SlicesFromParts(r, limit);
    }
  }

  /** slice_list's result has every property of IsGreedyPacking, and it is the
      only sequence of slices that has them all. */
  lemma SlicesCharacterised(actions: seq<string>, limit: int, r: seq<seq<string>>)
    ensures r == Slices(actions, limit) <==> IsGreedyPacking(actions, limit, r)
  {
    SlicesArePacking(actions, limit);
    if IsGreedyPacking(actions, limit, r) {
      GreedyPackingUnique(actions, limit, r);
    }
  }
  /** Joining the slices gives back the input: no action is lost, duplicated
      or reordered, and a possible empty first slice contributes nothing. */
  lemma SlicesCoverage(actions: seq<string>, limit: int)
    ensures Flatten(Slices(actions, limit)) == actions
  {
    SlicesArePacking(actions, limit);
  }

  /** There are no slices exactly when there are no actions. */
  lemma SlicesEmpty(actions: seq<string>, limit: int)
    ensures Slices(actions, limit) == [] <==> actions == []
  {
    SlicesArePacking(actions, limit);
  }

  /** Only the first slice can be empty, and it is empty exactly when the first
      action alone costs more than the limit. */
  lemma SlicesOnlyFirstEmpty(actions: seq<string>, limit: int)
    ensures forall k :: 0 < k < |Slices(actions, limit)| ==> Slices(actions, limit)[k] != []
    ensures (Slices(actions, limit) != [] && Slices(actions, limit)[0] == [])
        <==> (actions != [] && |actions[0]| + 4 > limit)
  {
    SlicesArePacking(actions, limit);
  }

  /** The accounted size of the first slice, and of every later slice that
      holds two actions or more, is within the limit. A later slice holding a
      single action is accounted at that action's bare length, and nothing
      bounds it (SlicesExampleEmptyFirst has one over the limit). */
  lemma SlicesWithinLimit(actions: seq<string>, limit: int)
    ensures Slices(actions, limit) != [] && Slices(actions, limit)[0] != [] ==>
      SumCost(Slices(actions, limit)[0]) <= limit
    ensures forall k :: 0 < k < |Slices(actions, limit)| && |Slices(actions, limit)[k]| >= 2 ==>
      |Slices(actions, limit)[k][0]| + SumCost(Slices(actions, limit)[k][1..]) <= limit
    ensures forall k :: 0 < k < |Slices(actions, limit)| && |Slices(actions, limit)[k]| == 1 ==>
      Accounted(k, Slices(actions, limit)[k]) == |Slices(actions, limit)[k][0]|
  {
    SlicesArePacking(actions, limit);
    var r := Slices(actions, limit);
    forall k | 0 < k < |r| && |r[k]| >= 1
      ensures |r[k]| >= 2 ==> |r[k][0]| + SumCost(r[k][1..]) <= limit
      ensures |r[k]| == 1 ==> Accounted(k, r[k]) == |r[k][0]|
    {
      assert Accounted(k, r[k]) == |r[k][0]| + SumCost(r[k][1..]);
      if |r[k]| == 1 {
        assert r[k][1..] == [];
      }
    }
  }

  /** No slice that is followed by another could have taken the next slice's
      first action. */
  lemma SlicesGreedy(actions: seq<string>, limit: int)
    ensures forall k {:trigger Accounted(k, Slices(actions, limit)[k])} ::
      0 <= k < |Slices(actions, limit)| - 1 ==>
        && Slices(actions, limit)[k + 1] != []
        && Accounted(k, Slices(actions, limit)[k]) + |Slices(actions, limit)[k + 1][0]| + 4 > limit
  {
    SlicesArePacking(actions, limit);
  }

  /** Two short actions share one slice. */
  lemma SlicesExampleOneSlice()
    ensures Slices(["s3:GetObject", "s3:PutObject"], 100) == [["s3:GetObject", "s3:PutObject"]]
  {
    var a := ["s3:GetObject", "s3:PutObject"];
    assert FitCount(a[2..], 100, 32) == 0;
    assert FitCount(a[1..], 100, 16) == 1;
    assert FitCount(a, 100, 0) == 2;
    assert a[..2] == a && a[2..] == [];
  }

  /** A first action that alone costs more than the limit leaves the first
      slice empty and then stands alone in an over-long slice of its own. */
  lemma SlicesExampleEmptyFirst()
    ensures Slices(["abcdef", "ab"], 5) == [[], ["abcdef"], ["ab"]]
  {
    var a := ["abcdef", "ab"];
    assert FitCount(a, 5, 0) == 0;
    assert a[0..] == a;
    assert FitCount(a[1..], 5, 6) == 0;
    assert a[..1] == ["abcdef"] && a[1..] == ["ab"];
    assert FitCount(a[2..], 5, 2) == 0;
    assert a[1..][..1] == ["ab"] && a[1..][1..] == [];
  }

  /** The slices still to be emitted when slice_list has read everything
      before `rest`, holds `current` open with running length `used`. */
  function Pending(rest: seq<string>, limit: int, current: seq<string>, used: int): seq<seq<string>>
  {
    if rest == [] && current == [] then []
    else
      var n := FitCount(rest, limit, used);
      [current + rest[..n]] + LaterSlices(rest[n..], limit)
  }

  /** An action that fits is taken, and the count goes on from after it. */
  lemma FitCountTake(rest: seq<string>, limit: int, used: int)
    requires rest != [] && used + Cost(rest[0]) <= limit
    ensures FitCount(rest, limit, used) == 1 + FitCount(rest[1..], limit, used + Cost(rest[0]))
  {
  }

  /** An action that does not fit ends the count. */
  lemma FitCountStop(rest: seq<string>, limit: int, used: int)
    requires rest != [] && used + Cost(rest[0]) > limit
    ensures FitCount(rest, limit, used) == 0
  {
  }

  /** A pending state with something left to emit, unfolded once. */
  lemma PendingUnfold(rest: seq<string>, limit: int, current: seq<string>, used: int, n: nat)
    requires rest != [] || current != []
    requires n == FitCount(rest, limit, used)
    ensures Pending(rest, limit, current, used) == [current + rest[..n]] + LaterSlices(rest[n..], limit)
  {
  }

  /** Moving the head of `rest` into the open slice. */
  lemma ShiftHead(rest: seq<string>, m: nat, current: seq<string>)
    requires m < |rest|
    ensures rest[..1 + m] == [rest[0]] + rest[1..][..m]
    ensures current + rest[..1 + m] == (current + [rest[0]]) + rest[1..][..m]
    ensures rest[1 + m..] == rest[1..][m..]
  {
    assert rest[..1 + m] == [rest[0]] + rest[1..][..m];
  }

  lemma PendingAppend(actions: seq<string>, i: nat, limit: int, current: seq<string>, used: int,
                      current': seq<string>, used': int)
    requires i < |actions| && used + Cost(actions[i]) <= limit
    requires current' == current + [actions[i]] && used' == used + Cost(actions[i])
    ensures Pending(actions[i..], limit, current, used) == Pending(actions[i + 1..], limit, current', used')
  {
    var rest := actions[i..];
    assert rest[0] == actions[i] && rest[1..] == actions[i + 1..];
    FitCountTake(rest, limit, used);
    var m := FitCount(rest[1..], limit, used');
    ShiftHead(rest, m, current);
    PendingUnfold(rest, limit, current, used, 1 + m);
    PendingUnfold(rest[1..], limit, current', used', m);
  }

  lemma PendingSpill(actions: seq<string>, i: nat, limit: int, current: seq<string>, used: int,
                     current': seq<string>, used': int)
    requires i < |actions| && used + Cost(actions[i]) > limit
    requires current' == [actions[i]] && used' == |actions[i]|
    ensures Pending(actions[i..], limit, current, used) == [current] + Pending(actions[i + 1..], limit, current', used')
  {
    var rest := actions[i..];
    assert rest[0] == actions[i] && rest[1..] == actions[i + 1..];
    FitCountStop(rest, limit, used);
    PendingUnfold(rest, limit, current, used, 0);
    assert current + rest[..0] == current && rest[0..] == rest;
    var m := FitCount(rest[1..], limit, used');
    ShiftHead(rest, m, current);
    LaterSlicesUnfold(rest, limit);
    PendingUnfold(rest[1..], limit, current', used', m);
  }

  lemma PendingEnd(limit: int, current: seq<string>, used: int)
    requires current != []
    ensures Pending([], limit, current, used) == [current]
  {
    assert current + [][..0] == current;
  }

  lemma AppendAssoc(a: seq<seq<string>>, b: seq<string>, c: seq<seq<string>>)
    ensures (a + [b]) + c == a + ([b] + c)
  {
  }

  /** slice_list: one pass over `actions` that appends each action to the open
      slice when its charge fits in `charLimit`, and otherwise closes the open
      slice (even an empty one) and opens a new one with that action. The
      final slice is emitted only when it is not empty. */
  method SliceList(actions: seq<string>, charLimit: int) returns (result: seq<seq<string>>)
    ensures result == Slices(actions, charLimit)
    ensures IsGreedyPacking(actions, charLimit, result)
    ensures Flatten(result) == actions
    ensures result == [] <==> actions == []
  {
    var currentSlice: seq<string> := [];
    var currentLength := 0;
    result := [];
    assert actions[0..] == actions;
    assert actions != [] ==> [] + actions[..FitCount(actions, charLimit, 0)] == actions[..FitCount(actions, charLimit, 0)];
    for i := 0 to |actions|
      invariant i == 0 ==> currentSlice == [] && currentLength == 0 && result == []
      invariant i > 0 ==> currentSlice != []
      invariant result + Pending(actions[i..], charLimit, currentSlice, currentLength)
             == Slices(actions, charLimit)
    {
      var action := actions[i];
      ghost var slice, length := currentSlice, currentLength;
      if currentLength + Cost(action) <= charLimit {
        currentSlice := currentSlice + [action];
        currentLength := currentLength + Cost(action);
        PendingAppend(actions, i, charLimit, slice, length, currentSlice, currentLength);
      } else {
        ghost var done := result;
        result := result + [currentSlice];
        currentSlice := [action];
        currentLength := |action|;
        PendingSpill(actions, i, charLimit, slice, length, currentSlice, currentLength);
        AppendAssoc(done, slice, Pending(actions[i + 1..], charLimit, currentSlice, currentLength));
      }
    }
    assert actions[|actions|..] == [];
    if currentSlice != [] {
      PendingEnd(charLimit, currentSlice, currentLength);
      result := result + [currentSlice];
    }
    SlicesCharacterised(actions, charLimit, result);
    SlicesEmpty(actions, charLimit);
  }
}
