/** The synthetic keys `__vlist<nestedIndex>_<i>__`: each is determined by the
    node's position, and distinct positions give distinct keys, so the keys
    handed out to non-text nodes in one normalisation never collide. */
module NormalizeKeys {
  import opened VNodes
  import opened Decimal
  import opened Normalize
  import opened NormalizeFacts

  /** The longest suffix of `s` made of digits. */
  function DigitSuffix(s: string): (d: string)
    ensures AllDigits(d)
  {
    if s == [] || !IsDigit(s[|s| - 1]) then [] else DigitSuffix(s[..|s| - 1]) + [s[|s| - 1]]
  }

  lemma {:induction false} DigitSuffixAfterUnderscore(a: string, x: string)
    requires AllDigits(x)
    ensures DigitSuffix(a + "_" + x) == x
    decreases |x|
  {
    var s := a + "_" + x;
    if x != [] {
      var x' := x[..|x| - 1];
      assert s[..|s| - 1] == a + "_" + x';
      DigitSuffixAfterUnderscore(a, x');
      assert x == x' + [x[|x| - 1]];
    } else {
      assert s[|s| - 1] == '_';
    }
  }

  /** `a + "_" + x` with `x` all digits is split uniquely at its last `_`. */
  lemma SplitAtLastUnderscore(a: string, x: string, b: string, y: string)
    requires AllDigits(x) && AllDigits(y)
    requires a + "_" + x == b + "_" + y
    ensures a == b && x == y
  {
    DigitSuffixAfterUnderscore(a, x);
    DigitSuffixAfterUnderscore(b, y);
    var s := a + "_" + x;
    assert a == s[..|a|];
    assert b == s[..|b|];
  }

  lemma {:induction false} PathStringInjective(p: seq<nat>, q: seq<nat>)
    ensures PathString(p) == PathString(q) ==> p == q
    decreases |p|
  {
    if p != [] && q != [] && PathString(p) == PathString(q) {
      var p', q' := p[..|p| - 1], q[..|q| - 1];
      SplitAtLastUnderscore(PathString(p'), NatToString(p[|p| - 1]), PathString(q'), NatToString(q[|q| - 1]));
      NatToStringInjective(p[|p| - 1], q[|q| - 1]);
      PathStringInjective(p', q');
      assert p == p' + [p[|p| - 1]] && q == q' + [q[|q| - 1]];
    } else if p == [] && q != [] {
      assert |PathString(q)| > 0;
    } else if p != [] && q == [] {
      assert |PathString(p)| > 0;
    }
  }

  /** Distinct positions have distinct synthetic keys. */
  lemma ListKeyInjective(p: seq<nat>, q: seq<nat>)
    ensures ListKey(p) == ListKey(q) ==> p == q
  {
    if ListKey(p) == ListKey(q) {
      var k := ListKey(p);
      assert PathString(p) == k[7..|k| - 2];
      assert PathString(q) == k[7..|k| - 2];
      PathStringInjective(p, q);
    }
  }

  /** Every position extends `p` by an index less than `n`. */
  predicate PositionsBelow(es: seq<Placed>, p: seq<nat>, n: nat)
  {
    forall k :: 0 <= k < |es| ==> |es[k].path| > |p| && es[k].path[..|p|] == p && es[k].path[|p|] < n
  }

  predicate DistinctPositions(es: seq<Placed>)
  {
    forall j, k :: 0 <= j < k < |es| ==> es[j].path != es[k].path
  }

  /** Gluing the nodes of children `0..i-1` to those of child `i`. */
  lemma PositionsAppend(older: seq<Placed>, newer: seq<Placed>, p: seq<nat>, i: nat)
    requires PositionsBelow(older, p, i) && DistinctPositions(older) && DistinctPositions(newer)
    requires forall k :: 0 <= k < |newer| ==> |newer[k].path| >= |p| + 1 && newer[k].path[..|p| + 1] == p + [i]
    ensures PositionsBelow(older + newer, p, i + 1) && DistinctPositions(older + newer)
  {
    forall k | 0 <= k < |newer|
      ensures |newer[k].path| > |p| && newer[k].path[..|p|] == p && newer[k].path[|p|] == i
    {
      var q := newer[k].path;
      assert q[..|p|] == q[..|p| + 1][..|p|];
      assert q[|p|] == q[..|p| + 1][|p|];
    }
    var es := older + newer;
    forall j, k | 0 <= j < k < |es|
      ensures es[j].path != es[k].path
    {
      if k < |older| {
        assert es[j] == older[j] && es[k] == older[k];
      } else if j < |older| {
        assert es[j] == older[j] && es[k] == newer[k - |older|];
      } else {
        assert es[j] == newer[j - |older|] && es[k] == newer[k - |older|];
      }
    }
  }

  /** One step of `InputNodePositions`: a nested array at index `i`. */
  lemma PositionsStepArray(a: ChildArray, p: seq<nat>, i: nat)
    requires i < |a.items| && a.items[i].Arr?
    requires PositionsBelow(InputNodes(a, p, i), p, i) && DistinctPositions(InputNodes(a, p, i))
    requires PositionsBelow(InputNodes(a.items[i].arr, p + [i], |a.items[i].arr.items|), p + [i], |a.items[i].arr.items|)
    requires DistinctPositions(InputNodes(a.items[i].arr, p + [i], |a.items[i].arr.items|))
    ensures PositionsBelow(InputNodes(a, p, i + 1), p, i + 1) && DistinctPositions(InputNodes(a, p, i + 1))
  {
    var sub := a.items[i].arr;
    var before := InputNodes(a, p, i);
    var newer := InputNodes(sub, p + [i], |sub.items|);
    assert InputNodes(a, p, i + 1) == before + newer;
    PositionsAppend(before, newer, p, i);
  }

  /** One step of `InputNodePositions`: a child at index `i` that is not an
      array. */
  lemma PositionsStepLeaf(a: ChildArray, p: seq<nat>, i: nat)
    requires i < |a.items| && !a.items[i].Arr?
    requires PositionsBelow(InputNodes(a, p, i), p, i) && DistinctPositions(InputNodes(a, p, i))
    ensures PositionsBelow(InputNodes(a, p, i + 1), p, i + 1) && DistinctPositions(InputNodes(a, p, i + 1))
  {
    var before := InputNodes(a, p, i);
    var p1 := p + [i];
    var newer := PlaceLeaf(a.items[i], a.isVList, p1);
    assert InputNodes(a, p, i + 1) == before + newer;
    assert p1[..|p1|] == p1;
    PositionsAppend(before, newer, p, i);
  }

  /** The nodes below the array at position `p` sit at distinct positions,
      each extending `p` by an index less than `n`. */
  lemma {:induction false} InputNodePositions(a: ChildArray, p: seq<nat>, n: nat)
    requires n <= |a.items|
    ensures PositionsBelow(InputNodes(a, p, n), p, n)
    ensures DistinctPositions(InputNodes(a, p, n))
    decreases a, n
  {
    if n > 0 {
      InputNodePositions(a, p, n - 1);
      if a.items[n - 1].Arr? {
        var sub := a.items[n - 1].arr;
        InputNodePositions(sub, p + [n - 1], |sub.items|);
        PositionsStepArray(a, p, n - 1);
      } else {
        PositionsStepLeaf(a, p, n - 1);
      }
    }
  }

  lemma {:induction false} KeyedAllIndex(es: seq<Placed>)
    ensures |KeyedAll(es)| == |es|
    ensures forall k :: 0 <= k < |es| ==> KeyedAll(es)[k] == Keyed(es[k])
    decreases |es|
  {
    if es != [] {
      KeyedAllIndex(es[..|es| - 1]);
    }
  }

  /** Within one normalisation from the root, the non-text entries of the
      result are the input nodes with the key rule applied, and two of them
      that were given a synthetic key were given different keys. */
  lemma SyntheticKeysDistinct(a: ChildArray)
    ensures var out, es := NonTexts(NormArray(a, None)), InputNodes(a, [], |a.items|);
      && |out| == |es|
      && (forall k :: 0 <= k < |es| ==> out[k] == Keyed(es[k]))
      && forall j, k :: 0 <= j < k < |es| && GetsListKey(es[j]) && GetsListKey(es[k]) ==>
        out[j].key != out[k].key
  {
    var es := InputNodes(a, [], |a.items|);
    NonTextNodesPreserved(a, [], |a.items|);
    KeyedAllIndex(es);
    InputNodePositions(a, [], |a.items|);
    forall j, k | 0 <= j < k < |es| && GetsListKey(es[j]) && GetsListKey(es[k])
      ensures Keyed(es[j]).key != Keyed(es[k]).key
    {
      assert es[j].path != es[k].path;
      ListKeyInjective(es[j].path, es[k].path);
    }
  }
}
