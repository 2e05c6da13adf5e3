/** The two child normalisers of the virtual DOM.

    `NormPrefix`/`NormArray` give the meaning of `normalizeArrayChildren` as a
    left fold over the children (one step per loop iteration);
    `NormalizeArrayChildren` is the loop itself, proved to compute it.
    `SimpleNormalizeChildren` is the one-level flattener. */
module Normalize {
  import opened VNodes
  import opened Decimal

  // ----- shapes of children (the `shared/util` tests) -----

  /** `isUndef(c) || typeof c === 'boolean'`: values the loop skips. */
  predicate IsSkipped(c: Child)
  {
    c.Undefined? || c.Null? || c.Bool?
  }

  /** `isPrimitive(c)`: strings and numbers. */
  predicate IsPrimitive(c: Child)
  {
    c.Str? || c.Num?
  }

  /** The string a primitive turns into when it is concatenated or wrapped. */
  function PrimitiveString(c: Child): string
    requires IsPrimitive(c)
  {
    if c.Str? then c.s else IntToString(c.n)
  }

  // ----- the output list -----

  /** `res[res.length - 1]`, `undefined` when `res` is empty. */
  function Last(res: seq<VNode>): Option<VNode>
  {
    if |res| == 0 then None else Some(res[|res| - 1])
  }

  /** `c[0]`, `undefined` when `c` is empty. */
  function First(c: seq<VNode>): Option<VNode>
  {
    if |c| == 0 then None else Some(c[0])
  }

  /** `res[lastIndex] = createTextVNode(last.text + t)`: the last entry is
      replaced by a fresh text node holding its text followed by `t`. */
  function MergeIntoLast(res: seq<VNode>, t: string): (r: seq<VNode>)
    requires IsTextNode(Last(res))
    ensures |r| == |res| && r[..|r| - 1] == res[..|res| - 1]
    ensures r[|r| - 1] == CreateTextVNode(res[|res| - 1].text.value + t)
  {
    res[|res| - 1 := CreateTextVNode(Last(res).value.text.value + t)]
  }

  // ----- synthetic keys -----

  /** The nesting path handed to a recursive call for the child at index `i`:
      the caller's path (or `''`) followed by `_` and `i`. */
  function NestedIndex(nested: Option<string>, i: nat): string
  {
    (if nested.Some? then nested.value else "") + "_" + NatToString(i)
  }

  /** The key `__vlist<nestedIndex>_<i>__`. */
  function SyntheticKey(nestedIndex: string, i: nat): string
  {
    "__vlist" + nestedIndex + "_" + NatToString(i) + "__"
  }

  /** The node `c` as pushed by the last branch of the loop: it receives the
      synthetic key exactly when its array is a v-list, it has a tag, it has no
      key, and the call is a nested one. */
  function WithListKey(v: VNode, isVList: bool, nested: Option<string>, i: nat): VNode
  {
    if isVList && v.tag.Some? && v.key.None? && nested.Some? then
      v.(key := Some(StrKey(SyntheticKey(nested.value, i))))
    else
      v
  }

  // ----- one iteration of the loop -----

  /** Splicing the result `c` of a recursive call onto `res`, merging `c[0]`
      into the last entry when both are text nodes. */
  function AppendNested(res: seq<VNode>, c: seq<VNode>): seq<VNode>
  {
    if IsTextNode(First(c)) && IsTextNode(Last(res)) then
      MergeIntoLast(res, c[0].text.value) + c[1..]
    else
      res + c
  }

  /** One iteration for a child at index `i` that is not an array. */
  function PushLeaf(res: seq<VNode>, c: Child, i: nat, isVList: bool, nested: Option<string>): seq<VNode>
    requires !c.Arr?
  {
    if IsSkipped(c) then
      res
    else if IsPrimitive(c) then
      if IsTextNode(Last(res)) then MergeIntoLast(res, PrimitiveString(c))
      else if c != Str("") then res + [CreateTextVNode(PrimitiveString(c))]
      else res
    else
      var v := c.node;
      if IsText(v) && IsTextNode(Last(res)) then MergeIntoLast(res, v.text.value)
      else res + [WithListKey(v, isVList, nested, i)]
  }

  /** No two neighbouring entries are both text nodes. */
  predicate NoAdjacentText(s: seq<VNode>)
  {
    forall k :: 0 <= k < |s| - 1 ==> !(IsText(s[k]) && IsText(s[k + 1]))
  }

  lemma PushLeafNoAdjacent(res: seq<VNode>, c: Child, i: nat, isVList: bool, nested: Option<string>)
    requires !c.Arr? && NoAdjacentText(res)
    ensures NoAdjacentText(PushLeaf(res, c, i, isVList, nested))
  {
  }

  lemma AppendNestedNoAdjacent(res: seq<VNode>, c: seq<VNode>)
    requires NoAdjacentText(res) && NoAdjacentText(c)
    ensures NoAdjacentText(AppendNested(res, c))
  {
    var r := AppendNested(res, c);
    if IsTextNode(First(c)) && IsTextNode(Last(res)) {
      var m := MergeIntoLast(res, c[0].text.value);
      assert r == m + c[1..];
      forall k | 0 <= k < |r| - 1
        ensures !(IsText(r[k]) && IsText(r[k + 1]))
      {
        if k < |res| - 2 {
          assert r[k] == res[k] && r[k + 1] == res[k + 1];
        } else if k == |res| - 2 {
          assert r[k] == res[k] && IsText(res[k + 1]);
        } else if k == |res| - 1 {
          assert |c| > 1 ==> r[k + 1] == c[1];
        } else {
          assert r[k] == c[k - |res| + 1] && r[k + 1] == c[k - |res| + 2];
        }
      }
    } else {
      forall k | 0 <= k < |r| - 1
        ensures !(IsText(r[k]) && IsText(r[k + 1]))
      {
        if k < |res| - 1 {
          assert r[k] == res[k] && r[k + 1] == res[k + 1];
        } else if k == |res| - 1 {
          assert r[k] == res[k] && r[k + 1] == c[0];
        } else {
          assert r[k] == c[k - |res|] && r[k + 1] == c[k - |res| + 1];
        }
      }
    }
  }

  /** `res` after the first `n` iterations of `normalizeArrayChildren(a, nested)`. */
  function NormPrefix(a: ChildArray, nested: Option<string>, n: nat): seq<VNode>
    requires n <= |a.items|
    decreases a, n
  {
    if n == 0 then
      []
    else
      var res := NormPrefix(a, nested, n - 1);
      match a.items[n - 1]
      case Arr(sub) =>
        if |sub.items| == 0 then res
        else AppendNested(res, NormPrefix(sub, Some(NestedIndex(nested, n - 1)), |sub.items|))
      case _ => PushLeaf(res, a.items[n - 1], n - 1, a.isVList, nested)
  }

  /** `s` extends `prev` except possibly at the last entry of `prev`. */
  predicate KeepsEarlier(prev: seq<VNode>, s: seq<VNode>)
  {
    |prev| <= |s| && (|prev| > 0 ==> s[..|prev| - 1] == prev[..|prev| - 1])
  }

  lemma AppendNestedKeepsEarlier(res: seq<VNode>, c: seq<VNode>)
    ensures KeepsEarlier(res, AppendNested(res, c))
  {
    if IsTextNode(First(c)) && IsTextNode(Last(res)) {
      var m := MergeIntoLast(res, c[0].text.value);
      assert (m + c[1..])[..|res| - 1] == m[..|res| - 1];
    } else {
      assert (res + c)[..|res|] == res;
    }
  }

  lemma PushLeafKeepsEarlier(res: seq<VNode>, c: Child, i: nat, isVList: bool, nested: Option<string>)
    requires !c.Arr?
    ensures KeepsEarlier(res, PushLeaf(res, c, i, isVList, nested))
  {
    var r := PushLeaf(res, c, i, isVList, nested);
    if |r| > |res| {
      assert r[..|res|] == res;
    }
  }

  /** An iteration only ever rewrites the last entry (`res[lastIndex]`) or
      appends: the list never shrinks and the entries before its last one are
      never touched again. */
  lemma NormPrefixKeepsEarlier(a: ChildArray, nested: Option<string>, n: nat)
    requires 0 < n <= |a.items|
    ensures KeepsEarlier(NormPrefix(a, nested, n - 1), NormPrefix(a, nested, n))
  {
    var prev := NormPrefix(a, nested, n - 1);
    var c := a.items[n - 1];
    if c.Arr? {
      if |c.arr.items| > 0 {
        var inner := NormArray(c.arr, Some(NestedIndex(nested, n - 1)));
        assert NormPrefix(a, nested, n) == AppendNested(prev, inner);
        AppendNestedKeepsEarlier(prev, inner);
      }
    } else {
      assert NormPrefix(a, nested, n) == PushLeaf(prev, c, n - 1, a.isVList, nested);
      PushLeafKeepsEarlier(prev, c, n - 1, a.isVList, nested);
    }
  }

  /** No two adjacent entries of the list so far are text nodes. */
  lemma {:induction false} NoAdjacentTextInResult(a: ChildArray, nested: Option<string>, n: nat)
    requires n <= |a.items|
    ensures NoAdjacentText(NormPrefix(a, nested, n))
    decreases a, n
  {
    if n > 0 {
      NoAdjacentTextInResult(a, nested, n - 1);
      var res := NormPrefix(a, nested, n - 1);
      match a.items[n - 1]
      case Arr(sub) =>
        if |sub.items| > 0 {
          NoAdjacentTextInResult(sub, Some(NestedIndex(nested, n - 1)), |sub.items|);
          AppendNestedNoAdjacent(res, NormPrefix(sub, Some(NestedIndex(nested, n - 1)), |sub.items|));
        }
      case _ =>
        PushLeafNoAdjacent(res, a.items[n - 1], n - 1, a.isVList, nested);
    }
  }

  /** The result of `normalizeArrayChildren(a, nested)`: no two neighbouring
      entries are text nodes. */
  function NormArray(a: ChildArray, nested: Option<string>): (r: seq<VNode>)
    ensures NoAdjacentText(r)
  {
    NoAdjacentTextInResult(a, nested, |a.items|);
    NormPrefix(a, nested, |a.items|)
  }

  /** `normalizeChildren`: a primitive becomes one text node, an array is
      normalised at the root, anything else gives `undefined` (`None`). */
  function NormalizeChildren(children: Child): (r: Option<seq<VNode>>)
    ensures r.Some? <==> IsPrimitive(children) || children.Arr?
    ensures IsPrimitive(children) ==>
              |r.value| == 1 && IsText(r.value[0]) && r.value[0].text == Some(PrimitiveString(children))
    ensures children.Arr? ==> r.value == NormArray(children.arr, None)
  {
    if IsPrimitive(children) then Some([CreateTextVNode(PrimitiveString(children))])
    else if children.Arr? then Some(NormArray(children.arr, None))
    else None
  }

  /** The loop of `normalizeArrayChildren`, with its recursion on nested arrays. */
  method NormalizeArrayChildren(children: ChildArray, nestedIndex: Option<string>) returns (res: seq<VNode>)
    ensures res == NormArray(children, nestedIndex)
    decreases children
  {
    res := [];
    for i := 0 to |children.items|
      invariant res == NormPrefix(children, nestedIndex, i)
    {
      var c := children.items[i];
      assert NormPrefix(children, nestedIndex, i + 1) ==
        if c.Arr? then
          if |c.arr.items| == 0 then res
          else AppendNested(res, NormArray(c.arr, Some(NestedIndex(nestedIndex, i))))
        else PushLeaf(res, c, i, children.isVList, nestedIndex);
      if IsSkipped(c) {
        continue;
      }
      var lastIndex := |res| - 1;
      var last := if lastIndex >= 0 then Some(res[lastIndex]) else None;
      if c.Arr? {
        if |c.arr.items| > 0 {
          var nested := NormalizeArrayChildren(c.arr, Some(NestedIndex(nestedIndex, i)));
          if IsTextNode(First(nested)) && IsTextNode(last) {
            res := res[lastIndex := CreateTextVNode(last.value.text.value + nested[0].text.value)];
            nested := nested[1..];
          }
          res := res + nested;
        }
      } else if IsPrimitive(c) {
        if IsTextNode(last) {
          res := res[lastIndex := CreateTextVNode(last.value.text.value + PrimitiveString(c))];
        } else if c != Str("") {
          res := res + [CreateTextVNode(PrimitiveString(c))];
        }
      } else {
        var v := c.node;
        if IsText(v) && IsTextNode(last) {
          res := res[lastIndex := CreateTextVNode(last.value.text.value + v.text.value)];
        } else {
          if children.isVList && v.tag.Some? && v.key.None? && nestedIndex.Some? {
            v := v.(key := Some(StrKey(SyntheticKey(nestedIndex.value, i))));
          }
          res := res + [v];
        }
      }
    }
  }

  // ----- simpleNormalizeChildren -----

  /** A child as `concat` spreads it: an array gives its elements, anything
      else itself. */
  function Spread(c: Child): seq<Child>
  {
    if c.Arr? then c.arr.items else [c]
  }

  /** `Array.prototype.concat.apply([], s)`: one level of flattening. */
  function Flatten1(s: seq<Child>): seq<Child>
  {
    if s == [] then [] else Flatten1(s[..|s| - 1]) + Spread(s[|s| - 1])
  }

  predicate HasNoArray(s: seq<Child>)
  {
    forall k :: 0 <= k < |s| ==> !s[k].Arr?
  }

  lemma {:induction false} Flatten1OfNoArrays(s: seq<Child>)
    requires HasNoArray(s)
    ensures Flatten1(s) == s
  {
    if s != [] {
      Flatten1OfNoArrays(s[..|s| - 1]);
    }
  }

  /** Returns the input array itself when it holds no array, and otherwise a
      fresh array holding the one-level concatenation. */
  method SimpleNormalizeChildren(children: array<Child>) returns (r: array<Child>)
    ensures r[..] == Flatten1(children[..])
    ensures r == children <==> HasNoArray(children[..])
    ensures r != children ==> fresh(r)
  {
    for i := 0 to children.Length
      invariant forall k :: 0 <= k < i ==> !children[k].Arr?
    {
      if children[i].Arr? {
        var flat := Flatten1(children[..]);
        r := new Child[|flat|](k requires 0 <= k < |flat| => flat[k]);
        assert !HasNoArray(children[..]) by { assert children[..][i].Arr?; }
        return;
      }
    }
    Flatten1OfNoArrays(children[..]);
    r := children;
  }
}
