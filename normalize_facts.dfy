/** What the normalisers promise, stated against reference definitions that
    walk the input depth-first without merging anything, and proved about the
    functional model `Normalize.NormPrefix` (which the loop computes). */
module NormalizeFacts {
  import opened VNodes
  import opened Decimal
  import opened Normalize

  // ===== Observations of an output list =====

  /** The non-text entries, in order. */
  function NonTexts(s: seq<VNode>): seq<VNode>
  {
    if s == [] then []
    else NonTexts(s[..|s| - 1]) + (if IsText(s[|s| - 1]) then [] else [s[|s| - 1]])
  }

  /** Appends `t` to the last run. */
  function AddText(r: seq<string>, t: string): (r': seq<string>)
    requires |r| > 0
    ensures |r'| == |r|
  {
    r[|r| - 1 := r[|r| - 1] + t]
  }

  /** Runs of `r1` followed by runs of `r2`, the last of `r1` fused with the
      first of `r2`. */
  function JoinRuns(r1: seq<string>, r2: seq<string>): (r: seq<string>)
    requires |r1| > 0 && |r2| > 0
    ensures |r| == |r1| + |r2| - 1
  {
    r1[..|r1| - 1] + [r1[|r1| - 1] + r2[0]] + r2[1..]
  }

  /** The text runs of a list: entry `j` is the concatenated text of the text
      nodes between the `j`-th and the `j+1`-th non-text node (before the first,
      after the last).  There is one run more than there are non-text nodes. */
  function TextRuns(s: seq<VNode>): (r: seq<string>)
    ensures |r| == |NonTexts(s)| + 1
  {
    if s == [] then [""]
    else
      var v := s[|s| - 1];
      if IsText(v) then AddText(TextRuns(s[..|s| - 1]), v.text.value)
      else TextRuns(s[..|s| - 1]) + [""]
  }

  /** The texts of all text entries, concatenated in order. */
  function Texts(s: seq<VNode>): string
  {
    if s == [] then ""
    else Texts(s[..|s| - 1]) + (if IsText(s[|s| - 1]) then s[|s| - 1].text.value else "")
  }

  function Concat(r: seq<string>): string
  {
    if r == [] then "" else Concat(r[..|r| - 1]) + r[|r| - 1]
  }

  // ===== Reference definitions over the input, depth-first, left to right =====

  /** How a non-array child extends the text runs of what precedes it. */
  function RunsStep(r: seq<string>, c: Child): seq<string>
    requires |r| > 0 && !c.Arr?
  {
    match c
    case Str(s) => AddText(r, s)
    case Num(x) => AddText(r, IntToString(x))
    case Node(v) => if IsText(v) then AddText(r, v.text.value) else r + [""]
    case _ => r
  }

  /** The text runs of the first `n` children of `a`, read straight off the
      input: every string, number and text node adds its text to the current
      run, every other node closes it. */
  function InputRuns(a: ChildArray, n: nat): (r: seq<string>)
    requires n <= |a.items|
    ensures |r| > 0
    decreases a, n
  {
    if n == 0 then [""]
    else
      var r := InputRuns(a, n - 1);
      match a.items[n - 1]
      case Arr(sub) => JoinRuns(r, InputRuns(sub, |sub.items|))
      case _ => RunsStep(r, a.items[n - 1])
  }

  /** A non-text input node with the flag of the array that directly contains
      it and its position: the indices leading to it from the root array. */
  datatype Placed = Placed(node: VNode, inVList: bool, path: seq<nat>)

  function PlaceLeaf(c: Child, inVList: bool, path: seq<nat>): seq<Placed>
  {
    if c.Node? && !IsText(c.node) then [Placed(c.node, inVList, path)] else []
  }

  /** The non-text nodes among the first `n` children of `a` (an array at
      position `p`), depth-first. */
  function InputNodes(a: ChildArray, p: seq<nat>, n: nat): seq<Placed>
    requires n <= |a.items|
    decreases a, n
  {
    if n == 0 then []
    else
      InputNodes(a, p, n - 1) +
      match a.items[n - 1]
      case Arr(sub) => InputNodes(sub, p + [n - 1], |sub.items|)
      case _ => PlaceLeaf(a.items[n - 1], a.isVList, p + [n - 1])
  }

  /** A position written as `_i1_i2..._ik`. */
  function PathString(p: seq<nat>): string
  {
    if p == [] then "" else PathString(p[..|p| - 1]) + "_" + NatToString(p[|p| - 1])
  }

  /** The nesting path of the array at position `p` (`undefined` at the root). */
  function PathOpt(p: seq<nat>): Option<string>
  {
    if p == [] then None else Some(PathString(p))
  }

  /** The synthetic key of the node at position `path`. */
  function ListKey(path: seq<nat>): string
  {
    "__vlist" + PathString(path) + "__"
  }

  /** The key rule by position: a node is given a synthetic key when its
      directly containing array is a v-list, it is not a child of the root
      array, it has a tag and it has no key. */
  predicate GetsListKey(e: Placed)
  {
    e.inVList && |e.path| >= 2 && e.node.tag.Some? && e.node.key.None?
  }

  function Keyed(e: Placed): VNode
  {
    if GetsListKey(e) then e.node.(key := Some(StrKey(ListKey(e.path)))) else e.node
  }

  function KeyedAll(es: seq<Placed>): seq<VNode>
  {
    if es == [] then [] else KeyedAll(es[..|es| - 1]) + [Keyed(es[|es| - 1])]
  }

  /** Nodes as child values, as when a normalised list is normalised again. */
  function Wrap(out: seq<VNode>): seq<Child>
  {
    seq(|out|, k requires 0 <= k < |out| => Node(out[k]))
  }

  // ===== Algebra of runs and lists =====

  lemma JoinRunsUnit(r: seq<string>)
    requires |r| > 0
    ensures JoinRuns(r, [""]) == r
  {
    assert r[|r| - 1] + "" == r[|r| - 1];
  }

  lemma AddTextTwice(r: seq<string>, s: string, t: string)
    requires |r| > 0
    ensures AddText(AddText(r, s), t) == AddText(r, s + t)
  {
    assert r[|r| - 1] + s + t == r[|r| - 1] + (s + t);
  }

  lemma AddTextEmpty(r: seq<string>)
    requires |r| > 0
    ensures AddText(r, "") == r
  {
    assert r[|r| - 1] + "" == r[|r| - 1];
  }

  lemma JoinAddText(r1: seq<string>, r2: seq<string>, t: string)
    requires |r1| > 0 && |r2| > 0
    ensures AddText(JoinRuns(r1, r2), t) == JoinRuns(r1, AddText(r2, t))
  {
    if |r2| == 1 {
      assert r1[|r1| - 1] + r2[0] + t == r1[|r1| - 1] + (r2[0] + t);
    }
  }

  lemma JoinAppendEmpty(r1: seq<string>, r2: seq<string>)
    requires |r1| > 0 && |r2| > 0
    ensures JoinRuns(r1, r2) + [""] == JoinRuns(r1, r2 + [""])
  {
    assert (r2 + [""])[1..] == r2[1..] + [""];
  }

  /** Fusing a single run `t` in between. */
  lemma JoinThroughSingle(r: seq<string>, t: string, q: seq<string>)
    requires |r| > 0 && |q| > 0
    ensures JoinRuns(r, JoinRuns([t], q)) == JoinRuns(AddText(r, t), q)
  {
    assert r[|r| - 1] + (t + q[0]) == r[|r| - 1] + t + q[0];
    assert JoinRuns([t], q) == [t + q[0]] + q[1..];
  }

  lemma {:induction false} TextRunsConcat(x: seq<VNode>, y: seq<VNode>)
    ensures TextRuns(x + y) == JoinRuns(TextRuns(x), TextRuns(y))
    decreases |y|
  {
    if y == [] {
      assert x + y == x;
      JoinRunsUnit(TextRuns(x));
    } else {
      var y' := y[..|y| - 1];
      var v := y[|y| - 1];
      assert (x + y)[..|x + y| - 1] == x + y';
      assert (x + y)[|x + y| - 1] == v;
      TextRunsConcat(x, y');
      if IsText(v) {
        JoinAddText(TextRuns(x), TextRuns(y'), v.text.value);
      } else {
        JoinAppendEmpty(TextRuns(x), TextRuns(y'));
      }
    }
  }

  lemma {:induction false} NonTextsConcat(x: seq<VNode>, y: seq<VNode>)
    ensures NonTexts(x + y) == NonTexts(x) + NonTexts(y)
    decreases |y|
  {
    if y == [] {
      assert x + y == x;
    } else {
      assert (x + y)[..|x + y| - 1] == x + y[..|y| - 1];
      NonTextsConcat(x, y[..|y| - 1]);
    }
  }

  lemma KeyedAllConcat(x: seq<Placed>, y: seq<Placed>)
    ensures KeyedAll(x + y) == KeyedAll(x) + KeyedAll(y)
    decreases |y|
  {
    if y == [] {
      assert x + y == x;
    } else {
      assert (x + y)[..|x + y| - 1] == x + y[..|y| - 1];
      KeyedAllConcat(x, y[..|y| - 1]);
    }
  }

  lemma TextRunsMerge(res: seq<VNode>, t: string)
    requires IsTextNode(Last(res))
    ensures TextRuns(MergeIntoLast(res, t)) == AddText(TextRuns(res), t)
    ensures NonTexts(MergeIntoLast(res, t)) == NonTexts(res)
  {
    var m := MergeIntoLast(res, t);
    assert m[..|m| - 1] == res[..|res| - 1];
    AddTextTwice(TextRuns(res[..|res| - 1]), res[|res| - 1].text.value, t);
  }

  lemma TextRunsPush(res: seq<VNode>, v: VNode)
    ensures TextRuns(res + [v]) == if IsText(v) then AddText(TextRuns(res), v.text.value) else TextRuns(res) + [""]
    ensures NonTexts(res + [v]) == NonTexts(res) + if IsText(v) then [] else [v]
  {
    assert (res + [v])[..|res|] == res;
  }

  // ===== One iteration at a time =====

  lemma PushLeafRuns(res: seq<VNode>, c: Child, i: nat, isVList: bool, nested: Option<string>)
    requires !c.Arr?
    ensures TextRuns(PushLeaf(res, c, i, isVList, nested)) == RunsStep(TextRuns(res), c)
  {
    if IsSkipped(c) {
    } else if IsPrimitive(c) {
      if IsTextNode(Last(res)) {
        TextRunsMerge(res, PrimitiveString(c));
      } else if c != Str("") {
        TextRunsPush(res, CreateTextVNode(PrimitiveString(c)));
      } else {
        AddTextEmpty(TextRuns(res));
      }
    } else {
      var v := c.node;
      if IsText(v) && IsTextNode(Last(res)) {
        TextRunsMerge(res, v.text.value);
      } else {
        TextRunsPush(res, WithListKey(v, isVList, nested, i));
      }
    }
  }

  lemma TextRunsSingle(v: VNode)
    requires IsText(v)
    ensures TextRuns([v]) == [v.text.value]
    ensures NonTexts([v]) == []
  {
    TextRunsPush([], v);
    assert [] + [v] == [v];
    assert "" + v.text.value == v.text.value;
  }

  lemma SplitFirst(c: seq<VNode>)
    requires IsTextNode(First(c))
    ensures TextRuns(c) == JoinRuns([c[0].text.value], TextRuns(c[1..]))
    ensures NonTexts(c) == NonTexts(c[1..])
  {
    assert c == [c[0]] + c[1..];
    TextRunsConcat([c[0]], c[1..]);
    NonTextsConcat([c[0]], c[1..]);
    TextRunsSingle(c[0]);
  }

  lemma AppendNestedMergeRuns(res: seq<VNode>, c: seq<VNode>)
    requires IsTextNode(First(c)) && IsTextNode(Last(res))
    ensures TextRuns(AppendNested(res, c)) == JoinRuns(TextRuns(res), TextRuns(c))
    ensures NonTexts(AppendNested(res, c)) == NonTexts(res) + NonTexts(c)
  {
    var t := c[0].text.value;
    var m := MergeIntoLast(res, t);
    assert AppendNested(res, c) == m + c[1..];
    TextRunsConcat(m, c[1..]);
    NonTextsConcat(m, c[1..]);
    TextRunsMerge(res, t);
    SplitFirst(c);
    JoinThroughSingle(TextRuns(res), t, TextRuns(c[1..]));
  }

  lemma AppendNestedRuns(res: seq<VNode>, c: seq<VNode>)
    ensures TextRuns(AppendNested(res, c)) == JoinRuns(TextRuns(res), TextRuns(c))
    ensures NonTexts(AppendNested(res, c)) == NonTexts(res) + NonTexts(c)
  {
    if IsTextNode(First(c)) && IsTextNode(Last(res)) {
      AppendNestedMergeRuns(res, c);
    } else {
      TextRunsConcat(res, c);
      NonTextsConcat(res, c);
    }
  }

  lemma NestedIndexPath(p: seq<nat>, i: nat)
    ensures Some(NestedIndex(PathOpt(p), i)) == PathOpt(p + [i])
  {
    assert (p + [i])[..|p|] == p;
  }

  lemma WithListKeyPlaced(v: VNode, isVList: bool, p: seq<nat>, i: nat)
    ensures WithListKey(v, isVList, PathOpt(p), i) == Keyed(Placed(v, isVList, p + [i]))
  {
    assert (p + [i])[..|p|] == p;
    if p != [] {
      assert SyntheticKey(PathString(p), i) == ListKey(p + [i]);
    }
  }

  lemma PushLeafNodes(res: seq<VNode>, c: Child, i: nat, isVList: bool, p: seq<nat>)
    requires !c.Arr?
    ensures NonTexts(PushLeaf(res, c, i, isVList, PathOpt(p))) ==
            NonTexts(res) + KeyedAll(PlaceLeaf(c, isVList, p + [i]))
  {
    if IsSkipped(c) {
    } else if IsPrimitive(c) {
      if IsTextNode(Last(res)) {
        TextRunsMerge(res, PrimitiveString(c));
      } else if c != Str("") {
        TextRunsPush(res, CreateTextVNode(PrimitiveString(c)));
      }
    } else {
      var v := c.node;
      if IsText(v) && IsTextNode(Last(res)) {
        TextRunsMerge(res, v.text.value);
      } else {
        WithListKeyPlaced(v, isVList, p, i);
        TextRunsPush(res, WithListKey(v, isVList, PathOpt(p), i));
        assert KeyedAll([Placed(v, isVList, p + [i])]) == [Keyed(Placed(v, isVList, p + [i]))];
      }
    }
  }

  // ===== The properties of normalizeArrayChildren =====

  /** One iteration of the text-order proof: a nested array at index `n - 1`. */
  lemma RunsStepArray(a: ChildArray, nested: Option<string>, n: nat)
    requires 0 < n <= |a.items| && a.items[n - 1].Arr?
    requires TextRuns(NormPrefix(a, nested, n - 1)) == InputRuns(a, n - 1)
    requires TextRuns(NormArray(a.items[n - 1].arr, Some(NestedIndex(nested, n - 1)))) ==
             InputRuns(a.items[n - 1].arr, |a.items[n - 1].arr.items|)
    ensures TextRuns(NormPrefix(a, nested, n)) == InputRuns(a, n)
  {
    var sub := a.items[n - 1].arr;
    var res := NormPrefix(a, nested, n - 1);
    var inner := NormArray(sub, Some(NestedIndex(nested, n - 1)));
    assert InputRuns(a, n) == JoinRuns(InputRuns(a, n - 1), InputRuns(sub, |sub.items|));
    if |sub.items| > 0 {
      assert NormPrefix(a, nested, n) == AppendNested(res, inner);
      AppendNestedRuns(res, inner);
    } else {
      assert NormPrefix(a, nested, n) == res;
      JoinRunsUnit(TextRuns(res));
    }
  }

  /** One iteration of the text-order proof: a child at index `n - 1` that is
      not an array. */
  lemma RunsStepLeaf(a: ChildArray, nested: Option<string>, n: nat)
    requires 0 < n <= |a.items| && !a.items[n - 1].Arr?
    requires TextRuns(NormPrefix(a, nested, n - 1)) == InputRuns(a, n - 1)
    ensures TextRuns(NormPrefix(a, nested, n)) == InputRuns(a, n)
  {
    var res := NormPrefix(a, nested, n - 1);
    var c := a.items[n - 1];
    assert NormPrefix(a, nested, n) == PushLeaf(res, c, n - 1, a.isVList, nested);
    assert InputRuns(a, n) == RunsStep(InputRuns(a, n - 1), c);
    PushLeafRuns(res, c, n - 1, a.isVList, nested);
  }

  /** Text order is preserved: the texts between consecutive non-text nodes of
      the result are exactly the input's texts between the same nodes. */
  lemma {:induction false} TextRunsPreserved(a: ChildArray, nested: Option<string>, n: nat)
    requires n <= |a.items|
    ensures TextRuns(NormPrefix(a, nested, n)) == InputRuns(a, n)
    decreases a, n
  {
    if n > 0 {
      TextRunsPreserved(a, nested, n - 1);
      if a.items[n - 1].Arr? {
        var sub := a.items[n - 1].arr;
        TextRunsPreserved(sub, Some(NestedIndex(nested, n - 1)), |sub.items|);
        RunsStepArray(a, nested, n);
      } else {
        RunsStepLeaf(a, nested, n);
      }
    }
  }

  /** One iteration of the node-order proof: a nested array at index `n - 1`. */
  lemma NodesStepArray(a: ChildArray, p: seq<nat>, n: nat)
    requires 0 < n <= |a.items| && a.items[n - 1].Arr?
    requires NonTexts(NormPrefix(a, PathOpt(p), n - 1)) == KeyedAll(InputNodes(a, p, n - 1))
    requires NonTexts(NormArray(a.items[n - 1].arr, PathOpt(p + [n - 1]))) ==
             KeyedAll(InputNodes(a.items[n - 1].arr, p + [n - 1], |a.items[n - 1].arr.items|))
    ensures NonTexts(NormPrefix(a, PathOpt(p), n)) == KeyedAll(InputNodes(a, p, n))
  {
    var i := n - 1;
    var sub := a.items[i].arr;
    var res := NormPrefix(a, PathOpt(p), i);
    var before := InputNodes(a, p, i);
    var inner := InputNodes(sub, p + [i], |sub.items|);
    var out := NormArray(sub, PathOpt(p + [i]));
    NestedIndexPath(p, i);
    assert InputNodes(a, p, n) == before + inner;
    KeyedAllConcat(before, inner);
    if |sub.items| > 0 {
      assert NormPrefix(a, PathOpt(p), n) == AppendNested(res, out);
      AppendNestedRuns(res, out);
    } else {
      assert NormPrefix(a, PathOpt(p), n) == res;
    }
  }

  /** One iteration of the node-order proof: a child at index `n - 1` that is
      not an array. */
  lemma NodesStepLeaf(a: ChildArray, p: seq<nat>, n: nat)
    requires 0 < n <= |a.items| && !a.items[n - 1].Arr?
    requires NonTexts(NormPrefix(a, PathOpt(p), n - 1)) == KeyedAll(InputNodes(a, p, n - 1))
    ensures NonTexts(NormPrefix(a, PathOpt(p), n)) == KeyedAll(InputNodes(a, p, n))
  {
    var i := n - 1;
    var c := a.items[i];
    var res := NormPrefix(a, PathOpt(p), i);
    var before := InputNodes(a, p, i);
    var leaf := PlaceLeaf(c, a.isVList, p + [i]);
    assert NormPrefix(a, PathOpt(p), n) == PushLeaf(res, c, i, a.isVList, PathOpt(p));
    assert InputNodes(a, p, n) == before + leaf;
    PushLeafNodes(res, c, i, a.isVList, p);
    KeyedAllConcat(before, leaf);
  }

  /** Node order is preserved: the non-text entries of the result are the
      non-text input nodes in depth-first order, each with its key set by the
      key rule. */
  lemma {:induction false} NonTextNodesPreserved(a: ChildArray, p: seq<nat>, n: nat)
    requires n <= |a.items|
    ensures NonTexts(NormPrefix(a, PathOpt(p), n)) == KeyedAll(InputNodes(a, p, n))
    decreases a, n
  {
    if n > 0 {
      NonTextNodesPreserved(a, p, n - 1);
      if a.items[n - 1].Arr? {
        var sub := a.items[n - 1].arr;
        NonTextNodesPreserved(sub, p + [n - 1], |sub.items|);
        NodesStepArray(a, p, n);
      } else {
        NodesStepLeaf(a, p, n);
      }
    }
  }

  lemma {:induction false} TextsAreJoinedRuns(s: seq<VNode>)
    ensures Concat(TextRuns(s)) == Texts(s)
    decreases |s|
  {
    if s != [] {
      var p := s[..|s| - 1];
      var v := s[|s| - 1];
      TextsAreJoinedRuns(p);
      var r := TextRuns(p);
      if IsText(v) {
        var r' := AddText(r, v.text.value);
        assert r'[..|r'| - 1] == r[..|r| - 1];
        assert r[..|r| - 1][..|r| - 1] == r[..|r| - 1];
        assert Concat(r) == Concat(r[..|r| - 1]) + r[|r| - 1];
        assert Concat(r') == Concat(r[..|r| - 1]) + (r[|r| - 1] + v.text.value);
      } else {
        assert (r + [""])[..|r|] == r;
      }
    }
  }

  /** All text is kept, in order: the texts of the result, concatenated, are
      the input's strings, numbers and text-node texts, concatenated in
      depth-first order. */
  lemma AllTextPreserved(a: ChildArray, nested: Option<string>)
    ensures Texts(NormArray(a, nested)) == Concat(InputRuns(a, |a.items|))
  {
    TextRunsPreserved(a, nested, |a.items|);
    TextsAreJoinedRuns(NormArray(a, nested));
  }
}
