/** Laws of the two normalisers as a whole: which children contribute nothing,
    the shape of `normalizeChildren`'s result, idempotence, and what the
    one-level flattener does. */
module NormalizeLaws {
  import opened VNodes
  import opened Normalize
  import opened NormalizeFacts

  // ===== Children that contribute nothing =====

  /** `undefined`, `null`, booleans and empty arrays. */
  predicate Inert(c: Child)
  {
    IsSkipped(c) || (c.Arr? && |c.arr.items| == 0)
  }

  /** An iteration depends only on the list so far, the child and the flag. */
  lemma SameStep(a: ChildArray, b: ChildArray, nested: Option<string>, n: nat)
    requires a.isVList == b.isVList && 0 < n <= |a.items| && n <= |b.items|
    requires a.items[n - 1] == b.items[n - 1]
    requires NormPrefix(a, nested, n - 1) == NormPrefix(b, nested, n - 1)
    ensures NormPrefix(a, nested, n) == NormPrefix(b, nested, n)
  {
  }

  /** The first `n` iterations see only the first `n` children. */
  lemma {:induction false} PrefixSeesOnlyPrefix(a: ChildArray, b: ChildArray, nested: Option<string>, n: nat)
    requires a.isVList == b.isVList && n <= |a.items| && n <= |b.items|
    requires a.items[..n] == b.items[..n]
    ensures NormPrefix(a, nested, n) == NormPrefix(b, nested, n)
    decreases n
  {
    if n > 0 {
      assert a.items[n - 1] == a.items[..n][n - 1] == b.items[n - 1];
      assert a.items[..n - 1] == a.items[..n][..n - 1] == b.items[..n - 1];
      PrefixSeesOnlyPrefix(a, b, nested, n - 1);
      SameStep(a, b, nested, n);
    }
  }

  /** Two arrays that differ at one index whose iteration changes nothing have
      the same prefixes from there on. */
  lemma {:induction false} AgreeAroundNoOp(a: ChildArray, b: ChildArray, nested: Option<string>, i: nat, n: nat)
    requires a.isVList == b.isVList && |a.items| == |b.items| && i < n <= |a.items|
    requires forall k :: 0 <= k < |a.items| && k != i ==> a.items[k] == b.items[k]
    requires NormPrefix(a, nested, i + 1) == NormPrefix(a, nested, i)
    requires NormPrefix(b, nested, i + 1) == NormPrefix(b, nested, i)
    ensures NormPrefix(a, nested, n) == NormPrefix(b, nested, n)
    decreases n
  {
    if n == i + 1 {
      assert a.items[..i] == b.items[..i];
      PrefixSeesOnlyPrefix(a, b, nested, i);
    } else {
      AgreeAroundNoOp(a, b, nested, i, n - 1);
      SameStep(a, b, nested, n);
    }
  }

  /** An inert child, or `''` when the previous entry is not a text node,
      contributes no entry, and the result is the same as with `undefined` in
      its place (the indices of the later children, and so their keys, stay as
      they are). */
  lemma DroppedChildIsInert(a: ChildArray, nested: Option<string>, i: nat)
    requires i < |a.items|
    requires Inert(a.items[i]) || (a.items[i] == Str("") && !IsTextNode(Last(NormPrefix(a, nested, i))))
    ensures NormPrefix(a, nested, i + 1) == NormPrefix(a, nested, i)
    ensures NormArray(a.(items := a.items[i := Undefined]), nested) == NormArray(a, nested)
  {
    var b := a.(items := a.items[i := Undefined]);
    assert b.items[..i] == a.items[..i];
    PrefixSeesOnlyPrefix(a, b, nested, i);
    AgreeAroundNoOp(a, b, nested, i, |a.items|);
  }

  // ===== normalizeChildren =====

  /** The result of normalising an array from the root: no adjacent text nodes,
      texts between non-text nodes as in the input, and the non-text nodes of
      the input in depth-first order with the key rule applied. */
  lemma NormalizeChildrenOfArray(children: Child)
    requires children.Arr?
    ensures var out := NormalizeChildren(children).value;
      && NoAdjacentText(out)
      && TextRuns(out) == InputRuns(children.arr, |children.arr.items|)
      && NonTexts(out) == KeyedAll(InputNodes(children.arr, [], |children.arr.items|))
  {
    var a := children.arr;
    TextRunsPreserved(a, None, |a.items|);
    NonTextNodesPreserved(a, [], |a.items|);
  }

  // ===== Idempotence =====

  lemma {:induction false} NormPrefixOfNormalized(out: seq<VNode>, isVList: bool, n: nat)
    requires NoAdjacentText(out) && n <= |out|
    ensures NormPrefix(ChildArray(Wrap(out), isVList), None, n) == out[..n]
    decreases n
  {
    if n > 0 {
      NormPrefixOfNormalized(out, isVList, n - 1);
      assert ChildArray(Wrap(out), isVList).items[n - 1] == Node(out[n - 1]);
      assert out[..n] == out[..n - 1] + [out[n - 1]];
      if n >= 2 {
        assert !(IsText(out[n - 2]) && IsText(out[n - 1]));
      }
    }
  }

  /** Normalising, from the root, a list without adjacent text nodes gives the
      same list back and assigns no key. */
  lemma NormalizedIsFixpoint(out: seq<VNode>, isVList: bool)
    requires NoAdjacentText(out)
    ensures NormArray(ChildArray(Wrap(out), isVList), None) == out
  {
    NormPrefixOfNormalized(out, isVList, |out|);
    assert out[..|out|] == out;
  }

  /** `normalizeChildren` applied to (an array holding) its own result returns
      that result unchanged. */
  lemma NormalizeChildrenIdempotent(children: Child, isVList: bool)
    requires NormalizeChildren(children).Some?
    ensures NormalizeChildren(Arr(ChildArray(Wrap(NormalizeChildren(children).value), isVList))) ==
            NormalizeChildren(children)
  {
    var out := NormalizeChildren(children).value;
    if children.Arr? {
      NormalizeChildrenOfArray(children);
    }
    NormalizedIsFixpoint(out, isVList);
  }

  // ===== simpleNormalizeChildren =====

  /** Flattening keeps the order: it distributes over concatenation. */
  lemma {:induction false} Flatten1Concat(x: seq<Child>, y: seq<Child>)
    ensures Flatten1(x + y) == Flatten1(x) + Flatten1(y)
    decreases |y|
  {
    if y == [] {
      assert x + y == x;
    } else {
      assert (x + y)[..|x + y| - 1] == x + y[..|y| - 1];
      Flatten1Concat(x, y[..|y| - 1]);
    }
  }

  /** When the nested arrays hold no arrays, one level of flattening leaves
      none, so flattening again changes nothing. */
  lemma {:induction false} Flatten1OneLevel(s: seq<Child>)
    requires forall k :: 0 <= k < |s| && s[k].Arr? ==> HasNoArray(s[k].arr.items)
    ensures HasNoArray(Flatten1(s))
    ensures Flatten1(Flatten1(s)) == Flatten1(s)
  {
    if s != [] {
      Flatten1OneLevel(s[..|s| - 1]);
    }
    Flatten1OfNoArrays(Flatten1(s));
  }

  /** A node that is not a text node. */
  predicate PlainNode(c: Child)
  {
    c.Node? && !IsText(c.node)
  }

  /** Only non-text nodes. */
  predicate AllPlain(s: seq<Child>)
  {
    forall k :: 0 <= k < |s| ==> PlainNode(s[k])
  }

  /** Input the one-level flattener is meant for: non-text nodes, and arrays
      of non-text nodes that are not v-lists. */
  predicate ShallowChildren(s: seq<Child>)
  {
    forall k :: 0 <= k < |s| ==>
      PlainNode(s[k]) ||
      (s[k].Arr? && !s[k].arr.isVList && forall j :: 0 <= j < |s[k].arr.items| ==> PlainNode(s[k].arr.items[j]))
  }

  lemma WrapConcat(x: seq<VNode>, y: seq<VNode>)
    ensures Wrap(x + y) == Wrap(x) + Wrap(y)
  {
  }

  lemma {:induction false} PlainArrayNormalizes(b: ChildArray, nested: Option<string>, n: nat)
    requires !b.isVList && n <= |b.items|
    requires AllPlain(b.items)
    ensures Wrap(NormPrefix(b, nested, n)) == b.items[..n]
    decreases n
  {
    if n > 0 {
      PlainArrayNormalizes(b, nested, n - 1);
      var res := NormPrefix(b, nested, n - 1);
      assert |res| > 0 ==> Node(res[|res| - 1]) == b.items[n - 2];
      WrapConcat(res, [b.items[n - 1].node]);
      assert b.items[..n] == b.items[..n - 1] + [b.items[n - 1]];
    }
  }

  /** The list so far holds only non-text nodes, so nothing merges. */
  lemma ShallowStep(res: seq<VNode>, done: seq<Child>, c: seq<VNode>)
    requires Wrap(res) == done && AllPlain(done)
    ensures !IsTextNode(Last(res))
    ensures AppendNested(res, c) == res + c
  {
    if |res| > 0 {
      assert Wrap(res)[|res| - 1] == Node(res[|res| - 1]);
    }
  }

  /** Splicing a normalised array of non-text nodes onto non-text nodes. */
  lemma ShallowSpliceArray(res: seq<VNode>, done: seq<Child>, sub: ChildArray, nested: Option<string>)
    requires Wrap(res) == done && AllPlain(done)
    requires !sub.isVList && AllPlain(sub.items)
    ensures Wrap(AppendNested(res, NormArray(sub, nested))) == done + sub.items
    ensures AllPlain(done + sub.items)
  {
    var c := NormArray(sub, nested);
    PlainArrayNormalizes(sub, nested, |sub.items|);
    assert sub.items[..|sub.items|] == sub.items;
    ShallowStep(res, done, c);
    WrapConcat(res, c);
  }

  /** Pushing one more non-text node. */
  lemma ShallowPushNode(res: seq<VNode>, done: seq<Child>, v: VNode, i: nat, isVList: bool)
    requires Wrap(res) == done && AllPlain(done) && !IsText(v)
    ensures Wrap(PushLeaf(res, Node(v), i, isVList, None)) == done + [Node(v)]
    ensures AllPlain(done + [Node(v)])
  {
    ShallowStep(res, done, []);
    assert PushLeaf(res, Node(v), i, isVList, None) == res + [v];
    WrapConcat(res, [v]);
  }

  /** One step of `ShallowPrefix`: child `n - 1` of an input meant for the
      one-level flattener. */
  lemma ShallowPrefixStep(s: seq<Child>, isVList: bool, n: nat)
    requires ShallowChildren(s) && 0 < n <= |s|
    requires Wrap(NormPrefix(ChildArray(s, isVList), None, n - 1)) == Flatten1(s[..n - 1])
    requires AllPlain(Flatten1(s[..n - 1]))
    ensures Wrap(NormPrefix(ChildArray(s, isVList), None, n)) == Flatten1(s[..n])
    ensures AllPlain(Flatten1(s[..n]))
  {
    var a := ChildArray(s, isVList);
    var res := NormPrefix(a, None, n - 1);
    var done := Flatten1(s[..n - 1]);
    assert s[..n][..n - 1] == s[..n - 1];
    assert Flatten1(s[..n]) == done + Spread(s[n - 1]);
    if s[n - 1].Arr? {
      var sub := s[n - 1].arr;
      assert AllPlain(sub.items);
      ShallowSpliceArray(res, done, sub, Some(NestedIndex(None, n - 1)));
    } else {
      ShallowPushNode(res, done, s[n - 1].node, n - 1, isVList);
    }
  }

  lemma {:induction false} ShallowPrefix(s: seq<Child>, isVList: bool, n: nat)
    requires ShallowChildren(s) && n <= |s|
    ensures Wrap(NormPrefix(ChildArray(s, isVList), None, n)) == Flatten1(s[..n])
    ensures AllPlain(Flatten1(s[..n]))
    decreases n
  {
    if n > 0 {
      ShallowPrefix(s, isVList, n - 1);
      ShallowPrefixStep(s, isVList, n);
    }
  }

  /** On the input it is meant for, the one-level flattener gives exactly the
      nodes the full normaliser gives. */
  lemma SimpleAgreesWithFull(s: seq<Child>, isVList: bool)
    requires ShallowChildren(s)
    ensures Wrap(NormArray(ChildArray(s, isVList), None)) == Flatten1(s)
  {
    ShallowPrefix(s, isVList, |s|);
    assert s[..|s|] == s;
  }
}
