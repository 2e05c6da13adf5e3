# Child normalisation of the Vue 2 virtual DOM, in Dafny

A render function can return children in many shapes: strings, numbers,
booleans, `null`/`undefined`, virtual nodes, and arrays of any of these nested
to any depth. Before diffing, the virtual DOM turns these children into a flat
list of virtual nodes. The file `vue-2.6/src/core/vdom/helpers/normalize-children.js`
does this with two normalisers:

- `simpleNormalizeChildren` flattens one level with `Array.prototype.concat`.
  When no child is an array it returns its input unchanged, as the same array.
- `normalizeChildren` turns a primitive into a one-element list holding a text
  node and sends an array to `normalizeArrayChildren`. For anything else it
  gives `undefined`.
- `normalizeArrayChildren` walks nested arrays depth-first. It drops absent
  values and booleans, turns primitives into text nodes, and merges each new
  text with the entry just before it when that entry is a text node. It also
  gives the synthetic key `__vlist<nestedIndex>_<i>__` to un-keyed tagged nodes
  that sit directly inside a nested array flagged `_isVList`.

The project has six files:

- `vnode.dfy` (module `VNodes`): the child union `Child` (`Undefined | Null |
  Bool | Str | Num | Node | Arr`). It also holds `ChildArray` (the elements
  plus the `_isVList` flag) and the node fields this file reads: `tag`, `key`,
  `text`, `isComment`. Here also are the `createTextVNode` stub and
  `isTextNode`.
- `decimal.dfy` (module `Decimal`): how integers are spelled in decimal, with
  the inverse parse. This is what `String(n)` and template literals give for
  integral numbers below 10^21 in magnitude.
- `normalize.dfy` (module `Normalize`): the model of the three functions.
  - `NormPrefix` is one step of the `for` loop applied `n` times, and
    `NormArray` is the whole loop. Together they state what
    `normalizeArrayChildren` returns.
  - `NormalizeArrayChildren` is the loop itself. It is written as a method
    over a growing list `res`, with `res[lastIndex] := …`, the shift of the
    recursive result, and the key assignment. It is proved to compute
    `NormArray`.
  - `SimpleNormalizeChildren` takes an `array` and returns one, so that "the
    same array" is stated as reference equality.
- `normalize_facts.dfy` (module `NormalizeFacts`): how an output list is
  observed, with reference definitions that read the input depth-first
  without merging. These are the text runs between non-text nodes
  (`TextRuns`, `InputRuns`) and the non-text nodes with their positions
  (`NonTexts`, `InputNodes`, `Placed`). The module also proves the order and
  key theorems. The no-adjacent-text theorem sits in `Normalize`, next to
  `NormArray`, whose contract states it.
- `normalize_keys.dfy` (module `NormalizeKeys`): the synthetic key encodes the
  node's position, and that encoding is injective. So the keys given to
  non-text nodes in one normalisation never collide.
- `normalize_laws.dfy` (module `NormalizeLaws`): which children contribute
  nothing, the shape of `normalizeChildren`'s result, idempotence, and the
  laws of the one-level flattener.

Modelling choices:

- Nodes are values. The write `c.key = …` at line 82 is modelled as the output
  carrying the re-keyed node (see "Left out").
- `isUndef` means `undefined` or `null`. `isPrimitive` accepts strings and
  numbers. A field that is `undefined` or `null` is `None`.
- `isComment` is read only through `isFalse`. So a node whose `isComment` is
  anything other than `false` is written with `isComment == true`.
- The `_isVList` flag is read from the array that directly contains the node,
  as line 78 reads `children._isVList`.
- The merge target is recomputed from `res` before every child (lines 49–50).
  So a text at the end of a just-spliced sub-array merges with a following
  primitive.
- synthetic key: a name coined by this model (not used in the source) for the
  key `__vlist<nestedIndex>_<i>__` written at line 82.
- position: a name coined by this model for the list of indices that leads
  from the root array to a child. It is written `_i1_i2…` by `PathString`.
  The `nestedIndex` of an array is the string form of its position.

Two behaviours of the code that are easy to misread:

- Inside an array, `''` contributes nothing only when the previous entry is
  not a text node. After a text node, line 67 still replaces that node with a
  fresh, un-keyed text node holding the same text.
- At the top level, `normalizeChildren('')` gives one text node with empty
  text. There is no empty-string check on that path (line 33).

## Model

| member | source | states |
|---|---|---|
| `Normalize.NormalizeArrayChildren` | vue-2.6/src/core/vdom/helpers/normalize-children.js:43-89 | The loop, the recursion on nested arrays, the in-place merge `res[lastIndex] = …`, the `shift` and the key write compute exactly `NormArray(children, nestedIndex)`. |
| `Normalize.NormalizeChildren` | vue-2.6/src/core/vdom/helpers/normalize-children.js:31-37 | A result exists exactly for primitives and arrays. A primitive gives exactly one text node whose text is its string form, with no empty-string check. An array gives `normalizeArrayChildren(children)` with `nestedIndex` undefined. |
| `Normalize.SimpleNormalizeChildren` | vue-2.6/src/core/vdom/helpers/normalize-children.js:18-25 | The result is the one-level concatenation of the input. It is the input array itself exactly when no element is an array, and otherwise a freshly allocated array. |
| `Normalize.Flatten1OfNoArrays` | vue-2.6/src/core/vdom/helpers/normalize-children.js:19-24 | Without array elements, concatenation gives the input back, so the early-return shortcut agrees with `concat`. |
| `Normalize.MergeIntoLast` | vue-2.6/src/core/vdom/helpers/normalize-children.js:63-67 | A merge keeps the length and all earlier entries. The last entry becomes a fresh text node holding the old last text followed by the new text. |
| `NormalizeLaws.Flatten1Concat` | vue-2.6/src/core/vdom/helpers/normalize-children.js:21 | Flattening distributes over concatenation, so order is kept: arrays are spliced in place and other values stay as singletons. |
| `NormalizeLaws.Flatten1OneLevel` | vue-2.6/src/core/vdom/helpers/normalize-children.js:15-21 | When nested arrays hold no arrays, the result holds no arrays. Flattening it again changes nothing. |
| `NormalizeLaws.SimpleAgreesWithFull` | vue-2.6/src/core/vdom/helpers/normalize-children.js:13-21 | Take children that are non-text nodes, or arrays of non-text nodes without the v-list flag. On these, one-level flattening gives exactly the nodes that full normalisation gives. |
| `Normalize.NormArray` | vue-2.6/src/core/vdom/helpers/normalize-children.js:43-89 | The result of `normalizeArrayChildren(a, nestedIndex)`. No two neighbouring entries of it are text nodes. |
| `Normalize.NormPrefixKeepsEarlier` | vue-2.6/src/core/vdom/helpers/normalize-children.js:46-87 | `NormPrefix(a, nestedIndex, n)` is `res` after `n` iterations. One iteration never shrinks `res` and leaves every entry before the old last one as it was: only `res[lastIndex]` is rewritten (lines 57, 67, 75), otherwise entries are appended (lines 60, 70, 84). |
| `Normalize.NoAdjacentTextInResult` | vue-2.6/src/core/vdom/helpers/normalize-children.js:46-87 | After any number of iterations, and for any `nestedIndex`, no two adjacent entries of `res` are both text nodes. |
| `NormalizeFacts.TextRunsPreserved` | vue-2.6/src/core/vdom/helpers/normalize-children.js:46-87 | Between any two consecutive non-text nodes of the result, the text equals the input's strings, numbers and text-node texts between the same two nodes, read depth-first, left to right. Before the first and after the last non-text node, this holds too. |
| `NormalizeFacts.AllTextPreserved` | vue-2.6/src/core/vdom/helpers/normalize-children.js:46-87 | The concatenation of all texts of the result equals the in-order concatenation of the input's text contributions. |
| `NormalizeFacts.NonTextNodesPreserved` | vue-2.6/src/core/vdom/helpers/normalize-children.js:46-87 | The non-text entries of the result are the input's non-text nodes in depth-first, left-to-right order, each with its key set by the key rule. A node gets `__vlist<position>__` exactly when its directly containing array is a v-list, it is nested (not a child of the root call), it has a tag and it has no key. |
| `NormalizeFacts.PushLeafRuns` | vue-2.6/src/core/vdom/helpers/normalize-children.js:62-86 | One iteration for a non-array child extends the text runs as the reference does. Absent values and booleans leave them alone. Primitives and text nodes add their text to the current run, and other nodes start a new run. |
| `NormalizeFacts.AppendNestedRuns` | vue-2.6/src/core/vdom/helpers/normalize-children.js:52-61 | Splicing a recursive result, merging its first entry into the last one when both are text, joins the text runs and concatenates the non-text nodes. |
| `NormalizeFacts.NestedIndexPath` | vue-2.6/src/core/vdom/helpers/normalize-children.js:54 | The `nestedIndex` passed to the recursive call is the string form of the nested array's position. It is the parent's `nestedIndex` (or `''`) followed by `_` and the index. |
| `NormalizeFacts.WithListKeyPlaced` | vue-2.6/src/core/vdom/helpers/normalize-children.js:78-83 | The key written in the loop, `__vlist${nestedIndex}_${i}__`, is the synthetic key of the node's position. The rule that decides whether it is written is the same one. |
| `NormalizeKeys.PathStringInjective` | vue-2.6/src/core/vdom/helpers/normalize-children.js:54 | Distinct positions give distinct `nestedIndex` strings. |
| `NormalizeKeys.ListKeyInjective` | vue-2.6/src/core/vdom/helpers/normalize-children.js:82 | Distinct positions give distinct synthetic keys. |
| `NormalizeKeys.InputNodePositions` | vue-2.6/src/core/vdom/helpers/normalize-children.js:46-54 | The input nodes sit at pairwise distinct positions. Each position extends the position of the array being walked. |
| `NormalizeKeys.SyntheticKeysDistinct` | vue-2.6/src/core/vdom/helpers/normalize-children.js:78-83 | Within one normalisation from the root, the `k`-th non-text entry of the result is the `k`-th non-text input node with the key rule applied. No two non-text nodes given a synthetic key get the same key. |
| `NormalizeLaws.DroppedChildIsInert` | vue-2.6/src/core/vdom/helpers/normalize-children.js:48-71 | These contribute no entry: `undefined`, `null`, booleans, empty arrays, and `''` when the previous entry is not a text node. Putting `undefined` in their place leaves the whole result unchanged. |
| `NormalizeLaws.NormalizeChildrenOfArray` | vue-2.6/src/core/vdom/helpers/normalize-children.js:34-35 | For an array, `normalizeChildren` gives a list with no adjacent text nodes. Its text runs are those of the input, and its non-text nodes are the input's, in order and keyed by the key rule. |
| `NormalizeLaws.NormalizedIsFixpoint` | vue-2.6/src/core/vdom/helpers/normalize-children.js:44-88 | At the root, normalising a list without adjacent text nodes returns the same list and assigns no keys, whatever its v-list flag. |
| `NormalizeLaws.NormalizeChildrenIdempotent` | vue-2.6/src/core/vdom/helpers/normalize-children.js:31-37 | Normalising an array that holds the result of `normalizeChildren` gives that result again. |
| `Decimal.NatToString` | vue-2.6/src/core/vdom/helpers/normalize-children.js:82 | An index is spelled as a non-empty string of decimal digits with no leading zero. |
| `Decimal.IntToString` | vue-2.6/src/core/vdom/helpers/normalize-children.js:67-70 | The text a number contributes, in `last.text + c` (line 67) and `createTextVNode(c)` (line 70), is its decimal spelling. The spelling is non-empty, and reading its digits back gives the number. A negative number gets a leading `-`, and the digits after it read back as its magnitude. (The test `c !== ''` at line 68 is true for every number because the types differ. In the model it holds because `Num` and `Str` are different constructors.) |
| `VNodes.CreateTextVNode` | vue-2.6/src/core/vdom/helpers/normalize-children.js:57-75 | The stub used at lines 33, 57, 67, 70 and 75 gives a text node with exactly the given text, no tag and no key. |
| `VNodes.IsTextNode` | vue-2.6/src/core/vdom/helpers/normalize-children.js:39-41 | This is line 40's `isDef(node) && isDef(node.text) && isFalse(node.isComment)`. An undefined or `null` node or `text` is `None`, and `isComment == true` stands for any value other than `false`. |
| `Decimal.ParseNatToString` | vue-2.6/src/core/vdom/helpers/normalize-children.js:82 | Reading back an index's decimal spelling gives the index. |
| `Decimal.NatToStringInjective` | vue-2.6/src/core/vdom/helpers/normalize-children.js:82 | Distinct indices are spelled differently. |

## Left out

- Nodes are values, not shared objects. The key write at line 82 changes the
  caller's node object in place. The model instead returns the re-keyed node
  in the output. Suppose one node object appears twice in the input: after
  its first key write, the second occurrence already has a key. The model
  does not capture this. Reuse of one node object across calls is not
  modelled either.
- `core/vdom/vnode` and `shared/util` are not part of this model. Only the
  fields this file reads are kept, and the `shared/util` predicates are taken
  as described under "Modelling choices".
- Numbers are integers. `String(n)` for non-integral numbers, `NaN` and
  infinities is not modelled, because that conversion carries floating-point
  semantics. For integral numbers of magnitude 10^21 or more, `String(n)`
  switches to exponent notation (`String(1e21)` is `"1e+21"`), but
  `IntToString` writes out every digit. `Num` also accepts integers above
  2^53, which no JavaScript number holds exactly.
- Symbol primitives are left out. Concatenating one with `+` at line 67
  throws.
- A defined `text` that is not a string is left out. `text` is a string when
  defined.
- `NormalizeFacts.NonTextNodesPreserved`: states the keys of non-text nodes
  only. A text node that also has a tag is keyed by the same rule when it is
  not merged. `NormPrefix` and the method compute this, but no lemma states
  it.
- `NormalizeKeys.SyntheticKeysDistinct`: covers non-text nodes only. A text
  node that has a tag and is pushed unmerged into a nested v-list is keyed by
  line 82 as well, but no lemma states that its key differs from the others.
  The lemma is stated over the non-text entries of the result, matched one to
  one with the input nodes. It does not speak of text entries.
- `NormalizeFacts.TextRunsPreserved`: states the texts of the text entries.
  It does not say which of them are input text nodes passed through and which
  are fresh merged nodes.
- The compiler's choice of which normaliser to call is not modelled. The SSR
  hydration reasons in the comments (lines 6–17, 27–30 and 64–66) are not
  modelled either.
- Unbounded recursion depth is not modelled. Deep nesting that would exhaust
  the JavaScript call stack has no counterpart in the model.
