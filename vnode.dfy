/** The values a render function hands to the child normalisers, and the few
    fields of a virtual node that the normalisers read or write. */
module VNodes {

  datatype Option<+T> = None | Some(value: T)

  /** A node's identity hint: a string or a number. */
  datatype Key = StrKey(s: string) | NumKey(n: int)

  /** A virtual node, reduced to the fields the normalisers look at.  `None`
      stands for a field that is `undefined` or `null`. */
  datatype VNode = VNode(tag: Option<string>, key: Option<Key>, text: Option<string>, isComment: bool)

  /** The text-node stub: `text` set, not a comment, no tag and no key. */
  function CreateTextVNode(s: string): (v: VNode)
    ensures IsText(v) && v.text == Some(s)
    ensures v.tag.None? && v.key.None?
  {
    VNode(None, None, Some(s), false)
  }

  /** A node that counts as text: its `text` is defined and it is not a comment. */
  predicate IsText(v: VNode)
  {
    v.text.Some? && !v.isComment
  }

  /** `isTextNode(node)`: the node must also be defined (an index past the end
      of a JavaScript array reads `undefined`). */
  predicate IsTextNode(node: Option<VNode>)
  {
    node.Some? && IsText(node.value)
  }

  /** One child value.  `Num` holds integers only. */
  datatype Child =
    | Undefined
    | Null
    | Bool(b: bool)
    | Str(s: string)
    | Num(n: int)
    | Node(node: VNode)
    | Arr(arr: ChildArray)

  /** An array of children together with its `_isVList` flag (true exactly
      when the property is `=== true`). */
  datatype ChildArray = ChildArray(items: seq<Child>, isVList: bool)
}
