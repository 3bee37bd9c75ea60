/**
 * The tree node: a label, a branch length and an ordered list of owned
 * children.  A negative length means that no length was recorded.
 */
module Trees {

  /**
   * The node's label is a std::string that is only ever assigned from a
   * `const char *`, so it can never hold a NUL character.
   */
  type Label = s: string | '\0' !in s witness ""

  /** A node; the source's `label` field is called `name` here. */
  datatype Tree = Node(name: Label, length: real, children: seq<Tree>)

  /**
   * What a std::string built from `s.c_str()` holds: the characters of `s`
   * up to, and not including, the first NUL.
   */
  function CString(s: string): (r: Label)
    ensures r <= s
    ensures |r| < |s| ==> s[|r|] == '\0'
  {
    if |s| == 0 || s[0] == '\0' then "" else [s[0]] + CString(s[1..])
  }

  /**
   * The constructor `NewickTree(label, length, children)`: the new node owns
   * the given children; its label is the C string that was passed.
   */
  function NewNode(text: string, length: real, children: seq<Tree>): (t: Tree)
    ensures t.children == children && t.length == length
    ensures '\0' !in text ==> t.name == text
  {
    Node(CString(text), length, children)
  }

  /** The number of nodes that have at least one child. */
  function InternalNodes(t: Tree): nat
  {
    (if |t.children| > 0 then 1 else 0) + InternalNodesOf(t.children)
  }

  function InternalNodesOf(cs: seq<Tree>): nat
  {
    if |cs| == 0 then 0 else InternalNodesOf(cs[..|cs| - 1]) + InternalNodes(cs[|cs| - 1])
  }
}
