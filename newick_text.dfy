/**
 * The text `dump_newick` writes for a tree, and what can be read off it:
 * parentheses only around the children of internal nodes, the children's
 * texts in order separated by commas, the label and `:length` after them,
 * and one `;` with a newline at the very end.
 */
module NewickText {
  import opened Trees
  import opened LengthFormat

  // ------------------------------------------------------------ the writer

  /** The label, printed only when it is non-empty. */
  function NameText(name: Label): string
  {
    if |name| > 0 then name else ""
  }

  /** `:` and the `%lf` text of the length, printed only when `length >= 0`. */
  function LengthText(x: real): string
  {
    if x >= 0.0 then ":" + FormatLength(x) else ""
  }

  /** What follows a node's children: its label, then its length. */
  function NodeSuffix(t: Tree): string
  {
    NameText(t.name) + LengthText(t.length)
  }

  /** The text of a subtree, without the terminating `;`. */
  function Subtree(t: Tree): string
    decreases t, 1
  {
    Opening(t) + NodeSuffix(t)
  }

  /** What comes before the label: the children in parentheses, or nothing for a leaf. */
  function Opening(t: Tree): string
    decreases t, 0
  {
    if |t.children| > 0 then "(" + Joined(t.children) + ")" else ""
  }

  /** The children's texts, in order, a comma after every one but the last. */
  function Joined(cs: seq<Tree>): string
    decreases cs
  {
    if |cs| == 0 then ""
    else if |cs| == 1 then Subtree(cs[0])
    else Joined(cs[..|cs| - 1]) + "," + Subtree(cs[|cs| - 1])
  }

  /** The whole output of a top-level `dump_newick`. */
  function Newick(t: Tree): string
  {
    Subtree(t) + ";\n"
  }

  /** The texts of a list of subtrees, one per subtree. */
  function Texts(cs: seq<Tree>): (r: seq<string>)
    ensures |r| == |cs| && forall i :: 0 <= i < |cs| ==> r[i] == Subtree(cs[i])
  {
    seq(|cs|, i requires 0 <= i < |cs| => Subtree(cs[i]))
  }

  // ------------------------------------------------------ labels and text

  const Delimiters: set<char> := {'(', ')', ',', ':', ';'}

  /** A string with none of the characters in `d`. */
  predicate NoneOf(s: string, d: set<char>)
  {
    forall i :: 0 <= i < |s| ==> s[i] !in d
  }

  /** Every label in the tree is free of Newick delimiters (they are printed unquoted). */
  predicate PlainNames(t: Tree)
    decreases t
  {
    NoneOf(t.name, Delimiters) && forall c | c in t.children :: PlainNames(c)
  }

  /** How often `c` occurs in `s`. */
  function Count(c: char, s: string): nat
  {
    if |s| == 0 then 0 else (if s[0] == c then 1 else 0) + Count(c, s[1..])
  }

  lemma {:induction false} CountAppend(c: char, a: string, b: string)
    ensures Count(c, a + b) == Count(c, a) + Count(c, b)
  {
    if |a| > 0 {
      assert (a + b)[1..] == a[1..] + b;
      CountAppend(c, a[1..], b);
    } else {
      assert a + b == b;
    }
  }

  lemma {:induction false} CountNone(c: char, s: string, d: set<char>)
    requires NoneOf(s, d) && c in d
    ensures Count(c, s) == 0
  {
    if |s| > 0 {
      CountNone(c, s[1..], d);
    }
  }

  lemma NoneOfAppend(a: string, b: string, d: set<char>)
    requires NoneOf(a, d) && NoneOf(b, d)
    ensures NoneOf(a + b, d)
  {
    forall i | 0 <= i < |a + b|
      ensures (a + b)[i] !in d
    {
      if i >= |a| {
        assert (a + b)[i] == b[i - |a|];
      }
    }
  }

  /** The label and length text of a node with a plain label has no Newick delimiter but the `:`. */
  lemma SuffixChars(t: Tree)
    requires NoneOf(t.name, Delimiters)
    ensures NoneOf(NodeSuffix(t), {'(', ')', ',', ';'})
    ensures forall i :: 0 <= i < |NodeSuffix(t)| && NodeSuffix(t)[i] == ':' ==>
              t.length >= 0.0 && i == |NodeSuffix(t)| - |FormatLength(t.length)| - 1
  {
    var n := NameText(t.name);
    var l := LengthText(t.length);
    assert NodeSuffix(t) == n + l;
    if t.length >= 0.0 {
      FormatLengthChars(t.length);
      assert NoneOf(l, {'(', ')', ',', ';'});
    }
    NoneOfAppend(n, l, {'(', ')', ',', ';'});
    assert forall k :: 0 <= k < |n| ==> (n + l)[k] == n[k];
    assert forall k :: |n| <= k < |n + l| ==> (n + l)[k] == l[k - |n|];
    if t.length >= 0.0 {
      var f := FormatLength(t.length);
      assert forall k :: 1 <= k < |l| ==> l[k] == f[k - 1];
    }
  }

  // ---------------------------------------------- parentheses and counting

  /** Opening minus closing parentheses. */
  function Net(s: string): int
  {
    Count('(', s) - Count(')', s)
  }

  /** Every `)` closes an earlier `(`, and all of them are closed. */
  predicate Balanced(s: string)
  {
    Net(s) == 0 && forall k :: 0 <= k <= |s| ==> Net(s[..k]) >= 0
  }

  lemma NetAppend(a: string, b: string)
    ensures Net(a + b) == Net(a) + Net(b)
  {
    CountAppend('(', a, b);
    CountAppend(')', a, b);
  }

  lemma BalancedAppend(a: string, b: string)
    requires Balanced(a) && Balanced(b)
    ensures Balanced(a + b)
  {
    NetAppend(a, b);
    forall k | 0 <= k <= |a + b|
      ensures Net((a + b)[..k]) >= 0
    {
      if k <= |a| {
        assert (a + b)[..k] == a[..k];
      } else {
        assert (a + b)[..k] == a + b[..k - |a|];
        NetAppend(a, b[..k - |a|]);
      }
    }
  }

  lemma BalancedWrap(a: string)
    requires Balanced(a)
    ensures Balanced("(" + a + ")")
  {
    var s := "(" + a + ")";
    NetAppend("(" + a, ")");
    NetAppend("(", a);
    forall k | 0 <= k <= |s|
      ensures Net(s[..k]) >= 0
    {
      if 1 <= k <= |a| + 1 {
        assert s[..k] == "(" + a[..k - 1];
        NetAppend("(", a[..k - 1]);
      } else if k == 0 {
        assert s[..k] == "";
      } else {
        assert s[..k] == s;
      }
    }
  }

  lemma BalancedPlain(s: string)
    requires NoneOf(s, {'(', ')'})
    ensures Balanced(s)
  {
    CountNone('(', s, {'(', ')'});
    CountNone(')', s, {'(', ')'});
    forall k | 0 <= k <= |s|
      ensures Net(s[..k]) >= 0
    {
      assert NoneOf(s[..k], {'(', ')'});
      CountNone('(', s[..k], {'(', ')'});
      CountNone(')', s[..k], {'(', ')'});
    }
  }

  /**
   * For plain labels, the text has one `(` and one `)` per internal node, no
   * `;`, and its parentheses are balanced.
   */
  lemma {:induction false} SubtreeParens(t: Tree)
    requires PlainNames(t)
    ensures Count('(', Subtree(t)) == InternalNodes(t) && Count(')', Subtree(t)) == InternalNodes(t)
    ensures Count(';', Subtree(t)) == 0
    ensures Balanced(Subtree(t))
    decreases t
  {
    var suffix := NodeSuffix(t);
    SuffixChars(t);
    CountNone('(', suffix, {'(', ')', ',', ';'});
    CountNone(')', suffix, {'(', ')', ',', ';'});
    CountNone(';', suffix, {'(', ')', ',', ';'});
    BalancedPlain(suffix);
    if |t.children| > 0 {
      var j := Joined(t.children);
      JoinedParens(t.children);
      assert Subtree(t) == "(" + j + ")" + suffix;
      forall c: char | c in {'(', ')', ';'}
        ensures Count(c, Subtree(t)) == Count(c, "(") + Count(c, j) + Count(c, ")") + Count(c, suffix)
      {
        CountAppend(c, "(", j);
        CountAppend(c, "(" + j, ")");
        CountAppend(c, "(" + j + ")", suffix);
      }
      BalancedWrap(j);
      BalancedAppend("(" + j + ")", suffix);
    } else {
      assert Subtree(t) == suffix;
    }
  }

  lemma {:induction false} JoinedParens(cs: seq<Tree>)
    requires forall c | c in cs :: PlainNames(c)
    ensures Count('(', Joined(cs)) == InternalNodesOf(cs) && Count(')', Joined(cs)) == InternalNodesOf(cs)
    ensures Count(';', Joined(cs)) == 0
    ensures Balanced(Joined(cs))
    decreases cs
  {
    if |cs| == 1 {
      SubtreeParens(cs[0]);
      assert cs[..0] == [];
    } else if |cs| > 1 {
      var init := cs[..|cs| - 1];
      var last := cs[|cs| - 1];
      assert last in cs;
      assert forall c | c in init :: c in cs;
      JoinedParens(init);
      SubtreeParens(last);
      var a := Joined(init);
      var b := Subtree(last);
      forall c: char | c in {'(', ')', ';'}
        ensures Count(c, Joined(cs)) == Count(c, a) + Count(c, ",") + Count(c, b)
      {
        CountAppend(c, a, ",");
        CountAppend(c, a + ",", b);
      }
      BalancedPlain(",");
      BalancedAppend(a, ",");
      BalancedAppend(a + ",", b);
    } else {
      BalancedPlain("");
    }
  }

  /** `;` and a newline are the last two characters, and `;` occurs nowhere else. */
  lemma Terminator(t: Tree)
    requires PlainNames(t)
    ensures Count(';', Newick(t)) == 1
    ensures |Newick(t)| >= 2 && Newick(t)[|Newick(t)| - 2..] == ";\n"
  {
    SubtreeParens(t);
    CountAppend(';', Subtree(t), ";\n");
  }

  // ------------------------------------------------------- node structure

  /** The characters after the last `)` (all of them when there is none). */
  function AfterLastClose(s: string): string
  {
    if |s| == 0 then ""
    else if s[|s| - 1] == ')' then ""
    else AfterLastClose(s[..|s| - 1]) + [s[|s| - 1]]
  }

  lemma {:induction false} AfterLastCloseTail(a: string, b: string)
    requires NoneOf(b, {')'})
    ensures AfterLastClose(a + ")" + b) == b
  {
    if |b| > 0 {
      var s := a + ")" + b;
      assert s[..|s| - 1] == a + ")" + b[..|b| - 1];
      assert NoneOf(b[..|b| - 1], {')'});
      AfterLastCloseTail(a, b[..|b| - 1]);
      assert b[..|b| - 1] + [b[|b| - 1]] == b;
    } else {
      assert a + ")" + b == a + ")";
    }
  }

  lemma {:induction false} AfterLastClosePlain(b: string)
    requires NoneOf(b, {')'})
    ensures AfterLastClose(b) == b
  {
    if |b| > 0 {
      assert NoneOf(b[..|b| - 1], {')'});
      AfterLastClosePlain(b[..|b| - 1]);
      assert b[..|b| - 1] + [b[|b| - 1]] == b;
    }
  }

  /**
   * Whatever the node's children, what follows the last `)` of its text is
   * exactly its label (verbatim, nothing when empty) and then `:` and the
   * formatted length when the length is non-negative; a `:` appears there
   * if and only if `length >= 0`.
   */
  lemma LabelAndLength(t: Tree)
    requires NoneOf(t.name, Delimiters)
    ensures AfterLastClose(Subtree(t)) == NodeSuffix(t)
    ensures NodeSuffix(t) == t.name + (if t.length >= 0.0 then ":" + FormatLength(t.length) else "")
    ensures ':' in NodeSuffix(t) <==> t.length >= 0.0
  {
    SuffixChars(t);
    var suffix := NodeSuffix(t);
    assert NoneOf(suffix, {')'});
    if |t.children| > 0 {
      AfterLastCloseTail("(" + Joined(t.children), suffix);
    } else {
      assert Subtree(t) == suffix;
      AfterLastClosePlain(suffix);
    }
    if t.length >= 0.0 {
      assert suffix[|t.name|] == ':';
    }
  }

  /** A leaf has no parentheses at all; its text is its label and length. */
  lemma LeafText(t: Tree)
    requires NoneOf(t.name, Delimiters) && |t.children| == 0
    ensures '(' !in Subtree(t) && ')' !in Subtree(t)
    ensures Subtree(t) == t.name + LengthText(t.length)
  {
    SuffixChars(t);
    assert Subtree(t) == NodeSuffix(t);
  }

  /** The text starts with `(` exactly when the node has children. */
  lemma OpensIffInternal(t: Tree)
    requires NoneOf(t.name, Delimiters)
    ensures |t.children| > 0 <==> (|Subtree(t)| > 0 && Subtree(t)[0] == '(')
  {
    SuffixChars(t);
    if |t.children| == 0 {
      assert Subtree(t) == NodeSuffix(t);
    }
  }

  // ------------------------------------------- splitting at top-level commas

  /** A reader's scan: parenthesis depth, the piece being read, the pieces done. */
  datatype Scan = Scan(depth: int, piece: string, pieces: seq<string>)

  function Step(st: Scan, c: char): Scan
  {
    if c == '(' then st.(depth := st.depth + 1, piece := st.piece + [c])
    else if c == ')' then st.(depth := st.depth - 1, piece := st.piece + [c])
    else if c == ',' && st.depth == 0 then st.(piece := "", pieces := st.pieces + [st.piece])
    else st.(piece := st.piece + [c])
  }

  function Run(s: string, st: Scan): Scan
  {
    if |s| == 0 then st else Run(s[1..], Step(st, s[0]))
  }

  /** The pieces of `s` between the commas that are outside all parentheses. */
  function SplitTop(s: string): seq<string>
  {
    var st := Run(s, Scan(0, "", []));
    st.pieces + [st.piece]
  }

  lemma {:induction false} RunAppend(a: string, b: string, st: Scan)
    ensures Run(a + b, st) == Run(b, Run(a, st))
  {
    if |a| > 0 {
      assert (a + b)[1..] == a[1..] + b;
      assert (a + b)[0] == a[0];
      RunAppend(a[1..], b, Step(st, a[0]));
    } else {
      assert a + b == b;
    }
  }

  lemma {:induction false} RunPlain(s: string, st: Scan)
    requires NoneOf(s, {'(', ')', ','})
    ensures Run(s, st) == st.(piece := st.piece + s)
  {
    if |s| > 0 {
      assert NoneOf(s[1..], {'(', ')', ','});
      RunPlain(s[1..], Step(st, s[0]));
      assert st.piece + [s[0]] + s[1..] == st.piece + s;
    }
  }

  /** Scanned from any depth >= 0, a subtree's text is read as one piece and the depth comes back. */
  lemma {:induction false} RunSubtree(t: Tree, st: Scan)
    requires PlainNames(t) && st.depth >= 0
    ensures Run(Subtree(t), st) == st.(piece := st.piece + Subtree(t))
    decreases t
  {
    var suffix := NodeSuffix(t);
    SuffixChars(t);
    assert NoneOf(suffix, {'(', ')', ','});
    if |t.children| > 0 {
      var j := Joined(t.children);
      assert Subtree(t) == "(" + j + ")" + suffix;
      JoinedNested(t.children, Step(st, '('));
      RunParenthesised(j, suffix, st);
    } else {
      assert Subtree(t) == suffix;
      RunPlain(suffix, st);
    }
  }

  lemma RunParenthesised(j: string, suffix: string, st: Scan)
    requires st.depth >= 0 && NoneOf(suffix, {'(', ')', ','})
    requires Run(j, Step(st, '(')) == Step(st, '(').(piece := Step(st, '(').piece + j)
    ensures Run("(" + j + ")" + suffix, st) == st.(piece := st.piece + ("(" + j + ")" + suffix))
  {
    RunAppend("(" + j + ")", suffix, st);
    RunAppend("(" + j, ")", st);
    RunAppend("(", j, st);
    assert Run("(", st) == Step(st, '(');
    var st1 := Step(st, '(');
    var st2 := st1.(piece := st1.piece + j);
    assert Run(")", st2) == Step(st2, ')');
    var st3 := Step(st2, ')');
    RunPlain(suffix, st3);
    assert st.piece + "(" + j + ")" + suffix == st.piece + ("(" + j + ")" + suffix);
  }

  /** Inside parentheses the children's commas do not split. */
  lemma {:induction false} JoinedNested(cs: seq<Tree>, st: Scan)
    requires (forall c | c in cs :: PlainNames(c)) && st.depth >= 1
    ensures Run(Joined(cs), st) == st.(piece := st.piece + Joined(cs))
    decreases cs
  {
    if |cs| == 1 {
      RunSubtree(cs[0], st);
    } else if |cs| > 1 {
      var init := cs[..|cs| - 1];
      var last := cs[|cs| - 1];
      assert last in cs;
      assert forall c | c in init :: c in cs;
      var a := Joined(init);
      RunAppend(a + ",", Subtree(last), st);
      RunAppend(a, ",", st);
      JoinedNested(init, st);
      var st1 := st.(piece := st.piece + a);
      assert Run(",", st1) == Step(st1, ',');
      var st2 := Step(st1, ',');
      RunSubtree(last, st2);
      assert st.piece + a + "," + Subtree(last) == st.piece + Joined(cs);
    }
  }

  /** At depth 0, each comma of the children list ends one child's piece. */
  lemma {:induction false} JoinedTop(cs: seq<Tree>)
    requires (forall c | c in cs :: PlainNames(c)) && |cs| >= 1
    ensures Run(Joined(cs), Scan(0, "", [])) == Scan(0, Subtree(cs[|cs| - 1]), Texts(cs[..|cs| - 1]))
    decreases cs
  {
    var st0 := Scan(0, "", []);
    if |cs| == 1 {
      RunSubtree(cs[0], st0);
      assert Texts(cs[..0]) == [];
    } else {
      var init := cs[..|cs| - 1];
      var last := cs[|cs| - 1];
      assert last in cs;
      assert forall c | c in init :: c in cs;
      var a := Joined(init);
      RunAppend(a + ",", Subtree(last), st0);
      RunAppend(a, ",", st0);
      JoinedTop(init);
      var st1 := Scan(0, Subtree(init[|init| - 1]), Texts(init[..|init| - 1]));
      assert Run(",", st1) == Step(st1, ',');
      var st2 := Step(st1, ',');
      TextsSnoc(init);
      assert st2 == Scan(0, "", Texts(init));
      RunSubtree(last, st2);
    }
  }

  /**
   * A node with k >= 1 children prints, before its label and length, `(`,
   * then text that splits at its top-level commas into exactly the k
   * children's texts in order (so k - 1 commas and none trailing), then `)`.
   */
  lemma ChildrenInOrder(t: Tree)
    requires PlainNames(t) && |t.children| >= 1
    ensures Subtree(t) == Opening(t) + NodeSuffix(t)
    ensures var o := Opening(t);
      |o| >= 2 && o[0] == '(' && o[|o| - 1] == ')' && SplitTop(o[1..|o| - 1]) == Texts(t.children)
  {
    var cs := t.children;
    var j := Joined(cs);
    var o := Opening(t);
    assert o == "(" + j + ")";
    assert o[1..|o| - 1] == j;
    assert forall c | c in cs :: PlainNames(c);
    JoinedTop(cs);
    TextsSnoc(cs);
  }

  /** Kept apart so that the proofs using it see only `Texts`, not the text functions. */
  lemma TextsSnoc(cs: seq<Tree>)
    requires |cs| >= 1
    ensures Texts(cs[..|cs| - 1]) + [Subtree(cs[|cs| - 1])] == Texts(cs)
  {
  }
}
