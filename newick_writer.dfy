/**
 * `dump_newick`, written as the source writes it: step by step into an
 * output sink, with the function-local `static int depth` counter that tells
 * the outermost call (the only one that writes `;` and a newline) from the
 * calls on subtrees.
 */
module NewickWriter {
  import opened Trees
  import opened LengthFormat
  import opened NewickText

  /** The output file: the text written to it so far. */
  class Sink {
    var text: string

    constructor ()
      ensures text == ""
    {
      text := "";
    }

    /** `fprintf(outfile, "%s", s)`. */
    method Write(s: string)
      modifies this
      ensures text == old(text) + s
    {
      text := text + s;
    }
  }

  /**
   * The state `dump_newick` keeps between calls: its `static int depth`,
   * zero when the program starts, one more than zero for every call that is
   * writing the children of a node.
   */
  class NewickDumper {
    var depth: int

    constructor ()
      ensures depth == 0
    {
      depth := 0;
    }

    /**
     * Writes the subtree's text and, when the counter was zero on entry,
     * `;` and a newline; the counter is back at its entry value afterwards,
     * so for every subtree below the root it is positive and no terminator is
     * written there.
     */
    method DumpNewick(t: Tree, out: Sink)
      requires depth >= 0
      modifies this, out
      ensures depth == old(depth)
      ensures out.text == old(out.text) + Subtree(t) + (if old(depth) == 0 then ";\n" else "")
      decreases t
    {
      ghost var before := out.text;
      if |t.children| > 0 {
        depth := depth + 1;
        out.Write("(");
        DumpChildren(t.children, out);
        out.Write(")");
        depth := depth - 1;
        assert before + "(" + Joined(t.children) + ")" == before + Opening(t);
      }
      assert out.text == before + Opening(t);
      DumpLabelAndLength(t, out);
      assert before + Opening(t) + NodeSuffix(t) == before + Subtree(t);
      if depth == 0 {
        out.Write(";\n");
      }
    }

    /**
     * The loop of `dump_newick` over the children, run with the counter
     * already raised: each child's text, and a comma after every child but
     * the last.
     */
    method DumpChildren(cs: seq<Tree>, out: Sink)
      requires depth >= 1
      modifies this, out
      ensures depth == old(depth)
      ensures out.text == old(out.text) + Joined(cs)
      decreases cs
    {
      ghost var before := out.text;
      for i := 0 to |cs|
        invariant depth == old(depth)
        invariant out.text == before + Written(cs, i)
      {
        DumpNewick(cs[i], out);
        if i + 1 != |cs| {
          out.Write(",");
        }
        WrittenStep(before, cs, i);
      }
      WrittenAll(cs);
    }

    /** The label when non-empty, then `:` and the length when it is >= 0. */
    method DumpLabelAndLength(t: Tree, out: Sink)
      modifies out
      ensures out.text == old(out.text) + NodeSuffix(t)
    {
      if |t.name| > 0 {
        out.Write(t.name);
      }
      if t.length >= 0.0 {
        out.Write(":" + FormatLength(t.length));
      }
    }
  }

  /** What the children loop has written after `i` rounds: the first `i` texts and the commas after them. */
  function Written(cs: seq<Tree>, i: nat): string
    requires i <= |cs|
  {
    Joined(cs[..i]) + (if 0 < i < |cs| then "," else "")
  }

  lemma WrittenStep(w: string, cs: seq<Tree>, i: nat)
    requires i < |cs|
    ensures w + Written(cs, i) + Subtree(cs[i]) + (if i + 1 != |cs| then "," else "") == w + Written(cs, i + 1)
  {
    assert cs[..i + 1][..i] == cs[..i];
  }

  lemma WrittenAll(cs: seq<Tree>)
    ensures Written(cs, |cs|) == Joined(cs)
  {
    assert cs[..|cs|] == cs;
  }

  /**
   * Dumping several trees one after another with the same counter: each
   * gets its own terminator, since every call leaves the counter at zero.
   */
  method DumpAll(ts: seq<Tree>) returns (text: string)
    ensures text == NewickAll(ts)
  {
    var dumper := new NewickDumper();
    var out := new Sink();
    for i := 0 to |ts|
      invariant dumper.depth == 0
      invariant out.text == NewickAll(ts[..i])
    {
      dumper.DumpNewick(ts[i], out);
      assert ts[..i + 1][..i] == ts[..i];
    }
    assert ts[..|ts|] == ts;
    text := out.text;
  }

  /** The texts of the trees, each ended by its own `;` and newline. */
  function NewickAll(ts: seq<Tree>): string
  {
    if |ts| == 0 then "" else NewickAll(ts[..|ts| - 1]) + Newick(ts[|ts| - 1])
  }

  /** One `;` per tree dumped: the counter never lets a terminator through twice, nor skips one. */
  lemma {:induction false} OneTerminatorPerTree(ts: seq<Tree>)
    requires forall t | t in ts :: PlainNames(t)
    ensures Count(';', NewickAll(ts)) == |ts|
  {
    if |ts| > 0 {
      var init := ts[..|ts| - 1];
      assert forall t | t in init :: t in ts;
      assert ts[|ts| - 1] in ts;
      OneTerminatorPerTree(init);
      Terminator(ts[|ts| - 1]);
      CountAppend(';', NewickAll(init), Newick(ts[|ts| - 1]));
    }
  }
}
