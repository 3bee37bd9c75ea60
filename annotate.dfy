/**
 * `annotate_json`: a walk over a JSON tree that sets or overwrites the
 * `metadata` field of every node whose label is a key of the annotations
 * object, children first and then the node itself.
 *
 * `Annotated` is the specification; the method `AnnotateJson` follows the
 * source's loop, which rewrites each child in place, and is proved equal
 * to it.
 */
module Annotation {
  import opened Wrappers
  import opened JsonValues
  import opened Trees
  import opened TreeJson

  /**
   * The nodes the walk can visit without throwing: objects with a string
   * `label` and a `children` array of such nodes (or null, which is walked as
   * no children).
   */
  predicate Annotatable(j: Json)
  {
    j.JObj? && "label" in j.fields && j.fields["label"].JStr? && "children" in j.fields
    && (j.fields["children"].JNull?
        || (j.fields["children"].JArr? && forall c | c in j.fields["children"].items :: Annotatable(c)))
  }

  /** The tree after the walk. */
  function Annotated(j: Json, ann: Json): (r: Json)
    requires Annotatable(j)
    ensures Annotatable(r)
    ensures IsTreeJson(j) ==> IsTreeJson(r)
  {
    var withKids := match j.fields["children"]
      case JArr(xs) => j.fields["children" := JArr(seq(|xs|, i requires 0 <= i < |xs| => Annotated(xs[i], ann)))]
      case _ => j.fields;
    var key := j.fields["label"].str;
    if Contains(ann, key) then JObj(withKids["metadata" := ann.fields[key]]) else JObj(withKids)
  }

  /** `annotate_json`: annotate each child in place, left to right, then the node. */
  method AnnotateJson(tree: Json, annotations: Json) returns (r: Json)
    requires Annotatable(tree)
    ensures r == Annotated(tree, annotations)
    decreases tree
  {
    var fields := tree.fields;
    var kids := fields["children"];
    if kids.JArr? {
      var items := kids.items;
      for i := 0 to |items|
        invariant |items| == |kids.items|
        invariant forall k :: 0 <= k < i ==> items[k] == Annotated(kids.items[k], annotations)
        invariant forall k :: i <= k < |items| ==> items[k] == kids.items[k]
      {
        assert kids.items[i] in kids.items;
        var child := AnnotateJson(items[i], annotations);
        items := items[i := child];
      }
      var xs := kids.items;
      assert items == seq(|xs|, i requires 0 <= i < |xs| => Annotated(xs[i], annotations));
      fields := fields["children" := JArr(items)];
    }
    var key := fields["label"].str;
    if Contains(annotations, key) {
      fields := fields["metadata" := annotations.fields[key]];
    }
    r := JObj(fields);
  }

  // ------------------------------------------------------------- properties

  /** The `metadata` field of a node, if it has one. */
  function Metadata(j: Json): Option<Json>
  {
    if j.JObj? && "metadata" in j.fields then Some(j.fields["metadata"]) else None
  }

  /** The node reached from `j` by following the child indexes in `p`. */
  function NodeAt(j: Json, p: seq<nat>): (r: Option<Json>)
    ensures Annotatable(j) && r.Some? ==> Annotatable(r.value)
    decreases |p|
  {
    if |p| == 0 then Some(j)
    else if p[0] < |Kids(j)| then
      assert Kids(j)[p[0]] in Kids(j);
      NodeAt(Kids(j)[p[0]], p[1..])
    else None
  }

  /** The walk reaches every node: at each position it does to that node what it does to a root. */
  lemma {:induction false} AnnotatedAt(j: Json, ann: Json, p: seq<nat>)
    requires Annotatable(j)
    ensures NodeAt(Annotated(j, ann), p).Some? <==> NodeAt(j, p).Some?
    ensures NodeAt(j, p).Some? ==>
              Annotatable(NodeAt(j, p).value)
              && NodeAt(Annotated(j, ann), p).value == Annotated(NodeAt(j, p).value, ann)
    decreases |p|
  {
    if |p| > 0 && p[0] < |Kids(j)| {
      var c := Kids(j)[p[0]];
      assert c in Kids(j);
      AnnotatedAt(c, ann, p[1..]);
    }
  }

  /**
   * After the walk, every node whose label is a key of the annotations has
   * exactly that key's value as `metadata`; every other node keeps the
   * `metadata` it had (or still has none).  No other field changes, no key
   * other than `metadata` is added, and the number of children is the same.
   */
  lemma EveryNode(j: Json, ann: Json, p: seq<nat>)
    requires Annotatable(j) && NodeAt(j, p).Some?
    ensures NodeAt(Annotated(j, ann), p).Some?
    ensures var n := NodeAt(j, p).value; var m := NodeAt(Annotated(j, ann), p).value;
      var key := n.fields["label"].str;
      m.JObj? && m.fields.Keys == n.fields.Keys + (if Contains(ann, key) then {"metadata"} else {})
      && m.fields["label"] == n.fields["label"]
      && (forall k :: k in n.fields && k != "children" && k != "metadata" ==> m.fields[k] == n.fields[k])
      && |Kids(m)| == |Kids(n)|
      && Metadata(m) == (if Contains(ann, key) then Some(ann.fields[key]) else Metadata(n))
  {
    AnnotatedAt(j, ann, p);
  }

  /** The tree's shape and contents with every `metadata` field dropped. */
  function Skeleton(j: Json): Json
    requires Annotatable(j)
  {
    var bare := map k | k in j.fields && k != "metadata" :: j.fields[k];
    match j.fields["children"]
    case JArr(xs) => JObj(bare["children" := JArr(seq(|xs|, i requires 0 <= i < |xs| => Skeleton(xs[i])))])
    case _ => JObj(bare)
  }

  /** Apart from `metadata`, the walk changes nothing anywhere in the tree. */
  lemma {:induction false} SkeletonUnchanged(j: Json, ann: Json)
    requires Annotatable(j)
    ensures Skeleton(Annotated(j, ann)) == Skeleton(j)
    decreases j
  {
    var a := Annotated(j, ann);
    if j.fields["children"].JArr? {
      var xs := j.fields["children"].items;
      var ys := a.fields["children"].items;
      forall i | 0 <= i < |xs|
        ensures Skeleton(ys[i]) == Skeleton(xs[i])
      {
        assert xs[i] in xs;
        SkeletonUnchanged(xs[i], ann);
      }
      assert seq(|ys|, i requires 0 <= i < |ys| => Skeleton(ys[i]))
          == seq(|xs|, i requires 0 <= i < |xs| => Skeleton(xs[i]));
    }
    var bareA := map k | k in a.fields && k != "metadata" :: a.fields[k];
    var bareJ := map k | k in j.fields && k != "metadata" :: j.fields[k];
    assert bareA.Keys == bareJ.Keys;
  }

  /** Annotating twice with the same annotations is the same as annotating once. */
  lemma {:induction false} Idempotent(j: Json, ann: Json)
    requires Annotatable(j)
    ensures Annotated(Annotated(j, ann), ann) == Annotated(j, ann)
    decreases j
  {
    var a := Annotated(j, ann);
    if j.fields["children"].JArr? {
      var xs := j.fields["children"].items;
      var ys := a.fields["children"].items;
      forall i | 0 <= i < |xs|
        ensures Annotated(ys[i], ann) == ys[i]
      {
        assert xs[i] in xs;
        Idempotent(xs[i], ann);
      }
      assert seq(|ys|, i requires 0 <= i < |ys| => Annotated(ys[i], ann)) == ys;
      assert a.fields["children" := JArr(ys)] == a.fields;
    } else {
      assert a.fields["children"] == j.fields["children"];
    }
  }

  /** The output of `to_json` can be walked, and after the walk `from_json` still reads the same tree. */
  lemma {:induction false} AnnotatedTreeReadsBack(t: Tree, ann: Json)
    ensures Annotatable(JsonOf(t))
    ensures TreeOf(Annotated(JsonOf(t), ann)) == Success(t)
    decreases t
  {
    JsonOfShape(t);
    ToJsonAnnotatable(t);
    var a := Annotated(JsonOf(t), ann);
    TreeOfThenJsonOf(a);
    RoundTrip(t);
    TreeOfThenJsonOf(JsonOf(t));
    CanonicalIgnoresMetadata(JsonOf(t), ann);
    JsonOfInjective(TreeOf(a).value, t);
  }

  lemma {:induction false} ToJsonAnnotatable(t: Tree)
    ensures Annotatable(JsonOf(t))
    decreases t
  {
    JsonOfShape(t);
    forall c | c in Kids(JsonOf(t))
      ensures Annotatable(c)
    {
      var i :| 0 <= i < |t.children| && Kids(JsonOf(t))[i] == c;
      ToJsonAnnotatable(t.children[i]);
    }
  }

  lemma {:induction false} CanonicalIgnoresMetadata(j: Json, ann: Json)
    requires Annotatable(j) && IsTreeJson(j)
    ensures Canonical(Annotated(j, ann)) == Canonical(j)
    decreases j
  {
    if j.fields["children"].JArr? {
      var xs := j.fields["children"].items;
      var ys := Annotated(j, ann).fields["children"].items;
      forall i | 0 <= i < |xs|
        ensures Canonical(Annotated(xs[i], ann)) == Canonical(xs[i])
      {
        assert xs[i] in xs;
        CanonicalIgnoresMetadata(xs[i], ann);
      }
      CanonicalListPointwise(ys, xs);
    }
  }

  lemma {:induction false} CanonicalListPointwise(ys: seq<Json>, xs: seq<Json>)
    requires |ys| == |xs|
    requires forall c | c in xs :: IsTreeJson(c)
    requires forall c | c in ys :: IsTreeJson(c)
    requires forall i :: 0 <= i < |xs| ==> Canonical(ys[i]) == Canonical(xs[i])
    ensures CanonicalList(ys) == CanonicalList(xs)
  {
    if |xs| > 0 {
      CanonicalListPointwise(ys[..|ys| - 1], xs[..|xs| - 1]);
    }
  }

  lemma JsonOfInjective(a: Tree, b: Tree)
    requires JsonOf(a) == JsonOf(b)
    ensures a == b
  {
    RoundTrip(a);
    RoundTrip(b);
  }

  /**
   * Two nodes that share the label "A" both receive the annotation for "A";
   * the node labelled "B" and the unlabelled root receive no `metadata`.
   */
  lemma SharedLabelExample()
    ensures var t := Node("", -1.0, [Node("A", 1.0, []), Node("B", 2.0, []), Node("A", 3.0, [])]);
      var note := JObj(map["x" := JNum(1.0)]);
      var a := Annotated(JsonOf(t), JObj(map["A" := note]));
      NodeAt(a, [0]).Some? && NodeAt(a, [1]).Some? && NodeAt(a, [2]).Some?
      && Metadata(NodeAt(a, [0]).value) == Some(note)
      && Metadata(NodeAt(a, [1]).value) == None
      && Metadata(NodeAt(a, [2]).value) == Some(note)
      && Metadata(a) == None
  {
    var t := Node("", -1.0, [Node("A", 1.0, []), Node("B", 2.0, []), Node("A", 3.0, [])]);
    var note := JObj(map["x" := JNum(1.0)]);
    var ann := JObj(map["A" := note]);
    var j := JsonOf(t);
    ToJsonAnnotatable(t);
    JsonOfShape(t);
    forall k | 0 <= k < 3
      ensures NodeAt(j, [k]) == Some(JsonOf(t.children[k]))
      ensures Metadata(JsonOf(t.children[k])) == None
      ensures JsonOf(t.children[k]).fields["label"].str == t.children[k].name
    {
      assert [k][1..] == [];
    }
    EveryNode(j, ann, [0]);
    EveryNode(j, ann, [1]);
    EveryNode(j, ann, [2]);
    EveryNode(j, ann, []);
  }
}
