/**
 * Conversion of a tree to JSON (`to_json`) and back (`from_json`).
 *
 * `JsonOf` and `TreeOf` are the recursive specifications; the methods
 * `ToJson` and `FromJson` follow the source's loops, which push one
 * converted child at a time, and are proved equal to them.
 */
module TreeJson {
  import opened Wrappers
  import opened JsonValues
  import opened Trees

  /** Why `from_json` refuses its input. */
  datatype Error =
    | NotAnObject              // a key was looked up in a value that is not an object
    | MissingField(key: string) // a required key is absent
    | WrongType(key: string)    // a required key holds a value of the wrong JSON type

  // ---------------------------------------------------------------- to_json

  /** The object `{"label": …, "length": …, "children": […]}` of a node. */
  function JsonOf(t: Tree): Json
  {
    JObj(map["label" := JStr(t.name), "length" := JNum(t.length), "children" := JArr(JsonsOf(t.children))])
  }

  /** The children array: each child's object, in order. */
  function JsonsOf(cs: seq<Tree>): (js: seq<Json>)
    ensures |js| == |cs|
    ensures forall i :: 0 <= i < |cs| ==> js[i] == JsonOf(cs[i])
  {
    if |cs| == 0 then [] else JsonsOf(cs[..|cs| - 1]) + [JsonOf(cs[|cs| - 1])]
  }

  /** `to_json`: build the node's object, then append each child's object. */
  method ToJson(t: Tree) returns (j: Json)
    ensures j == JsonOf(t)
    decreases t
  {
    j := JObj(map["label" := JStr(t.name), "length" := JNum(t.length), "children" := JArr([])]);
    for i := 0 to |t.children|
      invariant j == JObj(map["label" := JStr(t.name), "length" := JNum(t.length),
                              "children" := JArr(JsonsOf(t.children[..i]))])
    {
      var c := ToJson(t.children[i]);
      assert t.children[..i + 1][..i] == t.children[..i];
      j := JObj(j.fields["children" := JArr(j.fields["children"].items + [c])]);
    }
    assert t.children[..|t.children|] == t.children;
  }

  // -------------------------------------------------------------- from_json

  /**
   * `from_json`: the children first, in order, then the label (which must be
   * a string) and the length (which must be a number).  The first failure
   * met in that order is the result.
   */
  function TreeOf(j: Json): Result<Tree, Error>
  {
    if !j.JObj? then Failure(NotAnObject)
    else if "children" !in j.fields then Failure(MissingField("children"))
    else
      // the values that `for (auto &child : tree["children"])` visits
      match j.fields["children"]
      case JArr(xs) => WithChildren(j, TreesOf(xs))
      case JNull => WithChildren(j, Success([]))
      case JObj(_) => Failure(WrongType("children"))
      case v =>
        // a scalar is visited once, as the only child
        var c := TreeOf(v);
        WithChildren(j, if c.Failure? then Failure(c.error) else Success([c.value]))
  }

  /** The rest of `from_json`, once the children have been built (or one has failed). */
  function WithChildren(j: Json, kids: Result<seq<Tree>, Error>): Result<Tree, Error>
    requires j.JObj?
  {
    if kids.Failure? then Failure(kids.error)
    else if "label" !in j.fields then Failure(MissingField("label"))
    else if !j.fields["label"].JStr? then Failure(WrongType("label"))
    else if "length" !in j.fields then Failure(MissingField("length"))
    else if !j.fields["length"].JNum? then Failure(WrongType("length"))
    else Success(NewNode(j.fields["label"].str, j.fields["length"].num, kids.value))
  }

  /** The children, converted left to right; the first child that fails decides. */
  function TreesOf(items: seq<Json>): (r: Result<seq<Tree>, Error>)
    ensures r.Success? ==> |r.value| == |items|
  {
    if |items| == 0 then Success([])
    else
      var init := TreesOf(items[..|items| - 1]);
      if init.Failure? then init
      else
        var last := TreeOf(items[|items| - 1]);
        if last.Failure? then Failure(last.error) else Success(init.value + [last.value])
  }

  /** Once a prefix of the children fails, the whole list fails the same way. */
  lemma {:induction false} TreesOfPrefixFailure(items: seq<Json>, k: nat)
    requires k <= |items| && TreesOf(items[..k]).Failure?
    ensures TreesOf(items) == TreesOf(items[..k])
    decreases |items| - k
  {
    if k < |items| {
      assert items[..k + 1][..k] == items[..k];
      TreesOfPrefixFailure(items, k + 1);
    } else {
      assert items[..k] == items;
    }
  }

  /** `from_json`, with the source's loop that pushes one built child at a time. */
  method FromJson(j: Json) returns (r: Result<Tree, Error>)
    ensures r == TreeOf(j)
    decreases j
  {
    if !j.JObj? {
      return Failure(NotAnObject);
    }
    if "children" !in j.fields {
      return Failure(MissingField("children"));
    }
    var v := j.fields["children"];
    var items: seq<Json>;
    match v {
      case JArr(xs) => items := xs;
      case JNull => items := [];
      case JObj(_) => return Failure(WrongType("children"));
      case _ => items := [v];
    }
    var children: seq<Tree> := [];
    for i := 0 to |items|
      invariant TreesOf(items[..i]) == Success(children)
    {
      var c := FromJson(items[i]);
      assert items[..i + 1][..i] == items[..i];
      if c.Failure? {
        TreesOfPrefixFailure(items, i + 1);
        return Failure(c.error);
      }
      children := children + [c.value];
    }
    assert items[..|items|] == items;
    if "label" !in j.fields {
      return Failure(MissingField("label"));
    }
    if !j.fields["label"].JStr? {
      return Failure(WrongType("label"));
    }
    if "length" !in j.fields {
      return Failure(MissingField("length"));
    }
    if !j.fields["length"].JNum? {
      return Failure(WrongType("length"));
    }
    r := Success(NewNode(j.fields["label"].str, j.fields["length"].num, children));
  }

  // ------------------------------------------------------------- properties

  /**
   * The JSON shape that `from_json` accepts: an object whose `children` is an
   * array of such objects (or null), whose `label` is a string and whose
   * `length` is a number.  Other keys are allowed and ignored.
   */
  predicate IsTreeJson(j: Json)
  {
    j.JObj? && "children" in j.fields && "label" in j.fields && "length" in j.fields
    && j.fields["label"].JStr? && j.fields["length"].JNum?
    && (j.fields["children"].JNull?
        || (j.fields["children"].JArr? && forall c | c in j.fields["children"].items :: IsTreeJson(c)))
  }

  /** The children a tree-shaped object lists (none for null). */
  function Kids(j: Json): seq<Json>
  {
    if j.JObj? && "children" in j.fields && j.fields["children"].JArr? then j.fields["children"].items else []
  }

  /**
   * What a tree-shaped object means to `from_json`: only its three keys, the
   * label cut at its first NUL, and null children read as no children.
   */
  function Canonical(j: Json): Json
    requires IsTreeJson(j)
  {
    JObj(map["label" := JStr(CString(j.fields["label"].str)),
             "length" := j.fields["length"],
             "children" := JArr(if j.fields["children"].JArr? then CanonicalList(j.fields["children"].items) else [])])
  }

  function CanonicalList(items: seq<Json>): (r: seq<Json>)
    requires forall c | c in items :: IsTreeJson(c)
    ensures |r| == |items|
  {
    if |items| == 0 then [] else CanonicalList(items[..|items| - 1]) + [Canonical(items[|items| - 1])]
  }

  /**
   * `to_json` always yields an object with exactly the keys `label`,
   * `length` and `children`; the length is kept even when negative, and the
   * children array holds each child's object in order.
   */
  lemma {:induction false} JsonOfShape(t: Tree)
    ensures IsTreeJson(JsonOf(t))
    ensures JsonOf(t).fields.Keys == {"label", "length", "children"}
    ensures JsonOf(t).fields["label"] == JStr(t.name) && JsonOf(t).fields["length"] == JNum(t.length)
    ensures |Kids(JsonOf(t))| == |t.children|
    ensures forall i :: 0 <= i < |t.children| ==> Kids(JsonOf(t))[i] == JsonOf(t.children[i])
    decreases t
  {
    var js := JsonsOf(t.children);
    forall c | c in js
      ensures IsTreeJson(c)
    {
      var i :| 0 <= i < |js| && js[i] == c;
      JsonOfShape(t.children[i]);
    }
  }

  /** Round trip: `from_json(to_json(t))` rebuilds `t` exactly. */
  lemma {:induction false} RoundTrip(t: Tree)
    ensures TreeOf(JsonOf(t)) == Success(t)
    decreases t
  {
    RoundTripList(t.children);
  }

  lemma {:induction false} RoundTripList(cs: seq<Tree>)
    ensures TreesOf(JsonsOf(cs)) == Success(cs)
    decreases cs
  {
    if |cs| > 0 {
      var init := cs[..|cs| - 1];
      assert JsonsOf(cs)[..|cs| - 1] == JsonsOf(init);
      RoundTripList(init);
      RoundTrip(cs[|cs| - 1]);
      assert init + [cs[|cs| - 1]] == cs;
    }
  }

  /** `from_json` succeeds exactly on tree-shaped input. */
  lemma {:induction false} TreeOfSucceedsIff(j: Json)
    ensures TreeOf(j).Success? <==> IsTreeJson(j)
    decreases j
  {
    if j.JObj? && "children" in j.fields {
      var v := j.fields["children"];
      match v
      case JArr(xs) =>
        TreesOfSucceedsIff(xs);
      case JNull =>
      case _ =>
    }
  }

  lemma {:induction false} TreesOfSucceedsIff(items: seq<Json>)
    ensures TreesOf(items).Success? <==> forall c | c in items :: IsTreeJson(c)
    decreases items
  {
    if |items| > 0 {
      var init := items[..|items| - 1];
      TreesOfSucceedsIff(init);
      TreeOfSucceedsIff(items[|items| - 1]);
      assert items == init + [items[|items| - 1]];
    }
  }

  /**
   * The other direction of the round trip: converting back what `from_json`
   * built gives the input with only its three keys, the label cut at its
   * first NUL and null children replaced by an empty array.
   */
  lemma {:induction false} TreeOfThenJsonOf(j: Json)
    requires IsTreeJson(j)
    ensures TreeOf(j).Success? && JsonOf(TreeOf(j).value) == Canonical(j)
    decreases j
  {
    TreeOfSucceedsIff(j);
    var v := j.fields["children"];
    if v.JArr? {
      TreesOfThenJsonsOf(v.items);
    } else {
      assert TreesOf([]) == Success([]);
    }
  }

  lemma {:induction false} TreesOfThenJsonsOf(items: seq<Json>)
    requires forall c | c in items :: IsTreeJson(c)
    ensures TreesOf(items).Success? && JsonsOf(TreesOf(items).value) == CanonicalList(items)
    decreases items
  {
    TreesOfSucceedsIff(items);
    if |items| > 0 {
      var init := items[..|items| - 1];
      var last := items[|items| - 1];
      assert last in items;
      TreesOfThenJsonsOf(init);
      TreeOfThenJsonOf(last);
      var ts := TreesOf(items).value;
      assert ts[..|ts| - 1] == TreesOf(init).value;
    }
  }

  /**
   * Children are built before their parent: when child `k` is the first
   * that fails, `from_json` fails with that child's error, whatever is wrong
   * with the parent's own label or length.
   */
  lemma ChildErrorFirst(j: Json, k: nat)
    requires j.JObj? && "children" in j.fields && j.fields["children"].JArr?
    requires k < |j.fields["children"].items|
    requires TreeOf(j.fields["children"].items[k]).Failure?
    requires forall i :: 0 <= i < k ==> TreeOf(j.fields["children"].items[i]).Success?
    ensures TreeOf(j) == Failure(TreeOf(j.fields["children"].items[k]).error)
  {
    var items := j.fields["children"].items;
    TreesOfPrefixSuccess(items, k);
    assert items[..k + 1][..k] == items[..k];
    TreesOfPrefixFailure(items, k + 1);
  }

  lemma {:induction false} TreesOfPrefixSuccess(items: seq<Json>, k: nat)
    requires k <= |items|
    requires forall i :: 0 <= i < k ==> TreeOf(items[i]).Success?
    ensures TreesOf(items[..k]).Success?
  {
    if k > 0 {
      assert items[..k][..k - 1] == items[..k - 1];
      TreesOfPrefixSuccess(items, k - 1);
    }
  }

  /** The example of a malformed input: `{"label": "x"}` is refused. */
  lemma MissingChildrenRefused()
    ensures TreeOf(JObj(map["label" := JStr("x")])) == Failure(MissingField("children"))
  {
  }
}
