# flywick tree core in Dafny

This project models `NewickTree`, the one tree type of the flywick tool
(`cpp/src/newick.cpp`), and proves properties of it. A node has a label, a
branch length (a negative length means none was recorded) and an ordered list
of children that it owns. The model covers the four things the type does:

- **Newick writer** (`dump_newick`). It writes `(`, then the children separated
  by commas, then `)`, but only for a node that has children. Then it writes the
  label if it is non-empty, and `:` with the `%lf` text of the length if
  `length >= 0`. Only the outermost call writes `;` and a newline. The source
  tells the outermost call apart with a function-local `static int depth`.
- **JSON serialisation** (`to_json`). It produces `{"label", "length", "children"}`.
- **JSON deserialisation** (`from_json`). It builds the children first, in
  order, then the node.
- **Annotation** (`annotate_json`). It walks a JSON tree and sets each node's
  `metadata` from an annotations object keyed by label.

Files and modules:

| file | module | contents |
|---|---|---|
| `wrappers.dfy` | `Wrappers` | `Option`, `Result` |
| `json.dfy` | `JsonValues` | the JSON value datatype |
| `tree.dfy` | `Trees` | `Tree`, the NUL-free `Label` type, the constructor `NewNode` |
| `tree_json.dfy` | `TreeJson` | `to_json` / `from_json` as functions (`JsonOf`, `TreeOf`) and as loop methods (`ToJson`, `FromJson`) |
| `length_format.dfy` | `LengthFormat` | the `%lf` rendering of a non-negative length |
| `newick_text.dfy` | `NewickText` | the text the writer produces (`Subtree`, `Newick`) and what can be read off it |
| `newick_writer.dfy` | `NewickWriter` | the writer itself: a `Sink` and a `NewickDumper` class whose `depth` field is the static counter |
| `annotate.dfy` | `Annotation` | `annotate_json` as a function (`Annotated`) and as a loop method (`AnnotateJson`) |

Modelling decisions:

- `label` is a Dafny keyword, so the node's label field is called `name`.
- The constructor takes the label as a `const char *`. A node's label
  therefore never contains NUL, and the model uses the type
  `Label = s: string | '\0' !in s` for it. `from_json` passes
  `label.c_str()`, so a JSON label is cut at its first NUL (`Trees.CString`).
- Lengths and JSON numbers are Dafny `real`s. `%lf` is modelled exactly, for
  reals: `LengthFormat.FormatLength` rounds to the nearest millionth, with ties
  going to the even neighbour as the GNU C library does. It then prints the
  integer part without leading zeros, a point and six digits.
- The output `FILE *` is the class `Sink`, which holds the text written so far.
  The static counter is the `depth` field of the one `NewickDumper` object. It
  is zero when that object is created, as the static is at program start.
- JSON objects are `map<string, Json>`. This matches the JSON library's default
  object type, which keeps one value per key.

Two behaviours of the code worth knowing:

- `from_json` does not require `children` to be an array. It iterates over
  whatever value is there: `null` gives no children, and a string, number or
  boolean is visited once as the only child, then refused as not an object.
  Looking up a missing key is undefined behaviour in the JSON library; the
  model reports it as a `MissingField` error.
- The `static int depth` counter is shared by every call. In sequential use
  it is balanced: every call leaves it where it found it
  (`NewickDumper.DumpNewick`). So trees dumped one after another each get
  their own terminator (`NewickWriter.DumpAll`); when no label contains a
  Newick delimiter, the output holds exactly one `;` per tree
  (`NewickWriter.OneTerminatorPerTree`). Only concurrent calls could corrupt it.

## Model

| member | source | states |
|---|---|---|
| `JsonValues.Contains` | cpp/src/newick.cpp:92 | definition of the JSON library's `contains`: true only for an object that has the key; no contract |
| `Trees.CString` | cpp/src/newick.cpp:83 | the label a node gets from `label.c_str()` is the longest NUL-free prefix of the JSON string |
| `Trees.NewNode` | cpp/src/newick.cpp:5-10 | the constructor binds the given children and length unchanged; a NUL-free label is kept verbatim |
| `TreeJson.JsonOf` | cpp/src/newick.cpp:25-37 | definition of `to_json`; no contract (its properties are `JsonOfShape` and `RoundTrip`) |
| `TreeJson.JsonsOf` | cpp/src/newick.cpp:32-34 | the `children` array has one entry per child, in order, each entry being that child's `to_json` |
| `TreeJson.ToJson` | cpp/src/newick.cpp:25-37 | the push-back loop builds exactly the recursive `to_json` object |
| `TreeJson.JsonOfShape` | cpp/src/newick.cpp:26-34 | `to_json` has exactly the keys `label`, `length`, `children`; the length is always present, negative or not; the result is tree-shaped JSON |
| `TreeJson.TreeOf` | cpp/src/newick.cpp:74-84 | definition of `from_json`: children first (array, null, scalar visited once; an object is a `WrongType` error), then label, then length; no contract |
| `TreeJson.WithChildren` | cpp/src/newick.cpp:81-83 | definition of the part of `from_json` after the children: a child's failure first, then the label and length checks, then the constructor; no contract |
| `TreeJson.TreesOf` | cpp/src/newick.cpp:77-79 | the children loop: when it succeeds, one tree per JSON child |
| `TreeJson.FromJson` | cpp/src/newick.cpp:74-84 | the loop that pushes each built child, then reads label and length, computes exactly `TreeOf`, including which error is reported |
| `TreeJson.TreesOfPrefixFailure` | cpp/src/newick.cpp:77-79 | once one child fails, building the children fails with that child's error |
| `TreeJson.RoundTrip` | cpp/src/newick.cpp:74-84 | `from_json(to_json(t))` succeeds and equals `t` at every node (label, length, child count and order) |
| `TreeJson.TreeOfSucceedsIff` | cpp/src/newick.cpp:77-83 | `from_json` succeeds if and only if every node is an object with `children` (array or null), a string `label` and a numeric `length` |
| `TreeJson.TreeOfThenJsonOf` | cpp/src/newick.cpp:74-84 | for accepted input, `to_json(from_json(j))` is `j` reduced to its three keys, with the label cut at NUL and null children read as an empty array |
| `TreeJson.ChildErrorFirst` | cpp/src/newick.cpp:77-82 | children are built before the parent's own fields are read: the first failing child's error is the result, whatever the parent's label or length |
| `TreeJson.MissingChildrenRefused` | cpp/src/newick.cpp:77 | `{"label": "x"}` is refused with an error instead of yielding a node with default fields |
| `LengthFormat.FormatLength` | cpp/src/newick.cpp:67 | definition of `%lf` for a non-negative length; no contract (its properties are `FormatLengthShape` and `FormatLengthChars`) |
| `LengthFormat.RoundHalfEven` | cpp/src/newick.cpp:67 | the rounding is to a nearest integer, and on an exact tie to the even one |
| `LengthFormat.Micros` | cpp/src/newick.cpp:67 | the printed value is within half a millionth of the length |
| `LengthFormat.FormatLengthShape` | cpp/src/newick.cpp:67 | the `%lf` text is digits without leading zeros, a point and exactly six digits, and read back it denotes the rounded length |
| `LengthFormat.FormatLengthChars` | cpp/src/newick.cpp:67 | the length text contains only digits and `.`, so none of `(`, `)`, `,`, `:`, `;` |
| `LengthFormat.FormatZero` | cpp/src/newick.cpp:66-67 | a zero length is printed, as `0.000000` |
| `LengthFormat.FormatTieToEven` | cpp/src/newick.cpp:67 | the exact tie 0.0078125 prints as `0.007812` |
| `NewickText.Subtree` | cpp/src/newick.cpp:50-68 | definition of the text `dump_newick` writes for a subtree, without the terminator; no contract |
| `NewickText.Opening` | cpp/src/newick.cpp:50-61 | definition of the parenthesised children part, empty for a leaf; no contract |
| `NewickText.Joined` | cpp/src/newick.cpp:53-58 | definition of the children's texts with a comma after all but the last; no contract |
| `NewickText.NodeSuffix` | cpp/src/newick.cpp:63-68 | definition of the label-then-length part; no contract |
| `NewickText.Newick` | cpp/src/newick.cpp:50-71 | definition of a top-level dump: the subtree text, then `;` and a newline; no contract |
| `NewickText.SubtreeParens` | cpp/src/newick.cpp:50-65 | with delimiter-free labels, a subtree's text has one `(` and one `)` per internal node, balanced, and no `;` |
| `NewickText.Terminator` | cpp/src/newick.cpp:69-71 | a top-level dump ends in `;` and a newline, and `;` occurs exactly once |
| `NewickText.LabelAndLength` | cpp/src/newick.cpp:63-68 | after the node's last `)` come exactly its label and, if and only if `length >= 0`, `:` and the formatted length |
| `NewickText.LeafText` | cpp/src/newick.cpp:50-68 | a node without children prints no parentheses, only its label and then `:length` if present |
| `NewickText.OpensIffInternal` | cpp/src/newick.cpp:50-52 | a subtree's text starts with `(` if and only if the node has children |
| `NewickText.ChildrenInOrder` | cpp/src/newick.cpp:52-59 | for k >= 1 children, the parenthesised part splits at its top-level commas into exactly the k child texts in order, with no trailing comma |
| `NewickWriter.Sink.Write` | cpp/src/newick.cpp:52 | writing appends the text to the sink |
| `NewickWriter.NewickDumper.constructor` | cpp/src/newick.cpp:48 | the counter starts at zero |
| `NewickWriter.NewickDumper.DumpNewick` | cpp/src/newick.cpp:47-72 | appends the subtree's text, plus `;` and a newline exactly when the counter was zero on entry, and leaves the counter as it found it |
| `NewickWriter.NewickDumper.DumpChildren` | cpp/src/newick.cpp:53-58 | the children loop, run with the counter raised, appends each child's text with a comma after all but the last, and writes no terminator |
| `NewickWriter.NewickDumper.DumpLabelAndLength` | cpp/src/newick.cpp:63-68 | appends the label, when non-empty, and `:length`, when `length >= 0` |
| `NewickWriter.DumpAll` | cpp/src/newick.cpp:48-71 | dumping trees one after another with the shared counter yields each tree's full text with its own terminator |
| `NewickWriter.NewickAll` | cpp/src/newick.cpp:48-71 | definition of the output of several top-level dumps in sequence; no contract |
| `NewickWriter.OneTerminatorPerTree` | cpp/src/newick.cpp:63-71 | with delimiter-free labels, n trees dumped in sequence produce exactly n `;` (a label containing `;` adds its own, since labels are printed unquoted) |
| `Annotation.Annotated` | cpp/src/newick.cpp:86-95 | the walk keeps the tree walkable, and keeps it tree-shaped for `from_json` |
| `Annotation.AnnotateJson` | cpp/src/newick.cpp:86-95 | the in-place loop over the children, then the update of the node, computes exactly `Annotated` |
| `Annotation.AnnotatedAt` | cpp/src/newick.cpp:87-89 | the walk reaches every node: the node at each path of the result is that path's node, annotated |
| `Annotation.EveryNode` | cpp/src/newick.cpp:91-94 | at every node, `metadata` becomes the annotation when the label is a key and is unchanged otherwise; label, other fields and child count are unchanged, and no key other than `metadata` is added |
| `Annotation.SkeletonUnchanged` | cpp/src/newick.cpp:86-95 | with every `metadata` field removed, the annotated tree equals the input tree |
| `Annotation.Idempotent` | cpp/src/newick.cpp:86-95 | annotating twice with the same annotations equals annotating once |
| `Annotation.AnnotatedTreeReadsBack` | cpp/src/newick.cpp:86-95 | the output of `to_json` can be walked, and after the walk `from_json` still reads back the original tree |
| `Annotation.SharedLabelExample` | cpp/src/newick.cpp:91-94 | two nodes labelled "A" both receive the "A" annotation; the "B" node and the unlabelled root receive none |

## Left out

- `dump_json` (cpp/src/newick.cpp:39-45) is left out. It only calls the JSON library's text serialiser and `fprintf`.
- The destructor and `remove` (cpp/src/newick.cpp:12-23) are left out. They free memory and do nothing observable; Dafny datatypes make ownership and acyclicity automatic.
- Floating point is left out. Lengths are reals, so there is no NaN, no infinity and no finite precision. A `-0.0` length passes `length >= 0.0`, and the C library prints it as `:-0.000000`; the model has no such value.
- The rounding of `%lf` follows the GNU C library: round to nearest, ties to even, on the exact value. Other C libraries may round differently.
- Write errors on the `FILE *`, and concurrent calls that share the static counter, are left out. The counter's 32-bit overflow would need a tree about 2^31 levels deep, so it is left out too.
- TreeJson.TreeOf: a `children` value that is a JSON object is reported as a `WrongType` error. The source instead iterates over the object's values, which the JSON library keeps in key order; this is not modelled.
- TreeJson.TreeOf: a required key that is missing is reported as a `MissingField` error. In the source, looking up a missing key in a const object is undefined behaviour.
- TreeJson.FromJson: the model returns a `Result`. The source leaks the children already built when a child throws, and also when the node's own `get<std::string>()` or `get<double>()` throws (cpp/src/newick.cpp:81-82). The model has no memory, so neither leak is captured.
- Annotation.AnnotateJson: requires every node to be an object with a string `label` and a `children` array or null. When `children` is a JSON object, the source's range-for visits the object's values and annotates each in place, without throwing or adding a key; the model does not cover that case. On other input (a missing key, a non-string label, a scalar child) the source inserts null keys or throws part-way through the walk after changing some nodes; that is outside the model too.
- NewickText.SubtreeParens, NewickText.Terminator, NewickText.ChildrenInOrder, NewickText.LabelAndLength, NewickText.LeafText, NewickText.OpensIffInternal and NewickWriter.OneTerminatorPerTree require labels without `(`, `)`, `,`, `:` or `;`. The source prints labels unquoted, so a label containing one of these characters changes the text's structure.
- The order in which `annotate_json` visits nodes (children, then the node itself) cannot be observed in the resulting value. `Annotation.AnnotateJson` follows that order, but no contract states it.
