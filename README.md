# SDF scene-graph node, binary combinator base and union — a Dafny model

The library builds signed distance fields as a graph of nodes. Every node
(`SDF`) owns a fixed-length array of child slots, knows the node whose slot
holds it (`parent`, `parentSlotIndex`) and keeps a set of change listeners.
Writing a slot installs the new child (the shared `Empty` sentinel for
`null`), points the child back at its new parent and unlinks a different
previous occupant; `setSlot` then emits a change event that notifies this
node's listeners with this node and climbs to the parent, whose listeners
are notified with the parent, and so on up to the root. A binary operation
has two slots; a union answers the smaller of its children's distances,
prints as `(first | second)`, and is serialised with its first child under
`sdf_a` and its second under `sdf_b`. A registry maps ten built-in type
keys to codecs.

The model has four modules:

- `Graph` (graph.dfy): the class `Node` with the slot array (`const
  slots: array<Node?>`, so the count never changes), the back-link fields
  and the listener set; slot reads and writes, the silent and the
  event-emitting slot write, the change walk, listener registration, the
  binary constructor and the union constructor. One class stands for every
  node class; its `kind` says whether it is the sentinel, a union or a kind
  outside the model. The sentinel is passed in as `empty`. Listeners are
  opaque ids, and the listener calls a change event makes are returned as a
  sequence of `Notification(listener, changed)`. The walk up the parents is
  given the parent chain as a ghost argument: Java's recursion ends exactly
  when that chain is finite. `dist` and `toString` on nodes are proved equal
  to the value-level functions of `Shapes` for the value a union's slots
  describe (`Denotes`); a node of any other kind is a leaf there.
- `Shapes` (shapes.dfy): the value a node graph describes, `Sdf` (`Empty`,
  `Union(first, second)`, or `Foreign(record)` for any other node kind), its
  distance and its text, and the facts about unions.
- `Codec` (codec.dfy): the bootstrap key list, the registry it yields, the
  union's field layout, the dispatch decode with its errors, and the
  round trip.
- `Records` (records.dfy): the structured record nodes are written to (a
  type key and named fields in order).

Attaching a node does not take it out of the slot of its previous parent:
`setSlotSilent` only overwrites the moved node's back-link
(src/main/java/de/ambertation/lib/math/sdf/SDF.java:48-56). The model
follows the code. `Graph.MoveLeavesStaleSlot` shows two parents whose slots
both hold the same child while the child names only the second, and
`Graph.StaleSlotCutsOff` shows the consequence: clearing the stale slot of
the first parent unlinks the child from the second, which still holds it,
so the child's change events stop reaching the second parent. What does
hold after every slot write is the back-link direction: each node with a
parent sits in that parent's slot at the index it records
(`Graph.BackLinksHold`, kept by `SetSlotSilent` and `SetSlot`, and kept when
`Node.Binary` or `NewUnion` adds a new node).

## Model

| member | source | states |
|---|---|---|
| `Graph.Node.constructor` | src/main/java/de/ambertation/lib/math/sdf/SDF.java:21-27 | a new node has exactly `inputCount` slots, all unset, in a fresh array; no parent, `parentSlotIndex` -1, no listeners |
| `Graph.Node.InputSlotCount` | src/main/java/de/ambertation/lib/math/sdf/SDF.java:29-31 | the slot count is the length of the slot array, which is fixed at construction |
| `Graph.Node.HasInputSlots` | src/main/java/de/ambertation/lib/math/sdf/SDF.java:33-35 | true exactly when the node has at least one slot |
| `Graph.Node.Slot` | src/main/java/de/ambertation/lib/math/sdf/SDF.java:37-39 | returns the current occupant of slot `idx`; the index must be in range |
| `Graph.Node.HasInputs` | src/main/java/de/ambertation/lib/math/sdf/SDF.java:41-46 | true exactly when some slot holds a node that is present and not the sentinel |
| `Graph.Installed` | src/main/java/de/ambertation/lib/math/sdf/SDF.java:53 | a slot write installs the given node, or the sentinel when given null |
| `Graph.Node.SetSlotSilent` | src/main/java/de/ambertation/lib/math/sdf/SDF.java:48-56 | slot `idx` holds the installed node, whose parent is this node and whose slot index is `idx`; a different previous occupant gets no parent and index -1; every other slot and every other field is unchanged; the back-link invariant over a set of nodes with unshared slot arrays is kept |
| `Graph.Node.SetParent` | src/main/java/de/ambertation/lib/math/sdf/SDF.java:85-87 | sets the back-reference and nothing else |
| `Graph.Node.SetParentSlotIndex` | src/main/java/de/ambertation/lib/math/sdf/SDF.java:89-91 | sets the recorded slot index and nothing else |
| `Graph.Node.SetSlot` | src/main/java/de/ambertation/lib/math/sdf/SDF.java:58-61 | leaves the state `SetSlotSilent` leaves, then delivers exactly one change event from this node along the parent chain as it stands after the write (the old chain, cut at the previous occupant if that was an ancestor); the installed node must not be on that chain, since the walk would then never end |
| `Graph.Node.EmitChangeEvent` | src/main/java/de/ambertation/lib/math/sdf/SDF.java:72-75 | calls every listener of this node once with this node, then every listener of the parent once with the parent, and so on to the root, in chain order |
| `Graph.EmissionNotifiesEachOnce` | src/main/java/de/ambertation/lib/math/sdf/SDF.java:72-75 | in one event, listener `l` receives node `m` exactly once if `m` is the start node or one of its ancestors and `l` is registered on `m`, and never otherwise; an ancestor's listener receives the ancestor, not the edited node |
| `Graph.ParentChainIsDistinct` | src/main/java/de/ambertation/lib/math/sdf/SDF.java:74 | a parent chain that ends at a root visits no node twice, so no ancestor is notified twice |
| `Graph.Node.AddChangeListener` | src/main/java/de/ambertation/lib/math/sdf/SDF.java:77-79 | the listener set gains the listener (adding it again changes nothing) |
| `Graph.Node.RemoveChangeListener` | src/main/java/de/ambertation/lib/math/sdf/SDF.java:81-83 | the listener set loses the listener (removing an absent one changes nothing) |
| `Graph.Node.Binary` | src/main/java/de/ambertation/lib/math/sdf/SDFBinaryOperation.java:4-7 | two slots; slot 0 holds `a` and slot 1 holds `b` (the sentinel for null); slot 1's occupant has this node as parent and index 1, slot 0's likewise with index 0 unless it is the same node; no event is delivered; a graph whose back-links hold still has them once the new node joins it |
| `Graph.Node.Second` | src/main/java/de/ambertation/lib/math/sdf/SDFBinaryOperation.java:14-16 | returns the occupant of slot 1 and changes nothing |
| `Graph.Node.SetSecond` | src/main/java/de/ambertation/lib/math/sdf/SDFBinaryOperation.java:18-20 | is `SetSlot(1, b)`: slot 1 and the two occupants' back-links change, slot 0 does not, and one event climbs from this node |
| `Graph.NewUnion` | src/main/java/de/ambertation/lib/math/sdf/SDFUnion.java:27-29 | a fresh union with a fresh slot array whose first child is `a` and whose second child is `b`, linked back to it, with no parent and no listeners; the back-link invariant of the graph it joins is kept |
| `Graph.Node.Dist` | src/main/java/de/ambertation/lib/math/sdf/SDFUnion.java:32-34 | a node's distance equals the distance of the value it describes; a union's is the smaller of its first and second child's |
| `Graph.Node.ToString` | src/main/java/de/ambertation/lib/math/sdf/SDFUnion.java:37-39 | a node's text equals the text of the value it describes; a union's is its first child's text and its second child's text, joined by a vertical bar between spaces and enclosed in parentheses |
| `Graph.UnionOfBuiltNodes` | src/main/java/de/ambertation/lib/math/sdf/SDFUnion.java:27-39 | a union built over two existing node graphs `a` and `b` answers the smaller of their distances and prints as their texts joined by a vertical bar between spaces in parentheses: building the union leaves what `a` and `b` describe intact |
| `Graph.SnapshotKeepsDenotes` | src/main/java/de/ambertation/lib/math/sdf/SDFUnion.java:33 | what a node describes is determined by the slot contents it reaches: a record of every node's slots yields the same description |
| `Graph.DenotesFromSnapshot` | src/main/java/de/ambertation/lib/math/sdf/SDFUnion.java:33 | a description read from recorded slot contents holds in any heap whose recorded slots still hold the same nodes, so heap changes that leave existing slot arrays alone keep every existing node's value |
| `Graph.MoveLeavesStaleSlot` | src/main/java/de/ambertation/lib/math/sdf/SDF.java:48-56 | after writing `c` into a slot of `p` and then of `q`, both slots hold `c` while `c`'s parent is `q`: a write does not detach the node from its previous parent |
| `Graph.StaleSlotCutsOff` | src/main/java/de/ambertation/lib/math/sdf/SDF.java:48-56 | continuing that scenario, clearing `p`'s stale slot clears `c`'s parent although `q` still holds `c`, so a change event from `c` no longer reaches a listener registered on `q` |
| `Shapes.Min` | src/main/java/de/ambertation/lib/math/sdf/SDFUnion.java:33 | the minimum is at most each argument and equals one of them |
| `Shapes.UnionDistIsMin` | src/main/java/de/ambertation/lib/math/sdf/SDFUnion.java:32-34 | a union's distance is at most each child's distance and equals one of them |
| `Shapes.UnionCommutes` | src/main/java/de/ambertation/lib/math/sdf/SDFUnion.java:33 | swapping a union's children does not change its distance |
| `Shapes.UnionAssociates` | src/main/java/de/ambertation/lib/math/sdf/SDFUnion.java:33 | regrouping nested unions does not change the distance |
| `Shapes.EmptyIsUnionIdentity` | src/main/java/de/ambertation/lib/math/sdf/SDFUnion.java:33 | an unset (sentinel) child leaves a union's distance equal to the other child's whenever the sentinel distance is at least that distance |
| `Shapes.UnionTreeIsMinOverLeaves` | src/main/java/de/ambertation/lib/math/sdf/SDFUnion.java:32-34 | a tree of unions is as far as its nearest operand: no farther than any operand and equal to one |
| `Shapes.ShowUnionSplits` | src/main/java/de/ambertation/lib/math/sdf/SDFUnion.java:37-39 | a union's text is an opening parenthesis, the first child's text, a vertical bar between spaces, the second child's text and a closing parenthesis, in that order |
| `Records.FieldIndex` | src/main/java/de/ambertation/lib/math/sdf/SDFUnion.java:12-13 | finds the first field with the given name, or reports that there is none |
| `Codec.BootstrapKeys` | src/main/java/de/ambertation/lib/math/sdf/SDF.java:108-120 | ten keys, pairwise distinct, among them "union" and "empty" |
| `Codec.BootstrapRegistry` | src/main/java/de/ambertation/lib/math/sdf/SDF.java:108-120 | the registered keys are exactly the bootstrap keys |
| `Codec.Encode` | src/main/java/de/ambertation/lib/math/sdf/SDFUnion.java:11-14 | a union is written under the key "union" with exactly two fields, the first child's record under `sdf_a` and then the second child's under `sdf_b`; the sentinel is its bare key and a node outside the model its own record |
| `Codec.Decode` | src/main/java/de/ambertation/lib/math/sdf/SDF.java:105-106 | an unregistered key fails with `UnknownTypeKey`; a union record without a record under `sdf_a` (or else under `sdf_b`) fails with `MissingField` for that field; otherwise it succeeds exactly when both children decode, yielding the union of the `sdf_a` child and the `sdf_b` child, and fails with the first failing child's error; "empty" yields the sentinel and any other registered key the record itself; a decoded value uses only registered kinds and re-encodes under the record's own key |
| `Codec.DecodeEncode` | src/main/java/de/ambertation/lib/math/sdf/SDFUnion.java:10-16 | decoding what was encoded (first child under `sdf_a`, second under `sdf_b`) rebuilds the same value with the children in the same order |
| `Codec.DecodeIsStable` | src/main/java/de/ambertation/lib/math/sdf/SDFUnion.java:10-16 | a record that decodes decodes to the same value after being written again |
| `Codec.BuiltinTreesRoundTrip` | src/main/java/de/ambertation/lib/math/sdf/SDF.java:108-120 | with the bootstrap registry, any tree of unions over unset slots survives a write and a read |

## Left out

- Floating point: distances and coordinates are doubles in the program and reals here; `Math.min`'s handling of NaN and of -0.0 is not modelled. The vector type `Float3` is only a carrier of three coordinates; its algebra and its conversions to host types are not part of this model.
- The classes `Empty`, `SDFOperation`, the other combinators and the primitives are not part of this model. The sentinel's distance and text, and the distance and text of every other kind (`ForeignKind` / `Foreign`), are parameters (`Shapes.Env`); the sentinel's record is assumed to be its key with no fields.
- `SDFOperation` is assumed to give a binary operation two slots, to install `a` in slot 0 with `setSlotSilent`, and to read slot 0 in `getFirst` (`Graph.Node.First`).
- The registry machinery (Fabric registry builder, `Registry.register`, `WunderLib.ID` namespacing of keys, `KeyDispatchDataCodec`, the behaviour on a duplicate key) is host library code; only the key list is modelled.
- The serialisation format is not modelled: a record is a type key and an ordered list of named fields. Which error a malformed record reports, and how extra fields are treated, belong to the serialisation library.
- Codec.Decode: a record whose registered key is neither "union" nor "empty" is accepted as `Foreign(record)` without being examined; the codecs of those kinds are not part of this model, so a malformed field or an unregistered key nested inside such a record is not detected here, while the program would report it.
- `codec()` returning the union's codec is modelled by the dispatch on the key "union" in `Codec.Decode`.
- `SDFBinaryOperation.toString` reads a field that is not part of this model.
- Listener bodies are opaque: a listener that edits the graph while being notified, and the iteration order of the listener `HashSet`, are not modelled (`EmitChangeEvent` may call one node's listeners in any order).
- Graph.Node.EmitChangeEvent: requires the parent chain to be finite; on a cycle of parents the program recurses without end.
- Graph.Node.SetSlot: requires the parent chain before the write to be finite, and the installed node not to be on the chain after the write, for the same reason. The program also accepts a cyclic chain that the write itself breaks (the previous occupant lies on the cycle); such a graph can only arise after a walk that has already overflowed the stack, and is not modelled.
- Graph.Node.Dist: requires the node to describe a finite value (`Denotes`); the program does not terminate on a cycle of slots through unions. Graph.Node.ToString likewise.
- Graph.Node.Dist, Graph.Node.ToString, Codec.Encode: a node outside the model (`ForeignKind`) is a leaf. Its distance, text and record are fixed by its kind when it is built, and its slots are never read. A child written into such a node's slot later is therefore not reflected in its distance, text or record. A cycle of slots that passes through such a node is not excluded by `Denotes` either, so `Dist` returns a value where the program, whose intersection, difference and inversion read their children, would recurse without end.
- An out-of-range slot index, which fails in the program with an array index error, is a precondition; a negative slot count, which fails at allocation, is excluded by the type `nat`.
