/** The mutable node graph: every node has a fixed number of child slots, a
    back-reference to the node whose slot holds it, and a set of change
    listeners. Writing a slot re-links the old and new occupants; a change
    event notifies the listeners of the node and then of each ancestor in
    turn, each with the node they are registered on.

    The `Empty` sentinel is a single shared node; the operations that may
    install it take it as the parameter `empty`. A listener is an opaque
    id, and the listener calls a change event makes are returned as the
    sequence of notifications it delivered. */
module Graph {
  import opened Records
  import opened Shapes

  type ListenerId = nat

  /** One call `listener.didChange(changed)`. */
  datatype Notification = Notification(listener: ListenerId, changed: Node)

  /** The node's class: the sentinel, a union, or a kind outside the model
      (identified by its encoded record). */
  datatype Kind = EmptyKind | UnionKind | ForeignKind(rec: Record)

  /** What a slot write installs: the given node, or the sentinel for null. */
  function Installed(sdf: Node?, empty: Node): (n: Node)
    ensures sdf != null ==> n == sdf
    ensures sdf == null ==> n == empty
  {
    if sdf == null then empty else sdf
  }

  /** A slot occupant that counts as an input: present and not the sentinel. */
  predicate IsRealInput(n: Node?)
  {
    n != null && !n.kind.EmptyKind?
  }

  /** `chain` is `n`, its parent, its grandparent and so on, up to a node
      without a parent. */
  ghost predicate IsParentChain(n: Node, chain: seq<Node>)
    reads chain
  {
    && |chain| > 0
    && chain[0] == n
    && (forall i :: 0 <= i < |chain| - 1 ==> chain[i].parent == chain[i + 1])
    && chain[|chain| - 1].parent == null
  }

  ghost predicate Distinct(chain: seq<Node>)
  {
    forall i, j :: 0 <= i < j < |chain| ==> chain[i] != chain[j]
  }

  /** Every node whose parent is set sits in that parent's slot at the index
      it records, and that parent is in `nodes` too. */
  ghost predicate BackLinksHold(nodes: set<Node>)
    reads nodes, set n | n in nodes :: n.slots
  {
    forall n :: n in nodes && n.parent != null ==>
      && n.parent in nodes
      && 0 <= n.parentSlotIndex < n.parent.slots.Length
      && n.parent.slots[n.parentSlotIndex] == n
  }

  /** No two nodes of `nodes` share a slot array. */
  ghost predicate SlotsUnshared(nodes: set<Node>)
  {
    forall m, n :: m in nodes && n in nodes && m != n ==> m.slots != n.slots
  }

  /** `batch` calls every listener of `ls` exactly once, each with `n`. */
  ghost predicate Enumerates(batch: seq<Notification>, n: Node, ls: set<ListenerId>)
  {
    && (forall k :: 0 <= k < |batch| ==> batch[k].changed == n && batch[k].listener in ls)
    && (forall l :: l in ls ==> exists k :: 0 <= k < |batch| && batch[k].listener == l)
    && (forall i, j :: 0 <= i < j < |batch| ==> batch[i].listener != batch[j].listener)
  }

  /** `fired` is what one change event starting at `chain[0]` delivers: the
      listeners of each node of the chain, in chain order, each called with
      the node it is registered on. */
  ghost predicate IsEmission(fired: seq<Notification>, chain: seq<Node>)
    reads chain
    decreases |chain|
  {
    if chain == [] then fired == []
    else
      var k := |chain[0].listeners|;
      && k <= |fired|
      && Enumerates(fired[..k], chain[0], chain[0].listeners)
      && IsEmission(fired[k..], chain[1..])
  }

  function IndexOf(chain: seq<Node>, x: Node): (i: nat)
    requires x in chain
    ensures i < |chain| && chain[i] == x
    ensures x !in chain[..i]
  {
    if chain[0] == x then 0 else 1 + IndexOf(chain[1..], x)
  }

  /** The part of `chain` that is still a parent chain once `x` loses its
      parent: up to and including `x`. */
  function CutAt(chain: seq<Node>, x: Node?): (r: seq<Node>)
    ensures r <= chain
    ensures x != null && x in chain ==> |r| > 0 && r[|r| - 1] == x && x !in r[..|r| - 1]
    ensures !(x != null && x in chain) ==> r == chain
  {
    if x != null && x in chain then chain[..IndexOf(chain, x) + 1] else chain
  }

  /** Which node a node describes, read through its slots. */
  ghost predicate Denotes(n: Node, s: Sdf)
    reads *
    decreases s
  {
    match s
    case Empty => n.kind.EmptyKind?
    case Union(a, b) =>
      && n.kind.UnionKind?
      && n.slots.Length == 2
      && n.slots[0] != null && n.slots[1] != null
      && Denotes(n.slots[0], a) && Denotes(n.slots[1], b)
    case Foreign(r) => n.kind == ForeignKind(r)
  }

  /** Slot contents recorded at one moment: for each recorded node, what its
      slots held. */
  type Snapshot = imap<Node, seq<Node?>>

  /** `snap` records the slots of the current heap correctly. */
  ghost predicate Agrees(snap: Snapshot)
    reads *
  {
    forall m :: m in snap ==> snap[m] == m.slots[..]
  }

  /** `Denotes`, read through a snapshot instead of the heap. */
  ghost predicate DenotesIn(n: Node, s: Sdf, snap: Snapshot)
    decreases s
  {
    match s
    case Empty => n.kind.EmptyKind?
    case Union(a, b) =>
      && n.kind.UnionKind?
      && n in snap && |snap[n]| == 2
      && snap[n][0] != null && snap[n][1] != null
      && DenotesIn(snap[n][0], a, snap) && DenotesIn(snap[n][1], b, snap)
    case Foreign(r) => n.kind == ForeignKind(r)
  }

  /** A snapshot of every allocated node records what each node describes. */
  lemma {:induction false} SnapshotKeepsDenotes(n: Node, s: Sdf, snap: Snapshot)
    requires Agrees(snap)
    requires forall m: Node :: m in snap <== allocated(m)
    requires Denotes(n, s)
    ensures DenotesIn(n, s, snap)
    decreases s
  {
    if s.Union? {
      SnapshotKeepsDenotes(n.slots[0], s.first, snap);
      SnapshotKeepsDenotes(n.slots[1], s.second, snap);
    }
  }

  /** What a snapshot records is what the heap describes, as long as the
      recorded slots still hold the same nodes: a change that leaves those
      slot arrays alone does not change what an existing node describes. */
  lemma {:induction false} DenotesFromSnapshot(n: Node, s: Sdf, snap: Snapshot)
    requires Agrees(snap)
    requires DenotesIn(n, s, snap)
    ensures Denotes(n, s)
    decreases s
  {
    if s.Union? {
      DenotesFromSnapshot(snap[n][0], s.first, snap);
      DenotesFromSnapshot(snap[n][1], s.second, snap);
    }
  }

  class Node {
    const kind: Kind
    const slots: array<Node?>
    var parent: Node?
    var parentSlotIndex: int
    var listeners: set<ListenerId>

    /** A node with `inputCount` empty slots, no parent and no listeners. */
    constructor (kind: Kind, inputCount: nat)
      ensures this.kind == kind
      ensures slots.Length == inputCount && fresh(slots)
      ensures forall i :: 0 <= i < inputCount ==> slots[i] == null
      ensures parent == null && parentSlotIndex == -1 && listeners == {}
    {
      this.kind := kind;
      slots := new Node?[inputCount](_ => null);
      parent := null;
      parentSlotIndex := -1;
      listeners := {};
    }

    /** A binary operation over `a` and `b`: two slots, `a` installed in
        slot 0 and `b` in slot 1, both without a change event. The new node
        joins a graph whose back-links hold without breaking them. */
    constructor Binary(kind: Kind, a: Node?, b: Node?, empty: Node, ghost nodes: set<Node>)
      requires empty.kind.EmptyKind?
      modifies Installed(a, empty)`parent, Installed(a, empty)`parentSlotIndex
      modifies Installed(b, empty)`parent, Installed(b, empty)`parentSlotIndex
      ensures this.kind == kind
      ensures slots.Length == 2 && fresh(slots)
      ensures slots[0] == Installed(a, empty) && slots[1] == Installed(b, empty)
      ensures slots[1].parent == this && slots[1].parentSlotIndex == 1
      ensures slots[0] != slots[1] ==> slots[0].parent == this && slots[0].parentSlotIndex == 0
      ensures parent == null && parentSlotIndex == -1 && listeners == {}
      ensures old(BackLinksHold(nodes)) && SlotsUnshared(nodes) ==> BackLinksHold(nodes + {this})
    {
      this.kind := kind;
      slots := new Node?[2](_ => null);
      parent := null;
      parentSlotIndex := -1;
      listeners := {};
      new;
      SetSlotSilent(0, a, empty, nodes + {this});
      SetSlotSilent(1, b, empty, nodes + {this});
    }

    function InputSlotCount(): (n: nat)
      ensures n == slots.Length
    {
      slots.Length
    }

    function HasInputSlots(): (b: bool)
      ensures b <==> slots.Length > 0
    {
      slots.Length > 0
    }

    function Slot(idx: int): (s: Node?)
      requires 0 <= idx < slots.Length
      reads slots
      ensures s == slots[idx]
    {
      slots[idx]
    }

    /** The occupant of slot `idx` as a frame: empty while the slot is unset. */
    function Occupant(idx: int): (r: set<Node>)
      requires 0 <= idx < slots.Length
      reads slots
    {
      if slots[idx] == null then {} else {slots[idx]}
    }

    /** Slot 0, which the operation base fills with the first operand. */
    function First(): (s: Node?)
      requires slots.Length == 2
      reads slots
      ensures s == slots[0]
    {
      Slot(0)
    }

    function Second(): (s: Node?)
      requires slots.Length == 2
      reads slots
      ensures s == slots[1]
    {
      Slot(1)
    }

    /** Whether some slot holds a node other than the sentinel. */
    method HasInputs() returns (b: bool)
      ensures b <==> exists i :: 0 <= i < slots.Length && IsRealInput(slots[i])
    {
      var i := 0;
      while i < slots.Length
        invariant 0 <= i <= slots.Length
        invariant forall j :: 0 <= j < i ==> !IsRealInput(slots[j])
      {
        if slots[i] != null && !slots[i].kind.EmptyKind? {
          return true;
        }
        i := i + 1;
      }
      return false;
    }

    method SetParent(p: Node?)
      modifies this`parent
      ensures parent == p
    {
      parent := p;
    }

    method SetParentSlotIndex(idx: int)
      modifies this`parentSlotIndex
      ensures parentSlotIndex == idx
    {
      parentSlotIndex := idx;
    }

    /** Puts `sdf` (the sentinel for null) in slot `idx` and links it back
        to this node; a different previous occupant loses its parent. The
        node installed is not taken out of any other slot that holds it. */
    method SetSlotSilent(idx: int, sdf: Node?, empty: Node, ghost nodes: set<Node>)
      requires 0 <= idx < slots.Length
      requires empty.kind.EmptyKind?
      modifies slots, Occupant(idx)`parent, Occupant(idx)`parentSlotIndex
      modifies Installed(sdf, empty)`parent, Installed(sdf, empty)`parentSlotIndex
      ensures slots[idx] == Installed(sdf, empty)
      ensures forall j :: 0 <= j < slots.Length && j != idx ==> slots[j] == old(slots[j])
      ensures slots[idx].parent == this && slots[idx].parentSlotIndex == idx
      ensures old(slots[idx]) != null && old(slots[idx]) != slots[idx] ==>
                old(slots[idx]).parent == null && old(slots[idx]).parentSlotIndex == -1
      ensures old(BackLinksHold(nodes)) && SlotsUnshared(nodes) && this in nodes ==> BackLinksHold(nodes)
    {
      var prev := slots[idx];
      if prev != sdf && prev != null {
        prev.SetParent(null);
        prev.SetParentSlotIndex(-1);
      }
      slots[idx] := if sdf == null then empty else sdf;
      slots[idx].SetParent(this);
      slots[idx].SetParentSlotIndex(idx);
    }

    method AddChangeListener(l: ListenerId)
      modifies this`listeners
      ensures listeners == old(listeners) + {l}
    {
      listeners := listeners + {l};
    }

    method RemoveChangeListener(l: ListenerId)
      modifies this`listeners
      ensures listeners == old(listeners) - {l}
    {
      listeners := listeners - {l};
    }

    /** Notifies this node's listeners with this node, then hands the event
        to the parent. `chain` is the parent chain; it is finite exactly
        when the walk terminates. */
    method EmitChangeEvent(ghost chain: seq<Node>) returns (fired: seq<Notification>)
      requires IsParentChain(this, chain)
      ensures IsEmission(fired, chain)
      decreases |chain|
    {
      var remaining := listeners;
      fired := [];
      while remaining != {}
        invariant remaining <= listeners
        invariant |fired| == |listeners - remaining|
        invariant forall k :: 0 <= k < |fired| ==>
                    fired[k].changed == this && fired[k].listener in listeners - remaining
        invariant forall l :: l in listeners - remaining ==>
                    exists k :: 0 <= k < |fired| && fired[k].listener == l
        invariant forall i, j :: 0 <= i < j < |fired| ==> fired[i].listener != fired[j].listener
        decreases remaining
      {
        var l :| l in remaining;
        assert listeners - (remaining - {l}) == (listeners - remaining) + {l};
        ghost var before := fired;
        fired := fired + [Notification(l, this)];
        assert forall k :: 0 <= k < |before| ==> fired[k] == before[k];
        assert fired[|before|].listener == l;
        remaining := remaining - {l};
      }
      assert Enumerates(fired, this, listeners);
      ghost var batch := fired;
      assert |chain| > 1 ==> parent == chain[1];
      if parent != null {
        var rest := parent.EmitChangeEvent(chain[1..]);
        fired := fired + rest;
        assert fired[..|listeners|] == batch && fired[|listeners|..] == rest;
      } else {
        assert chain == [this];
        assert fired[..|listeners|] == batch && fired[|listeners|..] == [];
      }
    }

    /** `setSlotSilent` followed by one change event from this node. The
        event climbs the parent chain as it stands after the write: the old
        chain, cut at the previous occupant when that was an ancestor. */
    method SetSlot(idx: int, sdf: Node?, empty: Node, ghost nodes: set<Node>, ghost chain: seq<Node>)
      returns (fired: seq<Notification>)
      requires 0 <= idx < slots.Length
      requires empty.kind.EmptyKind?
      requires IsParentChain(this, chain)
      requires Installed(sdf, empty) !in CutAt(chain, slots[idx])
      modifies slots, Occupant(idx)`parent, Occupant(idx)`parentSlotIndex
      modifies Installed(sdf, empty)`parent, Installed(sdf, empty)`parentSlotIndex
      ensures slots[idx] == Installed(sdf, empty)
      ensures forall j :: 0 <= j < slots.Length && j != idx ==> slots[j] == old(slots[j])
      ensures slots[idx].parent == this && slots[idx].parentSlotIndex == idx
      ensures old(slots[idx]) != null && old(slots[idx]) != slots[idx] ==>
                old(slots[idx]).parent == null && old(slots[idx]).parentSlotIndex == -1
      ensures old(BackLinksHold(nodes)) && SlotsUnshared(nodes) && this in nodes ==> BackLinksHold(nodes)
      ensures IsParentChain(this, CutAt(chain, old(slots[idx])))
      ensures IsEmission(fired, CutAt(chain, old(slots[idx])))
    {
      ghost var prev := slots[idx];
      ghost var post := CutAt(chain, prev);
      SetSlotSilent(idx, sdf, empty, nodes);
      assert forall i :: 0 <= i < |post| - 1 ==> post[i] != prev;
      assert IsParentChain(this, post);
      fired := EmitChangeEvent(post);
    }

    /** `setSlot(1, b)`. */
    method SetSecond(b: Node?, empty: Node, ghost nodes: set<Node>, ghost chain: seq<Node>)
      returns (fired: seq<Notification>)
      requires slots.Length == 2
      requires empty.kind.EmptyKind?
      requires IsParentChain(this, chain)
      requires Installed(b, empty) !in CutAt(chain, slots[1])
      modifies slots, Occupant(1)`parent, Occupant(1)`parentSlotIndex
      modifies Installed(b, empty)`parent, Installed(b, empty)`parentSlotIndex
      ensures slots[1] == Installed(b, empty) && slots[0] == old(slots[0])
      ensures slots[1].parent == this && slots[1].parentSlotIndex == 1
      ensures old(slots[1]) != null && old(slots[1]) != slots[1] ==>
                old(slots[1]).parent == null && old(slots[1]).parentSlotIndex == -1
      ensures old(BackLinksHold(nodes)) && SlotsUnshared(nodes) && this in nodes ==> BackLinksHold(nodes)
      ensures IsParentChain(this, CutAt(chain, old(slots[1])))
      ensures IsEmission(fired, CutAt(chain, old(slots[1])))
    {
      fired := SetSlot(1, b, empty, nodes, chain);
    }

    /** `dist(pos)`: a union answers the nearer of its two children. */
    method Dist(pos: Float3, env: Env, ghost s: Sdf) returns (d: real)
      requires Denotes(this, s)
      ensures d == Distance(s, env, pos)
      decreases s
    {
      match kind
      case EmptyKind =>
        d := env.emptyDist;
      case UnionKind =>
        var da := First().Dist(pos, env, s.first);
        var db := Second().Dist(pos, env, s.second);
        d := Min(da, db);
      case ForeignKind(r) =>
        d := env.foreignDist(r, pos);
    }

    /** `toString()`: a union is written "(first | second)". */
    method ToString(env: Env, ghost s: Sdf) returns (t: string)
      requires Denotes(this, s)
      ensures t == Show(s, env)
      decreases s
    {
      match kind
      case EmptyKind =>
        t := env.emptyText;
      case UnionKind =>
        var ta := First().ToString(env, s.first);
        var tb := Second().ToString(env, s.second);
        t := "(" + ta + " | " + tb + ")";
      case ForeignKind(r) =>
        t := env.foreignText(r);
    }
  }

  /** A parent chain that ends at a root never visits a node twice. */
  lemma ParentChainIsDistinct(n: Node, chain: seq<Node>)
    requires IsParentChain(n, chain)
    ensures Distinct(chain)
  {
    forall i, j | 0 <= i < j < |chain|
      ensures chain[i] != chain[j]
    {
      ChainEntriesDiffer(n, chain, i, j);
    }
  }

  lemma {:induction false} ChainEntriesDiffer(n: Node, chain: seq<Node>, i: nat, j: nat)
    requires IsParentChain(n, chain)
    requires i < j < |chain|
    ensures chain[i] != chain[j]
    decreases |chain| - j
  {
    assert chain[i].parent == chain[i + 1];
    if j < |chain| - 1 {
      ChainEntriesDiffer(n, chain, i + 1, j + 1);
      assert chain[j].parent == chain[j + 1];
    }
  }

  /** Within one node's turn, listener `l` is called with `m` once if `m`
      is that node and `l` is registered on it, and never otherwise. */
  lemma BatchCount(batch: seq<Notification>, n: Node, ls: set<ListenerId>, l: ListenerId, m: Node)
    requires Enumerates(batch, n, ls)
    ensures multiset(batch)[Notification(l, m)] == if m == n && l in ls then 1 else 0
  {
    var x := Notification(l, m);
    if m == n && l in ls {
      var k :| 0 <= k < |batch| && batch[k].listener == l;
      forall i | 0 <= i < |batch| && i != k ensures batch[i] != x {
        if i < k {
          assert batch[i].listener != batch[k].listener;
        } else {
          assert batch[k].listener != batch[i].listener;
        }
      }
      OccursOnceAt(batch, k, x);
    } else {
      assert x !in batch;
    }
  }

  lemma OccursOnceAt<T>(s: seq<T>, k: nat, x: T)
    requires k < |s| && s[k] == x
    requires forall i :: 0 <= i < |s| && i != k ==> s[i] != x
    ensures multiset(s)[x] == 1
  {
    var before, after := s[..k], s[k + 1..];
    assert x !in before;
    assert x !in after;
    assert s == before + [x] + after;
  }

  lemma {:induction false} EmissionCount(fired: seq<Notification>, chain: seq<Node>, l: ListenerId, m: Node)
    requires IsEmission(fired, chain)
    requires Distinct(chain)
    ensures multiset(fired)[Notification(l, m)] == if m in chain && l in m.listeners then 1 else 0
    decreases |chain|
  {
    if chain != [] {
      var k := |chain[0].listeners|;
      assert fired == fired[..k] + fired[k..];
      BatchCount(fired[..k], chain[0], chain[0].listeners, l, m);
      EmissionCount(fired[k..], chain[1..], l, m);
      assert m in chain <==> m == chain[0] || m in chain[1..];
      assert chain[0] !in chain[1..];
    }
  }

  /** One change event from `n` calls listener `l` with node `m` exactly once
      when `m` is `n` or one of its ancestors and `l` is registered on `m`,
      and never otherwise: an ancestor's listeners learn of the ancestor,
      not of the node that was edited. */
  lemma EmissionNotifiesEachOnce(n: Node, chain: seq<Node>, fired: seq<Notification>, l: ListenerId, m: Node)
    requires IsParentChain(n, chain)
    requires IsEmission(fired, chain)
    ensures multiset(fired)[Notification(l, m)] == if m in chain && l in m.listeners then 1 else 0
  {
    ParentChainIsDistinct(n, chain);
    EmissionCount(fired, chain, l, m);
  }

  /** `new SDFUnion(a, b)`: a union whose first child is `a` and second `b`. */
  method NewUnion(a: Node?, b: Node?, empty: Node, ghost nodes: set<Node>) returns (u: Node)
    requires empty.kind.EmptyKind?
    modifies Installed(a, empty)`parent, Installed(a, empty)`parentSlotIndex
    modifies Installed(b, empty)`parent, Installed(b, empty)`parentSlotIndex
    ensures fresh(u) && fresh(u.slots) && u.kind == UnionKind
    ensures u.slots.Length == 2
    ensures u.First() == Installed(a, empty) && u.Second() == Installed(b, empty)
    ensures u.Second().parent == u && u.Second().parentSlotIndex == 1
    ensures u.First() != u.Second() ==> u.First().parent == u && u.First().parentSlotIndex == 0
    ensures u.parent == null && u.parentSlotIndex == -1 && u.listeners == {}
    ensures old(BackLinksHold(nodes)) && SlotsUnshared(nodes) ==> BackLinksHold(nodes + {u})
  {
    u := new Node.Binary(UnionKind, a, b, empty, nodes);
  }

  /** Two nodes with one slot each; `c` written into the first and then
      into the second. The first still holds `c` though `c` now names the
      second as its parent: attaching does not detach. */
  method MoveLeavesStaleSlot(empty: Node) returns (p: Node, q: Node, c: Node)
    requires empty.kind.EmptyKind?
    ensures fresh(p) && fresh(q) && fresh(c) && fresh(p.slots) && fresh(q.slots)
    ensures p != q && p.slots != q.slots && p.slots.Length == 1 && q.slots.Length == 1
    ensures p.slots[0] == c && q.slots[0] == c
    ensures c.parent == q && c.parentSlotIndex == 0
    ensures p.parent == null && q.parent == null && q.listeners == {}
  {
    p := new Node(ForeignKind(Record("invert", [])), 1);
    q := new Node(ForeignKind(Record("invert", [])), 1);
    c := new Node(ForeignKind(Record("sphere", [])), 0);
    var _ := p.SetSlot(0, c, empty, {}, [p]);
    var _ := q.SetSlot(0, c, empty, {}, [q]);
  }

  /** Continues the scenario above: clearing the stale slot of `p` unlinks `c`
      although `q` still holds it, so a change event from `c` no longer
      reaches a listener registered on `q`. */
  method StaleSlotCutsOff(empty: Node) returns (p: Node, q: Node, c: Node, fired: seq<Notification>)
    requires empty.kind.EmptyKind?
    modifies empty`parent, empty`parentSlotIndex
    ensures p.slots.Length == 1 && q.slots.Length == 1
    ensures p.slots[0] == empty && q.slots[0] == c
    ensures c.parent == null && c.parentSlotIndex == -1
    ensures 0 in q.listeners && Notification(0, q) !in fired
    ensures IsEmission(fired, [c])
  {
    p, q, c := MoveLeavesStaleSlot(empty);
    q.AddChangeListener(0);
    var _ := p.SetSlot(0, null, empty, {}, [p]);
    fired := c.EmitChangeEvent([c]);
    EmissionNotifiesEachOnce(c, [c], fired, 0, q);
  }

  /** `new SDFUnion(a, b)` over two existing graphs, then `dist` and
      `toString` on the result: the union answers the nearer of `a` and `b`
      and prints as "(a | b)". */
  method UnionOfBuiltNodes(a: Node, b: Node, empty: Node, pos: Float3, env: Env, ghost sa: Sdf, ghost sb: Sdf)
    returns (u: Node, d: real, t: string)
    requires empty.kind.EmptyKind?
    requires Denotes(a, sa) && Denotes(b, sb)
    modifies a`parent, a`parentSlotIndex, b`parent, b`parentSlotIndex
    ensures d == Min(Distance(sa, env, pos), Distance(sb, env, pos))
    ensures t == "(" + Show(sa, env) + " | " + Show(sb, env) + ")"
  {
    ghost var snap: Snapshot := imap m: Node | allocated(m) :: m.slots[..];
    SnapshotKeepsDenotes(a, sa, snap);
    SnapshotKeepsDenotes(b, sb, snap);
    u := NewUnion(a, b, empty, {});
    DenotesFromSnapshot(a, sa, snap);
    DenotesFromSnapshot(b, sb, snap);
    d := u.Dist(pos, env, Union(sa, sb));
    t := u.ToString(env, Union(sa, sb));
  }
}
