/** The accounting that lets a checkpoint delete objects: for each of the three
metadata trees, how many bytes of each checkpoint object its live nodes take up.
*/
module CheckpointLayout {
  import opened Common

  datatype Tree = InodeRec | LogSegmentRec | BPlusTreeObject

  /** A node of a tree, where it was put. */
  datatype Node = Node(tree: Tree, objectNumber: nat, offset: nat, length: nat) {
    function End(): nat { offset + length }
  }

  type Layout = map<nat, nat>

  /** The bytes of object `o` that live nodes of `tree` take up. */
  function BytesIn(live: seq<Node>, tree: Tree, o: nat): nat {
    if live == [] then 0
    else (if live[0].tree == tree && live[0].objectNumber == o then live[0].length else 0) + BytesIn(live[1..], tree, o)
  }

  lemma {:induction false} BytesInConcat(a: seq<Node>, b: seq<Node>, tree: Tree, o: nat)
    ensures BytesIn(a + b, tree, o) == BytesIn(a, tree, o) + BytesIn(b, tree, o)
  {
    if a == [] {
      assert a + b == b;
    } else {
      assert (a + b)[1..] == a[1..] + b;
      BytesInConcat(a[1..], b, tree, o);
    }
  }

  lemma BytesInWithout(live: seq<Node>, k: nat, tree: Tree, o: nat)
    requires k < |live|
    ensures BytesIn(live, tree, o) ==
            BytesIn(live[..k] + live[k + 1..], tree, o)
            + if live[k].tree == tree && live[k].objectNumber == o then live[k].length else 0
  {
    assert live == live[..k] + ([live[k]] + live[k + 1..]);
    BytesInConcat(live[..k], [live[k]] + live[k + 1..], tree, o);
    BytesInConcat([live[k]], live[k + 1..], tree, o);
    BytesInConcat(live[..k], live[k + 1..], tree, o);
  }

  /** Object `o` holds a live node, of whichever tree. */
  ghost predicate Holds(live: seq<Node>, o: nat) {
    exists k :: 0 <= k < |live| && live[k].objectNumber == o
  }

  function TotalIn(live: seq<Node>, o: nat): nat {
    BytesIn(live, InodeRec, o) + BytesIn(live, LogSegmentRec, o) + BytesIn(live, BPlusTreeObject, o)
  }

  /** The three trees use no byte of an object exactly when none has a live node in it. */
  lemma {:induction false} UnusedIffHoldsNone(live: seq<Node>, o: nat)
    requires forall k :: 0 <= k < |live| ==> live[k].length > 0
    ensures TotalIn(live, o) == 0 <==> !Holds(live, o)
  {
    if live != [] {
      UnusedIffHoldsNone(live[1..], o);
      if Holds(live, o) {
        var k :| 0 <= k < |live| && live[k].objectNumber == o;
        if k > 0 {
          assert live[1..][k - 1].objectNumber == o;
        }
      }
      if k :| 0 <= k < |live[1..]| && live[1..][k].objectNumber == o {
        assert live[k + 1].objectNumber == o;
      }
    }
  }

  ghost predicate Apart(a: Node, b: Node) {
    a.objectNumber == b.objectNumber ==> a.End() <= b.offset || b.End() <= a.offset
  }

  /** Nodes have a length and never overlap. */
  ghost predicate Disjoint(live: seq<Node>) {
    && (forall k :: 0 <= k < |live| ==> live[k].length > 0)
    && (forall i, j :: 0 <= i < j < |live| ==> Apart(live[i], live[j]))
  }

  /** Where nodes may be: in objects used, and in the one being streamed before
      its current end; that one was begun since the last checkpoint and holds a node. */
  ghost predicate InPlace(live: seq<Node>, used: set<nat>, recent: set<nat>, context: Option<nat>, objectNumber: nat) {
    && Disjoint(live)
    && (forall k :: 0 <= k < |live| ==> live[k].objectNumber in used)
    && recent <= used
    && (context.Some? ==>
          objectNumber in recent && Holds(live, objectNumber) && EndBy(live, objectNumber, context.value))
  }

  ghost predicate EndBy(live: seq<Node>, o: nat, end: nat) {
    forall k :: 0 <= k < |live| && live[k].objectNumber == o ==> live[k].End() <= end
  }

  /** A node put behind all others of its object is in place. */
  lemma AppendInPlace(live: seq<Node>, used: set<nat>, recent: set<nat>, node: Node)
    requires InPlace(live, used, recent, None, 0)
    requires node.length > 0 && node.objectNumber in recent && EndBy(live, node.objectNumber, node.offset)
    ensures InPlace(live + [node], used, recent, Some(node.End()), node.objectNumber)
  {
    var live' := live + [node];
    assert live'[|live|] == node;
  }

  lemma WithoutInPlace(live: seq<Node>, used: set<nat>, recent: set<nat>, context: Option<nat>, objectNumber: nat,
                       k: nat)
    requires InPlace(live, used, recent, context, objectNumber)
    requires k < |live| && live[k].objectNumber !in recent
    ensures InPlace(live[..k] + live[k + 1..], used, recent, context, objectNumber)
  {
    var live' := live[..k] + live[k + 1..];
    forall i | 0 <= i < |live'| ensures live'[i] == live[if i < k then i else i + 1] {}
    if context.Some? {
      var i :| 0 <= i < |live| && live[i].objectNumber == objectNumber;
      assert live'[if i < k then i else i - 1].objectNumber == objectNumber;
    }
  }

  // ----- layouts -----

  /** layout[o] is the total length of the tree's live nodes in object o. */
  ghost predicate Fits(layout: Layout, live: seq<Node>, tree: Tree) {
    forall o :: Recorded(layout, o) == BytesIn(live, tree, o)
  }

  /** A node's bytes added to what its tree uses of its object. */
  function Plus(layout: Layout, node: Node): Layout {
    layout[node.objectNumber := Recorded(layout, node.objectNumber) + node.length]
  }

  lemma FitsPlus(layout: Layout, live: seq<Node>, tree: Tree, node: Node)
    requires Fits(layout, live, tree)
    ensures Fits(if node.tree == tree then Plus(layout, node) else layout, live + [node], tree)
  {
    forall o ensures BytesIn(live + [node], tree, o) ==
                     BytesIn(live, tree, o) + if tree == node.tree && o == node.objectNumber then node.length else 0 {
      BytesInConcat(live, [node], tree, o);
    }
  }

  /** They are taken off again when it is discarded. */
  function Minus(layout: Layout, node: Node): Layout {
    var o := node.objectNumber;
    if node.length <= Recorded(layout, o) then layout[o := Recorded(layout, o) - node.length] else layout
  }

  lemma FitsMinus(layout: Layout, live: seq<Node>, tree: Tree, k: nat)
    requires Fits(layout, live, tree) && k < |live|
    ensures live[k].tree == tree ==> live[k].length <= Recorded(layout, live[k].objectNumber)
    ensures Fits(if live[k].tree == tree then Minus(layout, live[k]) else layout, live[..k] + live[k + 1..], tree)
  {
    var rest := live[..k] + live[k + 1..];
    forall o ensures BytesIn(live, tree, o) ==
                     BytesIn(rest, tree, o)
                     + if live[k].tree == tree && live[k].objectNumber == o then live[k].length else 0 {
      BytesInWithout(live, k, tree, o);
    }
    assert Recorded(layout, live[k].objectNumber) == BytesIn(live, tree, live[k].objectNumber);
  }

  /** Objects no live node is in can be forgotten. */
  lemma FitsForgotten(layout: Layout, live: seq<Node>, tree: Tree, gone: set<nat>)
    requires Fits(layout, live, tree) && Disjoint(live) && forall o :: o in gone ==> !Holds(live, o)
    ensures Fits(layout - gone, live, tree)
  {
    forall o | o in gone ensures BytesIn(live, tree, o) == 0 {
      UnusedIffHoldsNone(live, o);
    }
  }

  // ----- objects and their numbers -----

  /** Of a volume, its live nodes, the objects with an entry in a layout, the numbers used so far and since the
      last checkpoint, the objects in the store, those of all objects that were begun for a trailer only, and how
      far the one being streamed is, if one is. */
  datatype View = View(live: seq<Node>, keys: set<nat>, used: set<nat>, recent: set<nat>, stored: set<nat>,
                       alone: set<nat>, context: Option<nat>, objectNumber: nat)

  /** Only objects used have an entry, and none begun for a trailer only has; the one being streamed has. */
  ghost predicate Entered(v: View) {
    && v.keys + v.alone <= v.used && v.keys !! v.alone
    && (forall o :: Holds(v.live, o) ==> o in v.keys)
    && InPlace(v.live, v.used, v.recent, v.context, v.objectNumber)
  }

  /** The store has the objects with an entry, and those that hold but a trailer. */
  ghost predicate Tidy(v: View) {
    v.stored == v.keys + v.alone
  }

  function Begun(v: View, nonce: nat): set<nat> {
    if v.context.None? then {nonce} else {}
  }

  /** A node was put at the end of the object being streamed, or at the start of a new one. */
  ghost predicate NodePut(v: View, v': View, node: Node, nonce: nat, maxFlushSize: nat) {
    && v'.live == v.live + [node] && v'.keys == v.keys + {node.objectNumber} && v'.alone == v.alone
    && v'.used == v.used + Begun(v, nonce) && v'.recent == v.recent + Begun(v, nonce)
    && v'.stored == v.stored + Begun(v, nonce)
    && node.objectNumber == v'.objectNumber == (if v.context.None? then nonce else v.objectNumber)
    && node.offset == (if v.context.None? then 0 else v.context.value)
    && v'.context == (if node.End() >= maxFlushSize then None else Some(node.End()))
  }

  lemma NodePutEntered(v: View, v': View, node: Node, nonce: nat, maxFlushSize: nat)
    requires Entered(v) && NodePut(v, v', node, nonce, maxFlushSize) && nonce !in v.used && node.length > 0
    ensures Entered(v') && (Tidy(v) ==> Tidy(v')) && node.objectNumber in v'.recent
  {
    assert v.context.None? ==> EndBy(v.live, nonce, 0);
    AppendInPlace(v.live, v'.used, v'.recent, node);
    forall o | Holds(v'.live, o) ensures o in v'.keys {
      var k :| 0 <= k < |v'.live| && v'.live[k].objectNumber == o;
      assert k < |v.live| ==> v.live[k].objectNumber == o;
    }
  }

  /** Since `v0` the nodes have been put, in objects begun since. */
  ghost predicate Flushed(v0: View, v: View, nodes: seq<Node>) {
    && v.live == v0.live + nodes && v.keys == v0.keys + ObjectsOf(nodes) && v.alone == v0.alone
    && v0.used <= v.used && v.recent <= v0.recent + (v.used - v0.used) && ObjectsOf(nodes) <= v.recent
    && (Tidy(v0) ==> Tidy(v))
  }

  lemma FlushedNext(v0: View, v: View, v': View, nodes: seq<Node>, node: Node, nonce: nat, maxFlushSize: nat)
    requires Entered(v) && Flushed(v0, v, nodes) && NodePut(v, v', node, nonce, maxFlushSize)
    requires nonce !in v.used && node.length > 0
    ensures Flushed(v0, v', nodes + [node])
  {
    NodePutEntered(v, v', node, nonce, maxFlushSize);
    assert ObjectsOf(nodes + [node]) == ObjectsOf(nodes) + {node.objectNumber};
    assert v0.live + (nodes + [node]) == v0.live + nodes + [node];
  }

  /** The trailer was put, which holds live nodes exactly if an object was being streamed. */
  ghost predicate TrailerPut(v: View, v': View, trailer: nat, nonce: nat) {
    && trailer == (if v.context.Some? then v.objectNumber else nonce)
    && v' == v.(used := v.used + Begun(v, nonce), recent := v.recent + Begun(v, nonce),
                stored := v.stored + Begun(v, nonce), alone := v.alone + Begun(v, nonce),
                context := None, objectNumber := trailer)
  }

  lemma TrailerPutEntered(v: View, v': View, trailer: nat, nonce: nat)
    requires Entered(v) && TrailerPut(v, v', trailer, nonce) && nonce !in v.used
    ensures Entered(v') && (Tidy(v) ==> Tidy(v')) && (Holds(v.live, trailer) <==> v.context.Some?)
  {
  }

  /** What had an entry and holds no live node is deleted. */
  ghost predicate Collected(v: View, v': View, deleted: set<nat>) {
    && deleted == (set o | o in v.keys && !Holds(v.live, o))
    && v' == v.(keys := v.keys - deleted, stored := v.stored - deleted, recent := {})
  }

  lemma CollectedEntered(v: View, v': View, deleted: set<nat>)
    requires Entered(v) && v.context == None && Collected(v, v', deleted)
    ensures Entered(v') && (Tidy(v) ==> Tidy(v')) && (forall o :: o in v'.keys <==> Holds(v'.live, o))
    ensures v.alone !! deleted
  {
  }

  class CheckpointVolume {
    const maxFlushSize: nat
    var inodeRecLayout: Layout
    var logSegmentRecLayout: Layout
    var bPlusTreeObjectLayout: Layout
    /** The bytes put so far into the checkpoint object being streamed, if one is. */
    var context: Option<nat>
    var objectNumber: nat
    var flushedData: bool
    ghost var live: seq<Node>
    ghost var used: set<nat>
    ghost var recent: set<nat>
    ghost var stored: set<nat>
    ghost var alone: set<nat>

    /** The objects that have an entry in some layout. */
    ghost function Keys(): set<nat>
      reads `inodeRecLayout, `logSegmentRecLayout, `bPlusTreeObjectLayout
    {
      inodeRecLayout.Keys + logSegmentRecLayout.Keys + bPlusTreeObjectLayout.Keys
    }

    ghost function Shape(): View
      reads this
    {
      View(live, Keys(), used, recent, stored, alone, context, objectNumber)
    }

    function LayoutOf(tree: Tree): Layout
      reads `inodeRecLayout, `logSegmentRecLayout, `bPlusTreeObjectLayout
    {
      match tree
      case InodeRec => inodeRecLayout
      case LogSegmentRec => logSegmentRecLayout
      case BPlusTreeObject => bPlusTreeObjectLayout
    }

    ghost predicate Accounted()
      reads `inodeRecLayout, `logSegmentRecLayout, `bPlusTreeObjectLayout, `live
    {
      && Fits(inodeRecLayout, live, InodeRec) && Fits(logSegmentRecLayout, live, LogSegmentRec)
      && Fits(bPlusTreeObjectLayout, live, BPlusTreeObject)
    }

    ghost predicate Valid()
      reads this
    {
      Accounted() && Entered(Shape())
    }

    constructor (maxFlushSize: nat)
      ensures Valid() && Shape() == View([], {}, {}, {}, {}, {}, None, 0) && Tidy(Shape())
      ensures this.maxFlushSize == maxFlushSize
    {
      this.maxFlushSize := maxFlushSize;
      inodeRecLayout, logSegmentRecLayout, bPlusTreeObjectLayout := map[], map[], map[];
      context, objectNumber, flushedData := None, 0, false;
      live, used, recent, stored, alone := [], {}, {}, {}, {};
    }

    method SetLayout(tree: Tree, layout: Layout)
      modifies `inodeRecLayout, `logSegmentRecLayout, `bPlusTreeObjectLayout
      ensures inodeRecLayout == if tree == InodeRec then layout else old(inodeRecLayout)
      ensures logSegmentRecLayout == if tree == LogSegmentRec then layout else old(logSegmentRecLayout)
      ensures bPlusTreeObjectLayout == if tree == BPlusTreeObject then layout else old(bPlusTreeObjectLayout)
    {
      match tree
      case InodeRec => inodeRecLayout := layout;
      case LogSegmentRec => logSegmentRecLayout := layout;
      case BPlusTreeObject => bPlusTreeObjectLayout := layout;
    }

    /** Adds a node's bytes to what its tree uses of its object. */
    method Count(node: Node)
      requires Accounted()
      modifies `inodeRecLayout, `logSegmentRecLayout, `bPlusTreeObjectLayout, `live
      ensures Accounted() && live == old(live) + [node] && Keys() == old(Keys()) + {node.objectNumber}
    {
      FitsPlus(inodeRecLayout, live, InodeRec, node);
      FitsPlus(logSegmentRecLayout, live, LogSegmentRec, node);
      FitsPlus(bPlusTreeObjectLayout, live, BPlusTreeObject, node);
      var layout := LayoutOf(node.tree);
      SetLayout(node.tree, layout[node.objectNumber := Recorded(layout, node.objectNumber) + node.length]);
      live := live + [node];
    }

    /** The object a node goes to, begun under number `nonce` if none is being streamed, and the offset it gets. */
    method OpenIfNecessary(nonce: nat) returns (bytesPut: nat)
      modifies `objectNumber, `used, `recent, `stored
      ensures bytesPut == if context.Some? then context.value else 0
      ensures objectNumber == if context.Some? then old(objectNumber) else nonce
      ensures used == old(used) + Begun(old(Shape()), nonce) && recent == old(recent) + Begun(old(Shape()), nonce)
      ensures stored == old(stored) + Begun(old(Shape()), nonce)
    {
      if context.None? {
        objectNumber := nonce;
        used, recent, stored := used + {nonce}, recent + {nonce}, stored + {nonce};
        return 0;
      }
      return context.value;
    }

    /** Appends a node to the object being streamed. */
    method PutNode(tree: Tree, length: nat, nonce: nat) returns (node: Node)
      requires Valid() && length > 0 && nonce !in used
      modifies this
      ensures Valid() && flushedData && NodePut(old(Shape()), Shape(), node, nonce, maxFlushSize)
      ensures node.tree == tree && node.length == length
    {
      node := Stream(tree, length, nonce);
      Count(node);
      flushedData := true;
      NodePutEntered(old(Shape()), Shape(), node, nonce, maxFlushSize);
    }

    /** The node goes to the object being streamed, which ends once it is long enough. */
    method Stream(tree: Tree, length: nat, nonce: nat) returns (node: Node)
      modifies `objectNumber, `used, `recent, `stored, `context
      ensures node.tree == tree && node.length == length
      ensures NodePut(old(Shape()), Shape().(live := live + [node], keys := Keys() + {node.objectNumber}), node, nonce,
                      maxFlushSize)
    {
      var bytesPut := OpenIfNecessary(nonce);
      node := Node(tree, objectNumber, bytesPut, length);
      context := if node.End() >= maxFlushSize then None else Some(node.End());
    }

    /** Takes a node's bytes off what its tree uses of its object; its two errors cannot occur for a live node. */
    method DiscardNode(node: Node, ghost k: nat) returns (ok: bool)
      requires Valid() && k < |live| && live[k] == node && node.objectNumber !in recent
      modifies `inodeRecLayout, `logSegmentRecLayout, `bPlusTreeObjectLayout, `live
      ensures ok && Valid()
      ensures live == old(live)[..k] + old(live)[k + 1..] && Keys() == old(Keys())
    {
      ok := Uncount(node, k);
      WithoutEntered(old(Shape()), k);
      assert Shape() == old(Shape()).(live := live);
    }

    method Uncount(node: Node, ghost k: nat) returns (ok: bool)
      requires Accounted() && k < |live| && live[k] == node && node.length > 0
      modifies `inodeRecLayout, `logSegmentRecLayout, `bPlusTreeObjectLayout, `live
      ensures ok && Accounted() && live == old(live)[..k] + old(live)[k + 1..] && Keys() == old(Keys())
    {
      FitsMinus(inodeRecLayout, live, InodeRec, k);
      FitsMinus(logSegmentRecLayout, live, LogSegmentRec, k);
      FitsMinus(bPlusTreeObjectLayout, live, BPlusTreeObject, k);
      var layout := LayoutOf(node.tree);
      if node.objectNumber !in layout || layout[node.objectNumber] < node.length {
        return false;
      }
      SetLayout(node.tree, layout[node.objectNumber := layout[node.objectNumber] - node.length]);
      live := live[..k] + live[k + 1..];
      ok := true;
    }

    /** Streams the trailer behind the nodes and ends the object: the header will name this object. It
        holds live nodes exactly if one was being streamed; else it is begun for the trailer only. */
    method PutTrailer(nonce: nat) returns (trailer: nat)
      requires Valid() && nonce !in used
      modifies `objectNumber, `used, `recent, `context, `stored, `alone
      ensures Valid() && TrailerPut(old(Shape()), Shape(), trailer, nonce)
    {
      var _ := OpenIfNecessary(nonce);
      trailer := objectNumber;
      alone := alone + Begun(old(Shape()), nonce);
      context := None;
      TrailerPutEntered(old(Shape()), Shape(), trailer, nonce);
    }

    method AddLayout(combined: Layout, layout: Layout) returns (sum: Layout)
      ensures sum.Keys == combined.Keys + layout.Keys
      ensures forall o :: Recorded(sum, o) == Recorded(combined, o) + Recorded(layout, o)
    {
      sum := combined;
      var unseen := layout.Keys;
      while unseen != {}
        invariant unseen <= layout.Keys
        invariant sum.Keys == combined.Keys + (layout.Keys - unseen)
        invariant forall o :: Recorded(sum, o) == Recorded(combined, o) + if o in unseen then 0 else Recorded(layout, o)
        decreases unseen
      {
        var o :| o in unseen;
        if o in sum {
          sum := sum[o := sum[o] + layout[o]];
        } else {
          sum := sum[o := layout[o]];
        }
        unseen := unseen - {o};
      }
    }

    method CombinedLayout() returns (combined: Layout)
      requires Accounted()
      ensures combined.Keys == Keys()
      ensures forall o :: Recorded(combined, o) == TotalIn(live, o)
    {
      combined := AddLayout(map[], inodeRecLayout);
      combined := AddLayout(combined, logSegmentRecLayout);
      combined := AddLayout(combined, bPlusTreeObjectLayout);
      forall o ensures Recorded(combined, o) == TotalIn(live, o) {
        assert Recorded(inodeRecLayout, o) == BytesIn(live, InodeRec, o);
        assert Recorded(logSegmentRecLayout, o) == BytesIn(live, LogSegmentRec, o);
        assert Recorded(bPlusTreeObjectLayout, o) == BytesIn(live, BPlusTreeObject, o);
      }
    }

    method ForgetEmpty(combined: Layout) returns (deleted: set<nat>)
      modifies `inodeRecLayout, `logSegmentRecLayout, `bPlusTreeObjectLayout
      ensures deleted == set o | o in combined.Keys && combined[o] == 0
      ensures inodeRecLayout == old(inodeRecLayout) - deleted
      ensures logSegmentRecLayout == old(logSegmentRecLayout) - deleted
      ensures bPlusTreeObjectLayout == old(bPlusTreeObjectLayout) - deleted
    {
      deleted := {};
      var unseen := combined.Keys;
      while unseen != {}
        invariant unseen <= combined.Keys
        invariant deleted == set o | o in combined.Keys - unseen && combined[o] == 0
        invariant inodeRecLayout == old(inodeRecLayout) - deleted
        invariant logSegmentRecLayout == old(logSegmentRecLayout) - deleted
        invariant bPlusTreeObjectLayout == old(bPlusTreeObjectLayout) - deleted
        decreases unseen
      {
        var o :| o in unseen;
        if combined[o] == 0 {
          inodeRecLayout := inodeRecLayout - {o};
          logSegmentRecLayout := logSegmentRecLayout - {o};
          bPlusTreeObjectLayout := bPlusTreeObjectLayout - {o};
          deleted := deleted + {o};
        }
        unseen := unseen - {o};
      }
    }

    /** Forgets, and schedules for deletion, the objects none of whose bytes is in use. */
    method CollectEmpty() returns (deleted: set<nat>)
      requires Valid() && context == None
      modifies `inodeRecLayout, `logSegmentRecLayout, `bPlusTreeObjectLayout, `stored, `recent
      ensures Valid() && Collected(old(Shape()), Shape(), deleted)
    {
      var combined := CombinedLayout();
      ghost var a, b, c := inodeRecLayout, logSegmentRecLayout, bPlusTreeObjectLayout;
      deleted := ForgetEmpty(combined);
      EmptyUnused(live, combined, deleted);
      FitsForgotten(a, live, InodeRec, deleted);
      FitsForgotten(b, live, LogSegmentRec, deleted);
      FitsForgotten(c, live, BPlusTreeObject, deleted);
      stored, recent := stored - deleted, {};
      assert Keys() == old(Keys()) - deleted;
      CollectedEntered(old(Shape()), Shape(), deleted);
    }

    /** Flushing the trees: each dirty node is put anew, under the next unused object number if need be. */
    method FlushTrees(puts: seq<(Tree, nat)>, nonces: seq<nat>) returns (nodes: seq<Node>)
      requires Valid() && |puts| <= |nonces| && Unused(nonces, used)
      requires forall i :: 0 <= i < |puts| ==> puts[i].1 > 0
      modifies this
      ensures Valid() && FlushedUpTo(old(Shape()), Shape(), puts, nonces, nodes, |puts|, maxFlushSize)
      ensures flushedData <==> old(flushedData) || puts != []
      ensures puts == [] ==> unchanged(this)
    {
      nodes := [];
      for k := 0 to |puts|
        invariant Valid() && FlushedUpTo(old(Shape()), Shape(), puts, nonces, nodes, k, maxFlushSize)
        invariant flushedData <==> old(flushedData) || k > 0
        invariant k == 0 ==> unchanged(this)
      {
        var node := FlushNext(old(Shape()), puts, nonces, k, nodes);
        nodes := nodes + [node];
      }
    }

    method FlushNext(ghost v0: View, puts: seq<(Tree, nat)>, nonces: seq<nat>, k: nat, ghost nodes: seq<Node>)
      returns (node: Node)
      requires Valid() && k < |puts| <= |nonces| && puts[k].1 > 0 && Unused(nonces, v0.used)
      requires FlushedUpTo(v0, Shape(), puts, nonces, nodes, k, maxFlushSize)
      modifies this
      ensures Valid() && flushedData && FlushedUpTo(v0, Shape(), puts, nonces, nodes + [node], k + 1, maxFlushSize)
    {
      NextUnused(nonces, v0.used, used, k);
      ghost var v := Shape();
      node := PutNode(puts[k].0, puts[k].1, nonces[k]);
      FlushedUpToNext(v0, v, Shape(), puts, nonces, nodes, node, k, maxFlushSize);
    }

    /** Pruning the trees: the nodes they no longer use are discarded. */
    method PruneTrees(discards: seq<Node>) returns (ok: bool)
      requires Valid() && Distinct(discards)
      requires forall i :: 0 <= i < |discards| ==> discards[i] in live && discards[i].objectNumber !in recent
      modifies `inodeRecLayout, `logSegmentRecLayout, `bPlusTreeObjectLayout, `live
      ensures ok
      ensures Valid() && multiset(live) == multiset(old(live)) - multiset(discards) && Keys() == old(Keys())
    {
      for k := 0 to |discards|
        invariant Valid() && PrunedOf(old(live), discards, k, live) && Keys() == old(Keys())
      {
        ghost var j :| 0 <= j < |live| && live[j] == discards[k];
        PrunedNext(old(live), discards, k, live, j);
        ok := DiscardNode(discards[k], j);
        if !ok {
          return;
        }
      }
      assert discards[..|discards|] == discards;
      ok := true;
    }

    /** The trailer, the new header, and the deletion of the objects no longer used. */
    method Conclude(nonce: nat) returns (trailer: nat, deleted: set<nat>)
      requires Valid() && nonce !in used
      modifies this
      ensures Valid() && Concluded(old(Shape()), Shape(), trailer, deleted)
      ensures (Holds(live, trailer) <==> old(context).Some?) && used <= old(used) + {nonce}
      ensures trailer in old(recent) + {nonce}
    {
      trailer := PutTrailer(nonce);
      ghost var v := Shape();
      deleted := CollectEmpty();
      TrailerPutEntered(old(Shape()), v, trailer, nonce);
      CollectedEntered(v, Shape(), deleted);
    }

    /** putCheckpoint once the nodes are flushed. */
    method Finish(ghost v: View, discards: seq<Node>, ghost nodes: seq<Node>, nonce: nat)
      returns (ok: bool, trailer: nat, deleted: set<nat>)
      requires Valid() && Entered(v) && Flushed(v, Shape(), nodes) && v.recent == {} && nonce !in used
      requires Distinct(discards) && forall i :: 0 <= i < |discards| ==> discards[i] in v.live
      modifies this
      ensures ok && Valid() && CheckpointPut(v, Shape(), discards, nodes, trailer, deleted)
      ensures used <= old(used) + {nonce} && (Holds(live, trailer) <==> old(context).Some?)
    {
      StillOld(v.live, nodes, discards, v.used, recent);
      ok := PruneTrees(discards);
      NewNodesHeld(v.live, nodes, discards, live, recent);
      ghost var w := Shape();
      trailer, deleted := Conclude(nonce);
      Checkpointed(v, old(Shape()), w, Shape(), nodes, trailer, deleted);
    }

    /** putCheckpoint: flush, prune, trailer, and the deletion of objects no longer used. Unless nothing was to be
        put, deleted is exactly what had an entry and holds no live node of any tree now; so of the objects in
        the store those are left that hold live nodes, and those that were begun for a trailer only. */
    method PutCheckpoint(puts: seq<(Tree, nat)>, discards: seq<Node>, nonces: seq<nat>)
      returns (ok: bool, nodes: seq<Node>, trailer: Option<nat>, deleted: set<nat>)
      requires Valid() && context == None && recent == {}
      requires |nonces| == |puts| + 1 && Unused(nonces, used)
      requires forall i :: 0 <= i < |puts| ==> puts[i].1 > 0
      requires Distinct(discards) && forall i :: 0 <= i < |discards| ==> discards[i] in live
      modifies this
      ensures ok && Valid() && context == None && recent == {} && AsAsked(puts, nodes, |puts|)
      ensures puts == [] ==> Shape() == old(Shape()) && deleted == {} && trailer == None
      ensures puts != [] ==>
                trailer.Some? && CheckpointPut(old(Shape()), Shape(), discards, nodes, trailer.value, deleted)
      ensures puts != [] ==> (Holds(live, trailer.value) <==> nodes[|puts| - 1].End() < maxFlushSize)
      ensures used <= old(used) + Members(nonces)
    {
      flushedData, trailer, deleted := false, None, {};
      nodes := FlushTrees(puts, nonces);
      if !flushedData {
        return true, nodes, None, {};
      }
      NextUnused(nonces, old(used), used, |puts|);
      var t;
      ok, t, deleted := Finish(old(Shape()), discards, nodes, nonces[|puts|]);
      trailer := Some(t);
    }
  }

  /** What a checkpoint that puts `nodes` makes of a volume. */
  ghost predicate CheckpointPut(v: View, v': View, discards: seq<Node>, nodes: seq<Node>, trailer: nat,
                                deleted: set<nat>) {
    && multiset(v'.live) == multiset(v.live + nodes) - multiset(discards) && v'.context == None && v'.recent == {}
    && deleted == (set o | o in v.keys && !Holds(v'.live, o))
    && (forall o :: Holds(v.live, o) && !Holds(v'.live, o) ==> o in deleted)
    && (forall o :: o in v'.keys <==> Holds(v'.live, o))
    && trailer !in v.used && trailer !in deleted
    && v'.alone == v.alone + (if Holds(v'.live, trailer) then {} else {trailer})
    && (Tidy(v) ==> Tidy(v'))
  }

  /** One node of ten bytes is put into objects of at most ten, in place of another: the trailer gets its own object. */
  method FullObject(volume: CheckpointVolume, discards: seq<Node>, nonces: seq<nat>) returns (node: Node, trailer: nat)
    requires volume.Valid() && volume.context == None && volume.recent == {} && Tidy(volume.Shape())
    requires volume.maxFlushSize == 10 && |nonces| == 2 && Unused(nonces, volume.used)
    requires Distinct(discards) && forall i :: 0 <= i < |discards| ==> discards[i] in volume.live
    modifies volume
    ensures volume.Valid() && volume.context == None && volume.recent == {} && Tidy(volume.Shape())
    ensures volume.alone <= volume.stored && forall o :: o in volume.alone ==> !Holds(volume.live, o)
    ensures volume.alone == old(volume.alone) + {trailer} && trailer !in old(volume.used)
    ensures volume.used <= old(volume.used) + Members(nonces)
    ensures discards == [] ==> node in volume.live
  {
    var _, nodes, t, _ := volume.PutCheckpoint([(InodeRec, 10)], discards, nonces);
    node, trailer := nodes[0], t.value;
    if discards == [] {
      assert (old(volume.live) + nodes)[|old(volume.live)|] == node;
      assert node in multiset(volume.live);
    }
  }

  /** An object begun for a trailer only is never deleted, though the next checkpoint makes it useless. */
  method TrailerObjectStays() returns (volume: CheckpointVolume, first: nat, second: nat)
    ensures first in volume.stored && second in volume.stored && first != second
    ensures !Holds(volume.live, first)
  {
    volume := new CheckpointVolume(10);
    var node;
    node, first := FullObject(volume, [], [5, 6]);
    assert Members([5, 6]) == {5, 6};
    var _, t := FullObject(volume, [node], [7, 8]);
    second := t;
  }

  /** The trailer was put and what is not used any more deleted. */
  ghost predicate Concluded(v: View, v': View, trailer: nat, deleted: set<nat>) {
    && v'.live == v.live && v'.context == None && v'.recent == {}
    && deleted == (set o | o in v.keys && !Holds(v.live, o)) && trailer !in deleted
    && (forall o :: o in v'.keys <==> Holds(v'.live, o))
    && v'.alone == v.alone + (if Holds(v.live, trailer) then {} else {trailer})
    && (Tidy(v) ==> Tidy(v'))
  }

  /** What flushing, pruning and concluding come to. */
  lemma Checkpointed(v0: View, v: View, w: View, v': View, nodes: seq<Node>, trailer: nat, deleted: set<nat>)
    requires Entered(v0) && Flushed(v0, v, nodes) && w == v.(live := w.live) && Concluded(w, v', trailer, deleted)
    requires forall o :: o in ObjectsOf(nodes) ==> Holds(w.live, o)
    ensures deleted == set o | o in v0.keys && !Holds(v'.live, o)
    ensures forall o :: Holds(v0.live, o) && !Holds(v'.live, o) ==> o in deleted
    ensures Tidy(v0) ==> Tidy(v')
  {
  }

  lemma NextUnused(nonces: seq<nat>, used: set<nat>, used': set<nat>, k: nat)
    requires Unused(nonces, used) && k < |nonces| && used' <= used + Members(nonces[..k])
    ensures nonces[k] !in used' && Members(nonces[..k + 1]) == Members(nonces[..k]) + {nonces[k]}
    ensures Members(nonces[..k + 1]) <= Members(nonces)
  {
    assert nonces[..k + 1] == nonces[..k] + [nonces[k]];
  }

  lemma WithoutEntered(v: View, k: nat)
    requires Entered(v) && k < |v.live| && v.live[k].objectNumber !in v.recent
    ensures Entered(v.(live := v.live[..k] + v.live[k + 1..])) && v.live[k].length > 0
  {
    WithoutInPlace(v.live, v.used, v.recent, v.context, v.objectNumber, k);
    var live' := v.live[..k] + v.live[k + 1..];
    forall o | Holds(live', o) ensures o in v.keys {
      var i :| 0 <= i < |live'| && live'[i].objectNumber == o;
      assert v.live[if i < k then i else i + 1].objectNumber == o;
    }
  }

  /** Flushing has come to the `k`th node asked for. */
  ghost predicate FlushedUpTo(v0: View, v: View, puts: seq<(Tree, nat)>, nonces: seq<nat>, nodes: seq<Node>, k: nat,
                              maxFlushSize: nat) {
    && Flushed(v0, v, nodes) && AsAsked(puts, nodes, k) && k <= |nonces| && v.used <= v0.used + Members(nonces[..k])
    && (k > 0 ==> (v.context.None? <==> nodes[k - 1].End() >= maxFlushSize))
  }

  lemma FlushedUpToNext(v0: View, v: View, v': View, puts: seq<(Tree, nat)>, nonces: seq<nat>, nodes: seq<Node>,
                        node: Node, k: nat, maxFlushSize: nat)
    requires k < |puts| <= |nonces| && puts[k].1 > 0 && Unused(nonces, v0.used) && Entered(v)
    requires FlushedUpTo(v0, v, puts, nonces, nodes, k, maxFlushSize) && NodePut(v, v', node, nonces[k], maxFlushSize)
    requires node.tree == puts[k].0 && node.length == puts[k].1
    ensures FlushedUpTo(v0, v', puts, nonces, nodes + [node], k + 1, maxFlushSize)
  {
    NextUnused(nonces, v0.used, v.used, k);
    FlushedNext(v0, v, v', nodes, node, nonces[k], maxFlushSize);
  }

  /** The first `k` nodes asked for have been put. */
  ghost predicate AsAsked(puts: seq<(Tree, nat)>, nodes: seq<Node>, k: nat) {
    |nodes| == k <= |puts| && forall i :: 0 <= i < k ==> nodes[i].tree == puts[i].0 && nodes[i].length == puts[i].1
  }

  function ObjectsOf(nodes: seq<Node>): set<nat> {
    set node | node in nodes :: node.objectNumber
  }

  /** Every object with a new node holds a live one, for no new node is discarded. */
  lemma NewNodesHeld(before: seq<Node>, nodes: seq<Node>, discards: seq<Node>, now: seq<Node>, recent: set<nat>)
    requires multiset(now) == multiset(before + nodes) - multiset(discards)
    requires ObjectsOf(nodes) <= recent
    requires forall i :: 0 <= i < |discards| ==> discards[i].objectNumber !in recent
    ensures forall o :: o in ObjectsOf(nodes) ==> Holds(now, o)
  {
    forall o | o in ObjectsOf(nodes) ensures Holds(now, o) {
      var i :| 0 <= i < |nodes| && nodes[i].objectNumber == o;
      assert (before + nodes)[|before| + i] == nodes[i] && nodes[i].objectNumber in ObjectsOf(nodes);
      assert nodes[i] in multiset(before + nodes) && nodes[i] !in multiset(discards);
      assert nodes[i] in multiset(now);
      var k :| 0 <= k < |now| && now[k] == nodes[i];
    }
  }

  /** Nodes that were live before a checkpoint are in none of its own objects. */
  lemma StillOld(before: seq<Node>, nodes: seq<Node>, discards: seq<Node>, used: set<nat>, recent: set<nat>)
    requires forall k :: 0 <= k < |before| ==> before[k].objectNumber in used
    requires recent !! used
    requires forall i :: 0 <= i < |discards| ==> discards[i] in before
    ensures forall i :: 0 <= i < |discards| ==> discards[i] in before + nodes && discards[i].objectNumber !in recent
  {
    forall i | 0 <= i < |discards| ensures discards[i] in before + nodes && discards[i].objectNumber !in recent {
      var k :| 0 <= k < |before| && before[k] == discards[i];
      assert (before + nodes)[k] == discards[i];
    }
  }

  /** Numbers never used before, all different. */
  ghost predicate Unused(nonces: seq<nat>, used: set<nat>) {
    && (forall i :: 0 <= i < |nonces| ==> nonces[i] !in used)
    && (forall i, j :: 0 <= i < j < |nonces| ==> nonces[i] != nonces[j])
  }

  /** The first `k` of the nodes to discard are gone, the others still live. */
  ghost predicate PrunedOf(before: seq<Node>, discards: seq<Node>, k: nat, now: seq<Node>)
    requires k <= |discards|
  {
    && multiset(now) == multiset(before) - multiset(discards[..k])
    && forall i :: k <= i < |discards| ==> discards[i] in now
  }

  lemma PrunedNext(before: seq<Node>, discards: seq<Node>, k: nat, was: seq<Node>, j: nat)
    requires Distinct(discards) && k < |discards| && PrunedOf(before, discards, k, was)
    requires j < |was| && was[j] == discards[k]
    ensures PrunedOf(before, discards, k + 1, was[..j] + was[j + 1..])
  {
    var now := was[..j] + was[j + 1..];
    RemovedOne(was, j);
    assert discards[..k + 1] == discards[..k] + [discards[k]];
    forall i | k + 1 <= i < |discards| ensures discards[i] in now {
      assert discards[i] in multiset(was) && discards[i] != was[j];
      assert discards[i] in multiset(now);
    }
  }

  lemma RemovedOne(live: seq<Node>, j: nat)
    requires j < |live|
    ensures multiset(live[..j] + live[j + 1..]) == multiset(live) - multiset{live[j]}
  {
    assert live == live[..j] + [live[j]] + live[j + 1..];
  }

  lemma EmptyUnused(live: seq<Node>, combined: Layout, deleted: set<nat>)
    requires Disjoint(live)
    requires forall o :: Recorded(combined, o) == TotalIn(live, o)
    requires deleted == set o | o in combined.Keys && combined[o] == 0
    ensures deleted == set o | o in combined.Keys && !Holds(live, o)
  {
    forall o | o in combined.Keys ensures combined[o] == 0 <==> !Holds(live, o) {
      assert Recorded(combined, o) == TotalIn(live, o);
      UnusedIffHoldsNone(live, o);
    }
  }
}
