/** The sparse Merkle tree over its node store: `update`, deletion, `get` and proof generation as the
    source runs them, proved against module `SmtSpec`. */
module SparseMerkle {
  import opened Common
  import opened SmtHash
  import opened SmtSpec

  datatype Error = KeyAlreadyEmpty | StorageError | StorageErrorKeyNotFound | NonMembershipPathError | BadProof

  /** What `side_nodes_for_root` returns, both lists from the bottom up. */
  datatype SideNodes<V> = SideNodes(sides: seq<Hash<V>>, pathNodes: seq<Hash<V>>, leafData: Data<V>, siblingData: Option<Data<V>>)

  /** The two parts that `parse_leaf` cuts out of the bytes of a leaf. */
  datatype ParsedLeaf<V> = ParsedLeaf(path: Path, valueHash: Hash<V>)

  datatype Proof<V> = Proof(sideNodes: seq<Hash<V>>, nonMembershipLeaf: Option<ParsedLeaf<V>>, siblingData: Option<Data<V>>)

  datatype CopyStrategy = Partial | FullCopy | NoCopy

  /** An update of one key; `None` stands for the empty byte string, which deletes the key. */
  datatype Op<V> = Op(path: Path, value: Option<V>)

  /** A tree as it is cloned and stored. */
  datatype Tree<V(==)> = Tree(depth: nat, nodes: map<Hash<V>, Data<V>>, values: map<Path, V>, root: Hash<V>, parent: Hash<V>) {

    /** The store holds exactly the nodes below the root, and `values` holds some of the entries that
        the root commits to. */
    ghost predicate Valid() {
      && Minimal(root, [], depth)
      && nodes == StoreOf(Subs(root))
      && forall p :: p in values ==> p in Content(root) && values[p] == Content(root)[p]
    }

    /** `values` holds all of them. */
    ghost predicate Full() {
      Valid() && values == Content(root)
    }
  }

  /** `s` describes the path of `path` in the tree `root`: its end, its inner nodes and its sides. */
  ghost predicate Describes<V>(s: SideNodes<V>, path: Path, root: Hash<V>) {
    && |s.sides| <= |path|
    && |s.pathNodes| == |s.sides| + 1
    && !s.pathNodes[0].Node?
    && s.leafData == DataOf(s.pathNodes[0])
    && root == Climb(path, 0, Reversed(s.sides), s.pathNodes[0])
    && Reversed(s.pathNodes[1..]) == ClimbSeq(path, 0, Reversed(s.sides), s.pathNodes[0])
  }

  /** `count_common_prefix` */
  method CountCommonPrefix(lhs: Path, rhs: Path) returns (count: nat)
    requires |lhs| == |rhs|
    ensures count == CommonPrefix(lhs, rhs)
  {
    count := 0;
    for i := 0 to |lhs|
      invariant count == i && lhs[..i] == rhs[..i]
    {
      if lhs[i] == rhs[i] {
        count := count + 1;
      } else {
        break;
      }
    }
    PrefixIsCommon(lhs, rhs, count);
  }

  lemma PrefixIsCommon(p: Path, q: Path, n: nat)
    requires |p| == |q| && n <= |p| && p[..n] == q[..n] && (n < |p| ==> p[n] != q[n])
    ensures n == CommonPrefix(p, q)
  {
    var m := CommonPrefix(p, q);
    assert forall k :: 0 <= k < m ==> p[k] == p[..m][k] == q[..m][k];
    assert forall k :: 0 <= k < n ==> p[k] == p[..n][k] == q[..n][k];
  }

  /** The walk has passed `sides` and `pathNodes`, both from the top down. */
  ghost predicate Walked<V>(root: Hash<V>, path: Path, sides: seq<Hash<V>>, pathNodes: seq<Hash<V>>) {
    && |sides| <= |path| && |pathNodes| == |sides| + 1
    && root == Climb(path, 0, sides, pathNodes[|sides|])
    && pathNodes[..|sides|] == ClimbSeq(path, 0, sides, pathNodes[|sides|])
  }

  lemma WalkShape<V>(root: Hash<V>, path: Path, sides: seq<Hash<V>>, pathNodes: seq<Hash<V>>, side: Hash<V>, next: Hash<V>)
    requires Walked(root, path, sides, pathNodes) && |sides| < |path| && pathNodes[|sides|] == Join(path[|sides|], next, side)
    ensures Walked(root, path, sides + [side], pathNodes + [next])
  {
    hide Join, Climb, ClimbSeq;
    ClimbSnoc(path, 0, sides, side, next);
    assert (pathNodes + [next])[..|sides| + 1] == pathNodes[..|sides|] + [pathNodes[|sides|]];
  }

  lemma WalkStored<V>(root: Hash<V>, path: Path, sides: seq<Hash<V>>, current: Hash<V>)
    requires Minimal(root, [], |path|) && |sides| <= |path| && root == Climb(path, 0, sides, current) && current.Node?
    ensures |sides| < |path| && Minimal(current, path[..|sides|], |path|)
    ensures Subs(current.left) + Subs(current.right) <= Subs(root)
  {
    assert path[..0] == [];
    EndMinimal(path, 0, sides, current, |path|);
    ClimbSubs(path, 0, sides, current);
  }

  lemma ChildStored<V>(current: Hash<V>, prefix: Path, depth: nat)
    requires current.Node? && Minimal(current, prefix, depth)
    ensures current.left.Zero? || ((current.left.Leaf? || current.left.Node?) && current.left in Subs(current.left))
    ensures current.right.Zero? || ((current.right.Leaf? || current.right.Node?) && current.right in Subs(current.right))
    ensures !current.left.Node? ==> current.right in Subs(current.right)
    ensures !current.right.Node? ==> current.left in Subs(current.left)
  {
    MinimalIsStored(current.left, prefix + [false], depth);
    MinimalIsStored(current.right, prefix + [true], depth);
  }

  /** One step of the walk, from an inner node to its child on the path. */
  lemma WalkStep<V>(root: Hash<V>, path: Path, sides: seq<Hash<V>>, pathNodes: seq<Hash<V>>)
    requires Minimal(root, [], |path|) && Walked(root, path, sides, pathNodes)
    requires pathNodes[|sides|].Node?
    ensures |sides| < |path|
    ensures var bit, current := path[|sides|], pathNodes[|sides|];
      var side, next := if bit then current.left else current.right, if bit then current.right else current.left;
      && Walked(root, path, sides + [side], pathNodes + [next])
      && (next.Zero? || ((next.Leaf? || next.Node?) && next in Subs(root)))
      && (!next.Node? ==> side in Subs(root))
  {
    var current := pathNodes[|sides|];
    WalkStored(root, path, sides, current);
    hide Minimal, Subs, Walked;
    ChildStored(current, path[..|sides|], |path|);
    if path[|sides|] {
      WalkShape(root, path, sides, pathNodes, current.left, current.right);
    } else {
      WalkShape(root, path, sides, pathNodes, current.right, current.left);
    }
  }

  lemma WalkEnd<V>(root: Hash<V>, path: Path, sides: seq<Hash<V>>, pathNodes: seq<Hash<V>>, sibling: Option<Data<V>>)
    requires Walked(root, path, sides, pathNodes) && !pathNodes[|sides|].Node?
    ensures Describes(SideNodes(Reversed(sides), Reversed(pathNodes), DataOf(pathNodes[|sides|]), sibling), path, root)
  {
    assert Reversed(Reversed(sides)) == sides;
    assert Reversed(Reversed(pathNodes)[1..]) == pathNodes[..|sides|];
  }

  // ---------------------------------------------------------------- node sets along an update

  /** A walk splits the stored set into the end of the path, what lies beside it and its inner
      nodes, and only the end can hold the key. */
  lemma PathSets<V>(path: Path, sides: seq<Hash<V>>, t: Hash<V>, root: Hash<V>, inner: set<Hash<V>>)
    requires |sides| <= |path| && root == Climb(path, 0, sides, t) && inner == ToSet(ClimbSeq(path, 0, sides, t))
    requires Minimal(root, [], |path|)
    ensures Subs(root) == Subs(t) + SideSubs(sides) + inner
    ensures inner !! Subs(t) + SideSubs(sides)
    ensures Subs(t) !! SideSubs(sides)
  {
    assert path[..0] == [];
    ClimbSubs(path, 0, sides, t);
    ClimbApart(path, 0, sides, t, |path|);
    EndApart(path, 0, sides, t, |path|);
  }

  lemma InnerNodes<V>(path: Path, sides: seq<Hash<V>>, t: Hash<V>, root: Hash<V>, x: Hash<V>)
    requires |sides| <= |path| && root == Climb(path, 0, sides, t)
    requires Minimal(root, [], |path|) && x in ClimbSeq(path, 0, sides, t)
    ensures x.Node? && (path in Content(x) ==> path in Content(t))
  {
    assert path[..0] == [];
    ClimbSizes(path, 0, sides, t);
    ClimbSubs(path, 0, sides, t);
    ClimbMinimal(path, 0, sides, t, |path|);
    SubsBelow(root, x, [], |path|);
  }

  lemma ReversedSet<T>(s: seq<T>)
    ensures ToSet(Reversed(s)) == ToSet(s)
  {
    var r := Reversed(s);
    forall x | x in s ensures x in r {
      var i :| 0 <= i < |s| && s[i] == x;
      assert r[|s| - 1 - i] == x;
    }
  }

  lemma PathNodesDistinct<V>(s: SideNodes<V>, path: Path, root: Hash<V>)
    requires Describes(s, path, root)
    ensures forall i, j :: 1 <= i < j < |s.pathNodes| ==> s.pathNodes[i] != s.pathNodes[j]
    ensures forall i :: 1 <= i < |s.pathNodes| ==> s.pathNodes[0] != s.pathNodes[i]
  {
    hide Climb, ClimbSeq, Size;
    var sides, t := Reversed(s.sides), s.pathNodes[0];
    ClimbSizes(path, 0, sides, t);
    MirrorDistinct(s.pathNodes, ClimbSeq(path, 0, sides, t));
  }

  lemma MirrorDistinct<V>(nodes: seq<Hash<V>>, down: seq<Hash<V>>)
    requires nodes != [] && Reversed(nodes[1..]) == down
    requires forall i :: 0 <= i < |down| ==> Size(nodes[0]) < Size(down[i])
    requires forall i, j :: 0 <= i < j < |down| ==> Size(down[j]) < Size(down[i])
    ensures forall i, j :: 1 <= i < j < |nodes| ==> nodes[i] != nodes[j]
    ensures forall i :: 1 <= i < |nodes| ==> nodes[0] != nodes[i]
  {
    hide Size;
    var n := |down|;
    forall i | 1 <= i < |nodes| ensures nodes[i] == down[n - i] {
      assert Reversed(nodes[1..])[n - i] == nodes[1..][i - 1];
    }
  }

  /** The subtree that replaces the end `t` of the path. */
  ghost function NewEnd<V>(path: Path, v: V, t: Hash<V>): Hash<V>
    requires t.Leaf? ==> |t.path| == |path|
  {
    var leaf := Leaf(path, Digest(v));
    if t.Leaf? && t.path != path then Join(path[CommonPrefix(path, t.path)], leaf, t) else leaf
  }

  /** The sides of the new path: those of the walk and placeholders down to the common prefix. */
  ghost function NewSides<V>(path: Path, sides: seq<Hash<V>>, t: Hash<V>): seq<Hash<V>>
    requires t.Leaf? ==> |t.path| == |path|
  {
    if t.Leaf? && t.path != path && |sides| <= CommonPrefix(path, t.path)
    then sides + Zeros(CommonPrefix(path, t.path) - |sides|) else sides
  }

  lemma PrefixesCommon(p: Path, q: Path, n: nat)
    requires |p| == |q| && n <= |p| && p[..n] <= q
    ensures n <= CommonPrefix(p, q)
  {
    var m := CommonPrefix(p, q);
    assert forall k :: 0 <= k < n ==> p[k] == p[..n][k] == q[k];
  }

  lemma InsertIsClimb<V>(path: Path, v: V, s: SideNodes<V>, root: Hash<V>)
    requires Minimal(root, [], |path|) && Describes(s, path, root)
    ensures var t, sides := s.pathNodes[0], Reversed(s.sides);
      && (t.Zero? || (t.Leaf? && t.valueHash.Digest? && |t.path| == |path| && |sides| <= CommonPrefix(path, t.path)))
      && |NewSides(path, sides, t)| <= |path|
      && path[..0] == []
      && Insert(root, 0, path, v) == Climb(path, 0, NewSides(path, sides, t), NewEnd(path, v, t))
  {
    var t, sides := s.pathNodes[0], Reversed(s.sides);
    assert path[..0] == [];
    ClimbMinimal(path, 0, sides, t, |path|);
    InsertAtEnd(path, 0, sides, t, v);
    if t.Leaf? {
      PrefixesCommon(path, t.path, |sides|);
      if t.path != path {
        var n := CommonPrefix(path, t.path);
        SplitIsClimb(Leaf(path, Digest(v)), t, |sides|);
        ClimbConcat(path, 0, sides, Zeros(n - |sides|), NewEnd(path, v, t));
      }
    }
  }

  lemma NewSidesShape<V>(path: Path, up: seq<Hash<V>>, t: Hash<V>)
    requires t.Leaf? ==> |t.path| == |path| && |up| <= CommonPrefix(path, t.path)
    ensures var full, commonPrefix := NewSides(path, Reversed(up), t), if t.Leaf? then CommonPrefix(path, t.path) else |path|;
      && |full| == (if commonPrefix == |path| || commonPrefix < |up| then |up| else commonPrefix)
      && forall i :: 0 <= i < |full| ==> full[i] == if i < |up| then up[|up| - 1 - i] else Zero
  {
  }

  lemma {:induction false} ZerosStoreNothing<V>(sides: seq<Hash<V>>, n: nat)
    ensures SideSubs(sides + Zeros<V>(n)) == SideSubs(sides)
    decreases n
  {
    if n == 0 {
      assert sides + Zeros<V>(n) == sides;
    } else {
      ZerosStoreNothing(sides, n - 1);
      assert sides + Zeros<V>(n) == sides + Zeros<V>(n - 1) + [Zero];
      SideSubsSnoc(sides + Zeros<V>(n - 1), Zero);
    }
  }

  /** After the old path has been removed and the new end stored, the store holds the sides and the
      new end: the three cases of an update. */
  lemma StoreAtEmptySlot<V>(path: Path, v: V, sides: seq<Hash<V>>, root: Hash<V>, inner: set<Hash<V>>)
    requires |sides| <= |path| && root == Climb(path, 0, sides, Zero) && inner == ToSet(ClimbSeq(path, 0, sides, Zero))
    requires Minimal(root, [], |path|)
    ensures Subs(root) + {Leaf(path, Digest(v))} - inner == SideSubs(sides) + Subs(Leaf(path, Digest(v)))
  {
    PathSets(path, sides, Zero, root, inner);
    forall x | x in inner ensures x.Node? { InnerNodes(path, sides, Zero, root, x); }
  }

  lemma StoreAtSameKey<V>(path: Path, v: V, sides: seq<Hash<V>>, t: Hash<V>, root: Hash<V>, inner: set<Hash<V>>)
    requires |sides| <= |path| && root == Climb(path, 0, sides, t) && inner == ToSet(ClimbSeq(path, 0, sides, t))
    requires Minimal(root, [], |path|) && t.Leaf? && t != Leaf(path, Digest(v))
    ensures Subs(root) + {Leaf(path, Digest(v))} - {t} - inner == SideSubs(sides) + Subs(Leaf(path, Digest(v)))
  {
    PathSets(path, sides, t, root, inner);
    forall x | x in inner ensures x.Node? { InnerNodes(path, sides, t, root, x); }
  }

  lemma StoreAtOtherKey<V>(path: Path, v: V, sides: seq<Hash<V>>, t: Hash<V>, root: Hash<V>, inner: set<Hash<V>>)
    requires |sides| <= |path| && root == Climb(path, 0, sides, t) && inner == ToSet(ClimbSeq(path, 0, sides, t))
    requires Minimal(root, [], |path|) && t.Leaf? && t.path != path && |t.path| == |path|
    requires |sides| <= CommonPrefix(path, t.path)
    ensures Subs(root) + {Leaf(path, Digest(v))} + {NewEnd(path, v, t)} - inner
         == SideSubs(NewSides(path, sides, t)) + Subs(NewEnd(path, v, t))
  {
    var end := NewEnd(path, v, t);
    PathSets(path, sides, t, root, inner);
    forall x | x in inner ensures x.Node? && x != end {
      InnerNodes(path, sides, t, root, x);
      assert path in Content(end);
    }
    ZerosStoreNothing(sides, CommonPrefix(path, t.path) - |sides|);
    assert Subs(end) == {end, t, Leaf(path, Digest(v))};
  }

  /** One level of the rebuilding loop of an insertion. */
  lemma RebuildStep<V>(path: Path, sides: seq<Hash<V>>, k: nat, current: Hash<V>)
    requires k < |sides| <= |path|
    ensures var above := Join(path[k], current, sides[k]);
      && Climb(path, 0, sides[..k + 1], current) == Climb(path, 0, sides[..k], above)
      && SideSubs(sides[..k + 1]) + Subs(current) + {above} == SideSubs(sides[..k]) + Subs(above)
  {
    assert sides[..k + 1] == sides[..k] + [sides[k]];
    ClimbSnoc(path, 0, sides[..k], sides[k], current);
    SideSubsSnoc(sides[..k], sides[k]);
  }

  // ---------------------------------------------------------------- the node store during an update

  /** Removes each of `list` from the store and stops at the first one that is missing. */
  method DeleteNodes<V(==)>(nodes: map<Hash<V>, Data<V>>, list: seq<Hash<V>>) returns (r: Result<map<Hash<V>, Data<V>>, Error>)
    requires forall i, j :: 0 <= i < j < |list| ==> list[i] != list[j]
    ensures r.Ok? <==> ToSet(list) <= nodes.Keys
    ensures r.Ok? ==> r.value == nodes - ToSet(list)
  {
    var rest := nodes;
    for i := 0 to |list|
      invariant ToSet(list[..i]) <= nodes.Keys
      invariant rest == nodes - ToSet(list[..i])
    {
      assert list[i] !in list[..i];
      if list[i] !in rest {
        assert list[i] in ToSet(list);
        return Err(StorageError);
      }
      assert ToSet(list[..i + 1]) == ToSet(list[..i]) + {list[i]};
      rest := rest - {list[i]};
    }
    assert list[..|list|] == list;
    return Ok(rest);
  }

  /** The state between the two halves of `update_with_sides_nodes`; `done` when the leaf already
      holds the value. */
  datatype Placed<V(==)> = Placed(nodes: map<Hash<V>, Data<V>>, end: Hash<V>, commonPrefix: nat, done: bool)

  /** First half of `update_with_sides_nodes`: stores the new leaf, joins it with another leaf that
      stood in its place, and removes the old path. */
  method PlaceLeaf<V(==)>(nodes: map<Hash<V>, Data<V>>, path: Path, v: V, s: SideNodes<V>, ghost root: Hash<V>)
    returns (r: Result<Placed<V>, Error>)
    requires Minimal(root, [], |path|) && nodes == StoreOf(Subs(root)) && Describes(s, path, root)
    ensures s.pathNodes[0].Leaf? ==> |s.pathNodes[0].path| == |path|
    ensures r.Ok? && (r.value.done <==> s.pathNodes[0] == Leaf(path, Digest(v)))
    ensures r.value.done ==> r.value.nodes == nodes
    ensures var t, sides := s.pathNodes[0], Reversed(s.sides);
      !r.value.done ==>
      && r.value.end == NewEnd(path, v, t)
      && r.value.commonPrefix == (if t.Leaf? then CommonPrefix(path, t.path) else |path|)
      && r.value.nodes == StoreOf(SideSubs(NewSides(path, sides, t)) + Subs(NewEnd(path, v, t)))
  {
    ghost var sides, inner := Reversed(s.sides), ToSet(s.pathNodes[1..]);
    var t := s.pathNodes[0];
    InsertIsClimb(path, v, s, root);
    ReversedSet(s.pathNodes[1..]);
    PathNodesDistinct(s, path, root);
    PathSets(path, sides, t, root, inner);

    var current := Leaf(path, Digest(v));
    ghost var stored := Subs(root) + {current};
    StorePut(Subs(root), current);
    var store := nodes[current := DataOf(current)];
    var commonPrefix := |path|;
    if !t.Zero? {
      commonPrefix := CountCommonPrefix(path, s.leafData.path);
    }
    if commonPrefix != |path| {
      StoreAtOtherKey(path, v, sides, t, root, inner);
      current := Join(path[commonPrefix], current, t);
      StorePut(stored, current);
      stored := stored + {current};
      store := store[current := DataOf(current)];
    } else if !t.Zero? {
      if s.leafData.valueHash == Digest(v) {
        assert stored == Subs(root);
        return Ok(Placed(store, current, commonPrefix, true));
      }
      StoreAtSameKey(path, v, sides, t, root, inner);
      if t !in store {
        return Err(StorageError);
      }
      StoreDelete(stored, {t});
      stored := stored - {t};
      store := store - {t};
    } else {
      StoreAtEmptySlot(path, v, sides, root, inner);
    }
    StoreDelete(stored, inner);
    var deleted := DeleteNodes(store, s.pathNodes[1..]);
    if deleted.Err? {
      return Err(StorageError);
    }
    return Ok(Placed(deleted.value, current, commonPrefix, false));
  }

  /** Second half of `update_with_sides_nodes`: rebuilds the path from `end` to the root.  `full` is
      the list of sides from the top down, with placeholders above `commonPrefix`. */
  method Rebuild<V(==)>(nodes: map<Hash<V>, Data<V>>, path: Path, sides: seq<Hash<V>>, end: Hash<V>, commonPrefix: nat,
                        ghost full: seq<Hash<V>>)
    returns (store: map<Hash<V>, Data<V>>, current: Hash<V>)
    requires |sides| <= |full| <= |path| && commonPrefix <= |path|
    requires |full| == if commonPrefix == |path| || commonPrefix < |sides| then |sides| else commonPrefix
    requires forall i :: 0 <= i < |full| ==> full[i] == if i < |sides| then sides[|sides| - 1 - i] else Zero
    requires nodes == StoreOf(SideSubs(full) + Subs(end))
    ensures current == Climb(path, 0, full, end)
    ensures store == StoreOf(Subs(current))
  {
    store, current := nodes, end;
    assert full[..|full|] == full;
    for i := 0 to |path|
      invariant var k := if |path| - i < |full| then |path| - i else |full|;
        && store == StoreOf(SideSubs(full[..k]) + Subs(current))
        && Climb(path, 0, full, end) == Climb(path, 0, full[..k], current)
    {
      var level := |path| - 1 - i;
      var side;
      if level >= |sides| {
        if commonPrefix != |path| && commonPrefix > level {
          side := Zero;
        } else {
          continue;
        }
      } else {
        side := sides[|sides| - 1 - level];
      }
      RebuildStep(path, full, level, current);
      StorePut(SideSubs(full[..level + 1]) + Subs(current), Join(path[level], current, side));
      current := Join(path[level], current, side);
      store := store[current := DataOf(current)];
    }
  }

  lemma EndHoldsKey<V>(path: Path, s: SideNodes<V>, root: Hash<V>)
    requires Minimal(root, [], |path|) && Describes(s, path, root)
    ensures var t := s.pathNodes[0];
      && (path in Content(root) <==> t.Leaf? && t.path == path)
      && (path in Content(root) ==> t.valueHash == Digest(Content(root)[path]))
  {
    assert path[..0] == [];
    ClimbMinimal(path, 0, Reversed(s.sides), s.pathNodes[0], |path|);
  }

  /** What `update_with_sides_nodes` and `delete_with_sides_nodes` leave behind in the node store, and
      the new root. */
  datatype Updated<V(==)> = Updated(nodes: map<Hash<V>, Data<V>>, root: Hash<V>)

  lemma SameLeafStays<V>(path: Path, v: V, s: SideNodes<V>, root: Hash<V>)
    requires Minimal(root, [], |path|) && Describes(s, path, root)
    ensures s.pathNodes != [] && |s.sides| <= |path|
    ensures path[..0] == [] && (s.pathNodes[0] == Leaf(path, Digest(v)) ==> Insert(root, 0, path, v) == root)
  {
    hide Insert, Minimal;
    InsertIsClimb(path, v, s, root);
  }

  /** `update_with_sides_nodes`, except for the value store. */
  method UpdateWithSideNodes<V(==)>(nodes: map<Hash<V>, Data<V>>, root: Hash<V>, path: Path, v: V, s: SideNodes<V>)
    returns (r: Result<Updated<V>, Error>)
    requires Minimal(root, [], |path|) && nodes == StoreOf(Subs(root)) && Describes(s, path, root)
    ensures path[..0] == []
    ensures r == Ok(Updated(StoreOf(Subs(Insert(root, 0, path, v))), Insert(root, 0, path, v)))
  {
    hide Insert, Climb, ClimbSeq, Subs, Minimal, SideSubs, StoreOf, NewSides, NewEnd, Describes, CommonPrefix;
    SameLeafStays(path, v, s, root);
    InsertIsClimb(path, v, s, root);
    NewSidesShape(path, s.sides, s.pathNodes[0]);
    var placed := PlaceLeaf(nodes, path, v, s, root);
    if placed.Err? {
      return Err(StorageError);
    }
    if placed.value.done {
      return Ok(Updated(placed.value.nodes, root));
    }
    var store, current := Rebuild(placed.value.nodes, path, s.sides, placed.value.end, placed.value.commonPrefix,
                                  NewSides(path, Reversed(s.sides), s.pathNodes[0]));
    return Ok(Updated(store, current));
  }

  /** One level of the rebuilding loop of a deletion. */
  lemma CollapseStep<V>(path: Path, sides: seq<Hash<V>>, k: nat, current: Hash<V>)
    requires k < |sides| <= |path|
    ensures var above := Collapse(path[k], current, sides[k]);
      && CollapseUp(path, 0, sides[..k + 1], current) == CollapseUp(path, 0, sides[..k], above)
      && SideSubs(sides[..k + 1]) + Subs(current) + (if above.Node? then {above} else {}) == SideSubs(sides[..k]) + Subs(above)
  {
    assert sides[..k + 1] == sides[..k] + [sides[k]];
    CollapseUpSnoc(path, 0, sides[..k], sides[k], current);
    SideSubsSnoc(sides[..k], sides[k]);
  }

  /** The rebuilding loop of `delete_with_sides_nodes`: a lone sibling leaf moves up past
      placeholders, everything else is joined again. */
  method RebuildWithout<V(==)>(nodes: map<Hash<V>, Data<V>>, path: Path, sides: seq<Hash<V>>)
    returns (r: Result<Updated<V>, Error>)
    requires |sides| <= |path| && nodes == StoreOf(SideSubs(Reversed(sides)))
    requires sides != [] ==> sides[0] in nodes
    ensures r.Ok? && r.value.root == CollapseUp(path, 0, Reversed(sides), Zero)
    ensures r.value.nodes == StoreOf(Subs(r.value.root))
  {
    ghost var down := Reversed(sides);
    assert down[..|sides|] == down;
    var store, current, started, nonPlaceholderReached := nodes, Zero, false, false;
    for i := 0 to |sides|
      invariant store == StoreOf(SideSubs(down[..|sides| - i]) + Subs(current))
      invariant CollapseUp(path, 0, down, Zero) == CollapseUp(path, 0, down[..|sides| - i], current)
      invariant started <==> i > 0
      invariant if i == 0 then current == Zero && !nonPlaceholderReached && store == nodes
                else if nonPlaceholderReached then current.Node? else current.Leaf?
    {
      var side, level := sides[i], |sides| - 1 - i;
      CollapseStep(path, down, level, current);
      if !started {
        started := true;
        if side !in store {
          return Err(StorageErrorKeyNotFound);
        }
        if store[side].LeafData? {
          current := side;
          continue;
        } else {
          nonPlaceholderReached := true;
        }
      }
      if !nonPlaceholderReached && side.Zero? {
        continue;
      } else if !nonPlaceholderReached {
        nonPlaceholderReached := true;
      }
      StorePut(SideSubs(down[..level + 1]) + Subs(current), Join(path[level], current, side));
      current := Join(path[level], current, side);
      store := store[current := DataOf(current)];
    }
    return Ok(Updated(store, current));
  }

  /** Removing the whole path leaves what lies beside it. */
  lemma StoreWithoutPath<V>(s: SideNodes<V>, path: Path, root: Hash<V>)
    requires Minimal(root, [], |path|) && Describes(s, path, root) && s.pathNodes[0].Leaf?
    ensures ToSet(s.pathNodes) <= Subs(root)
    ensures StoreOf(Subs(root)) - ToSet(s.pathNodes) == StoreOf(SideSubs(Reversed(s.sides)))
  {
    var down, t, inner := Reversed(s.sides), s.pathNodes[0], ToSet(s.pathNodes[1..]);
    ReversedSet(s.pathNodes[1..]);
    PathSets(path, down, t, root, inner);
    assert ToSet(s.pathNodes) == {t} + inner;
    StoreDelete(Subs(root), {t} + inner);
    assert Subs(root) - ({t} + inner) == SideSubs(down);
  }

  /** `delete_with_sides_nodes` */
  method DeleteWithSideNodes<V(==)>(nodes: map<Hash<V>, Data<V>>, root: Hash<V>, path: Path, s: SideNodes<V>)
    returns (r: Result<Updated<V>, Error>)
    requires Minimal(root, [], |path|) && nodes == StoreOf(Subs(root)) && Describes(s, path, root)
    ensures path[..0] == []
    ensures path !in Content(root) ==> r == Err(KeyAlreadyEmpty)
    ensures path in Content(root) ==> r == Ok(Updated(StoreOf(Subs(Delete(root, 0, path))), Delete(root, 0, path)))
  {
    ghost var down, t := Reversed(s.sides), s.pathNodes[0];
    assert path[..0] == [];
    EndHoldsKey(path, s, root);
    if s.pathNodes[0].Zero? {
      return Err(KeyAlreadyEmpty);
    }
    ClimbMinimal(path, 0, down, t, |path|);
    if s.leafData.path != path {
      return Err(KeyAlreadyEmpty);
    }
    PathNodesDistinct(s, path, root);
    StoreWithoutPath(s, path, root);
    var deleted := DeleteNodes(nodes, s.pathNodes);
    if deleted.Err? {
      return Err(StorageError);
    }
    if s.sides != [] {
      LastSideStored(path, 0, down, t);
      assert down[|down| - 1] == s.sides[0];
    }
    DeleteAtEnd(path, 0, down, t);
    r := RebuildWithout(deleted.value, path, s.sides);
  }

  // ---------------------------------------------------------------- runs of updates

  /** The tree after one update. */
  ghost function Next<V>(t: Tree<V>, op: Op<V>): Tree<V>
    requires t.Valid() && |op.path| == t.depth
  {
    assert op.path[..0] == [];
    match op.value
    case Some(v) =>
      var root := Insert(t.root, 0, op.path, v);
      var same := op.path in Content(t.root) && Content(t.root)[op.path] == v;
      t.(nodes := StoreOf(Subs(root)), root := root, values := if same then t.values else t.values[op.path := v])
    case None =>
      if op.path !in t.values then t
      else
        var root := Delete(t.root, 0, op.path);
        t.(nodes := StoreOf(Subs(root)), root := root, values := t.values - {op.path})
  }

  ghost function ApplyOp<V>(m: map<Path, V>, op: Op<V>): map<Path, V> {
    match op.value
    case Some(v) => m[op.path := v]
    case None => m - {op.path}
  }

  /** An update keeps the tree valid, and changes the map it commits to in one place. */
  lemma NextIsValid<V>(t: Tree<V>, op: Op<V>)
    requires t.Valid() && |op.path| == t.depth
    ensures Next(t, op).Valid()
    ensures op.value.Some? || op.path in t.values ==> Content(Next(t, op).root) == ApplyOp(Content(t.root), op)
    ensures t.Full() ==> Next(t, op).Full() && Next(t, op).values == ApplyOp(t.values, op)
  {
    assert op.path[..0] == [];
    match op.value
    case Some(v) =>
      InsertMinimal(t.root, 0, op.path, v);
      InsertContent(t.root, 0, op.path, v);
    case None =>
      DeleteMinimal(t.root, 0, op.path);
      DeleteContent(t.root, 0, op.path);
  }

  ghost predicate OpsFit<V>(ops: seq<Op<V>>, depth: nat) {
    forall i :: 0 <= i < |ops| ==> |ops[i].path| == depth
  }

  /** The map that a history of updates leaves. */
  ghost function MapAfter<V>(ops: seq<Op<V>>): map<Path, V> {
    if ops == [] then map[] else ApplyOp(MapAfter(ops[..|ops| - 1]), ops[|ops| - 1])
  }

  /** The tree that it leaves, starting from the empty one. */
  ghost function TreeAfter<V>(ops: seq<Op<V>>, depth: nat): (t: Tree<V>)
    requires OpsFit(ops, depth)
    ensures t.Full() && t.depth == depth && t.values == MapAfter(ops)
  {
    if ops == [] then
      var t := Tree(depth, map[], map[], Zero, Zero);
      assert t.nodes == StoreOf(Subs(t.root));
      t
    else
      var t, op := TreeAfter(ops[..|ops| - 1], depth), ops[|ops| - 1];
      NextIsValid(t, op);
      Next(t, op)
  }

  /** The root and the stores depend on the resulting map only: the root is its canonical root, and
      histories that leave the same map leave the same tree. */
  lemma HistoryIndependence<V>(ops: seq<Op<V>>, others: seq<Op<V>>, depth: nat)
    requires OpsFit(ops, depth) && OpsFit(others, depth)
    ensures TreeAfter(ops, depth).root == CanonicalRoot(MapAfter(ops), 0, depth)
    ensures TreeAfter(ops, depth).root == TreeAfter(others, depth).root <==> MapAfter(ops) == MapAfter(others)
    ensures MapAfter(ops) == MapAfter(others) ==> TreeAfter(ops, depth) == TreeAfter(others, depth)
  {
    var s, t := TreeAfter(ops, depth), TreeAfter(others, depth);
    MinimalIsCanonical(s.root, [], depth);
    RootsAndMaps(s.root, t.root, depth);
    ParentUntouched(ops, depth);
    ParentUntouched(others, depth);
  }

  lemma {:induction false} ParentUntouched<V>(ops: seq<Op<V>>, depth: nat)
    requires OpsFit(ops, depth)
    ensures TreeAfter(ops, depth).parent == Zero
  {
    if ops != [] {
      ParentUntouched(ops[..|ops| - 1], depth);
    }
  }

  // ---------------------------------------------------------------- proofs

  /** The hash at the end of the path that a proof claims, `None` when the proof contradicts itself. */
  ghost function ProofEnd<V>(proof: Proof<V>, path: Path, value: Option<V>): Option<Hash<V>> {
    match value
    case Some(v) => Some(Leaf(path, Digest(v)))
    case None =>
      match proof.nonMembershipLeaf
      case None => Some(Zero)
      case Some(leaf) => if leaf.path == path then None else Some(Leaf(leaf.path, leaf.valueHash))
  }

  /** The root that a proof leads to. */
  ghost function ProofRoot<V>(proof: Proof<V>, path: Path, value: Option<V>): Option<Hash<V>>
    requires |proof.sideNodes| <= |path|
  {
    match ProofEnd(proof, path, value)
    case None => None
    case Some(end) => Some(Climb(path, 0, Reversed(proof.sideNodes), end))
  }

  /** Soundness: whatever its side nodes, a proof that leads to the root of a valid tree for a value
      forces the map to hold that value, and one for the empty value forces it to lack the key. */
  lemma ProofSound<V>(proof: Proof<V>, path: Path, value: Option<V>, root: Hash<V>)
    requires |proof.sideNodes| <= |path| && Minimal(root, [], |path|)
    requires ProofRoot(proof, path, value) == Some(root)
    ensures value == if path in Content(root) then Some(Content(root)[path]) else None
  {
    assert path[..0] == [];
    ClimbMinimal(path, 0, Reversed(proof.sideNodes), ProofEnd(proof, path, value).value, |path|);
  }

  /** Every entry that a verified proof adds to a node store is already in the store of the tree. */
  ghost predicate Stored<V>(updates: seq<(Hash<V>, Data<V>)>, s: set<Hash<V>>) {
    forall i :: 0 <= i < |updates| ==> updates[i].0 in s && updates[i].1 == DataOf(updates[i].0)
  }

  /** The sibling data of a proof is the preimage of its first side node, a node of the tree. */
  ghost predicate GoodSibling<V>(proof: Proof<V>, root: Hash<V>) {
    proof.siblingData.Some? && proof.sideNodes != [] ==>
      proof.sideNodes[0] in Subs(root) && proof.siblingData.value == DataOf(proof.sideNodes[0])
  }

  /** The nodes that a proof shows, from the claimed end of its path up to the root. */
  ghost function ProofNodes<V>(proof: Proof<V>, path: Path, end: Hash<V>): seq<Hash<V>>
    requires |proof.sideNodes| <= |path|
  {
    (if end.Zero? then [] else [end]) + Reversed(ClimbSeq(path, 0, Reversed(proof.sideNodes), end))
  }

  /** Nodes with their preimages. */
  ghost function WithData<V>(nodes: seq<Hash<V>>): seq<(Hash<V>, Data<V>)> {
    seq(|nodes|, i requires 0 <= i < |nodes| => (nodes[i], DataOf(nodes[i])))
  }

  lemma ProofNodesStored<V>(proof: Proof<V>, path: Path, end: Hash<V>)
    requires |proof.sideNodes| <= |path| && (end.Zero? || end.Leaf?)
    ensures Stored(WithData(ProofNodes(proof, path, end)), Subs(Climb(path, 0, Reversed(proof.sideNodes), end)))
  {
    hide Climb, ClimbSeq;
    ClimbSubs(path, 0, Reversed(proof.sideNodes), end);
    var up := Reversed(ClimbSeq(path, 0, Reversed(proof.sideNodes), end));
    forall i | 0 <= i < |up| ensures up[i] in ClimbSeq(path, 0, Reversed(proof.sideNodes), end) {
    }
  }

  /** One more node of the path. */
  lemma ClimbUp<V>(path: Path, down: seq<Hash<V>>, k: nat, current: Hash<V>, above: Hash<V>, done: seq<Hash<V>>)
    requires k < |down| <= |path| && above == Join(path[k], current, down[k])
    ensures Climb(path, 0, down[..k + 1], current) == Climb(path, 0, down[..k], above)
    ensures ClimbSeq(path, 0, down[..k + 1], current) + Reversed(done)
      == ClimbSeq(path, 0, down[..k], above) + Reversed(done + [above])
  {
    hide Climb, ClimbSeq, Join;
    assert down[..k + 1] == down[..k] + [down[k]];
    ClimbSnoc(path, 0, down[..k], down[k], current);
    assert Reversed(done + [above]) == [above] + Reversed(done);
  }

  lemma ClimbedAll<V>(path: Path, down: seq<Hash<V>>, current: Hash<V>, done: seq<Hash<V>>)
    requires |down| <= |path|
    ensures Climb(path, 0, down[..0], current) == current
    ensures Reversed(ClimbSeq(path, 0, down[..0], current) + Reversed(done)) == done
  {
  }

  /** `verify_proof_with_updates`: accepts exactly the proofs that lead to `root`, and then returns every
      node of the path they show, once each and from the bottom up. */
  method VerifyProofWithUpdates<V(==)>(proof: Proof<V>, root: Hash<V>, path: Path, value: Option<V>)
    returns (r: Result<seq<(Hash<V>, Data<V>)>, Error>)
    requires |proof.sideNodes| <= |path|
    ensures r.Ok? <==> ProofRoot(proof, path, value) == Some(root)
    ensures r.Ok? ==> r.value == WithData(ProofNodes(proof, path, ProofEnd(proof, path, value).value))
    ensures r.Ok? ==> Stored(r.value, Subs(root))
    ensures r.Err? ==> r.error == if ProofEnd(proof, path, value).None? then NonMembershipPathError else BadProof
  {
    hide Climb, ClimbSeq, Join, Stored, Subs;
    var updates := [];
    var current := Zero;
    if value.None? {
      if proof.nonMembershipLeaf.Some? {
        var leaf := proof.nonMembershipLeaf.value;
        if leaf.path == path {
          return Err(NonMembershipPathError);
        }
        current := Leaf(leaf.path, leaf.valueHash);
        updates := [(current, DataOf(current))];
      }
    } else {
      current := Leaf(path, Digest(value.value));
      updates := [(current, DataOf(current))];
    }
    ghost var down, end, done := Reversed(proof.sideNodes), current, [];
    ghost var first := if end.Zero? then [] else [end];
    assert down[..|down|] == down && Reversed<Hash<V>>([]) == [] && first + [] == first;
    for i := 0 to |proof.sideNodes|
      invariant Climb(path, 0, down[..|down| - i], current) == Climb(path, 0, down, end)
      invariant ClimbSeq(path, 0, down[..|down| - i], current) + Reversed(done) == ClimbSeq(path, 0, down, end)
      invariant updates == WithData(first + done)
    {
      var level := |proof.sideNodes| - 1 - i;
      ghost var below := current;
      current := Join(path[level], current, proof.sideNodes[i]);
      updates := updates + [(current, DataOf(current))];
      ClimbUp(path, down, level, below, current, done);
      assert first + (done + [current]) == first + done + [current];
      done := done + [current];
    }
    ClimbedAll(path, down, current, done);
    if current != root {
      return Err(BadProof);
    }
    ProofNodesStored(proof, path, end);
    return Ok(updates);
  }

  /** A node store with the nodes of a path, and the sibling data of its proof. */
  ghost function WithBranch<V>(nodes: map<Hash<V>, Data<V>>, proof: Proof<V>, path: seq<Hash<V>>): map<Hash<V>, Data<V>> {
    var stored := nodes + StoreOf(ToSet(path));
    if proof.siblingData.Some? && proof.sideNodes != [] then stored[proof.sideNodes[0] := proof.siblingData.value] else stored
  }

  lemma EndIsClaimed<V>(proof: Proof<V>, path: Path, value: Option<V>)
    requires |proof.sideNodes| <= |path| && ProofRoot(proof, path, value).Some?
    ensures ProofEnd(proof, path, value).Some?
  {
  }

  lemma StoreOneMore<V>(nodes: map<Hash<V>, Data<V>>, path: seq<Hash<V>>, i: nat)
    requires i < |path|
    ensures nodes + StoreOf(ToSet(path[..i + 1])) == (nodes + StoreOf(ToSet(path[..i])))[path[i] := DataOf(path[i])]
  {
    assert path[..i + 1] == path[..i] + [path[i]];
    assert ToSet(path[..i + 1]) == ToSet(path[..i]) + {path[i]};
  }

  /** On an exact store only wrong sibling data changes anything. */
  lemma BranchKeepsExact<V>(nodes: map<Hash<V>, Data<V>>, proof: Proof<V>, path: seq<Hash<V>>, root: Hash<V>)
    requires nodes == StoreOf(Subs(root)) && Stored(WithData(path), Subs(root))
    ensures WithBranch(nodes, proof, path) == StoreOf(Subs(root)) <==> GoodSibling(proof, root)
  {
    forall i | 0 <= i < |path| ensures path[i] in Subs(root) {
      assert WithData(path)[i].0 in Subs(root);
    }
    assert nodes + StoreOf(ToSet(path)) == nodes;
    if proof.siblingData.Some? && proof.sideNodes != [] {
      var key := proof.sideNodes[0];
      assert WithBranch(nodes, proof, path)[key] == proof.siblingData.value;
    }
  }

  /** Whatever a store held, with good sibling data it then holds every node of the proof's path: at
      level `k` the one from there down to the end. */
  lemma BranchIsStored<V>(nodes: map<Hash<V>, Data<V>>, proof: Proof<V>, path: Path, value: Option<V>, top: Hash<V>, k: nat)
    requires k <= |proof.sideNodes| <= |path| && ProofRoot(proof, path, value) == Some(top) && GoodSibling(proof, top)
    ensures var end := ProofEnd(proof, path, value).value; var x := Climb(path, k, Reversed(proof.sideNodes)[k..], end);
      var nodes' := WithBranch(nodes, proof, ProofNodes(proof, path, end));
      !x.Zero? ==> x in nodes' && nodes'[x] == DataOf(x)
  {
    hide Climb, ClimbSeq, Subs;
    var end, down := ProofEnd(proof, path, value).value, Reversed(proof.sideNodes);
    var x := Climb(path, k, down[k..], end);
    if k < |down| {
      ClimbSeqAt(path, 0, down, end, k);
      var climbed := ClimbSeq(path, 0, down, end);
      assert x == Reversed(climbed)[|climbed| - 1 - k];
    } else {
      NothingToClimb(path, down, end);
    }
    assert !x.Zero? ==> x in ToSet(ProofNodes(proof, path, end));
  }

  lemma NothingToClimb<V>(path: Path, down: seq<Hash<V>>, end: Hash<V>)
    requires |down| <= |path|
    ensures Climb(path, |down|, down[|down|..], end) == end
  {
  }

  lemma {:induction false} ClimbSeqAt<V>(path: Path, d: nat, sides: seq<Hash<V>>, t: Hash<V>, k: nat)
    requires d + |sides| <= |path| && k < |sides|
    ensures |ClimbSeq(path, d, sides, t)| == |sides| && ClimbSeq(path, d, sides, t)[k] == Climb(path, d + k, sides[k..], t)
    decreases sides
  {
    if k > 0 {
      ClimbSeqAt(path, d + 1, sides[1..], t, k - 1);
      assert sides[1..][k - 1..] == sides[k..];
    } else if |sides| > 1 {
      ClimbSeqAt(path, d + 1, sides[1..], t, 0);
    }
  }

  ghost function Restrict<V>(values: map<Path, V>, keys: seq<Path>): map<Path, V> {
    map k | k in values && k in keys :: values[k]
  }

  class SparseMerkleTree<V(==)> {
    const depth: nat
    var nodes: map<Hash<V>, Data<V>>
    var values: map<Path, V>
    var root: Hash<V>
    var parent: Hash<V>

    function View(): Tree<V>
      reads this
    {
      Tree(depth, nodes, values, root, parent)
    }

    constructor (depth: nat)
      ensures View() == Tree(depth, map[], map[], Zero, Zero) && View().Full()
    {
      this.depth := depth;
      nodes, values, root, parent := map[], map[], Zero, Zero;
      new;
      assert View().nodes == StoreOf(Subs(root));
    }

    /** `side_nodes_for_root` on the tree's own root: walks the store from the root to the first
        placeholder or leaf on `path`. */
    method SideNodesForRoot(path: Path, getSiblingData: bool) returns (r: Result<SideNodes<V>, Error>)
      requires View().Valid() && |path| == depth
      ensures r.Ok? && Describes(r.value, path, root)
      ensures r.value.siblingData.Some? <==> r.value.sides != []
      ensures r.value.sides != [] ==> r.value.sides[0] in Subs(root)
      ensures r.value.sides != [] ==> r.value.siblingData.value == if getSiblingData then DataOf(r.value.sides[0]) else NoData
    {
      var sides: seq<Hash<V>>, pathNodes := [], [root];
      if root.Zero? {
        return Ok(SideNodes(sides, pathNodes, NoData, None));
      }
      if root !in nodes {
        return Err(StorageErrorKeyNotFound);
      }
      var current, data := root, nodes[root];
      if data.LeafData? {
        return Ok(SideNodes(sides, pathNodes, data, None));
      }
      var side := Zero;
      for i := 0 to depth
        invariant |sides| == i && Walked(root, path, sides, pathNodes)
        invariant pathNodes[i].Node? && data == DataOf(pathNodes[i])
      {
        WalkStep(root, path, sides, pathNodes);
        side := if path[i] then data.left else data.right;
        current := if path[i] then data.right else data.left;
        sides, pathNodes := sides + [side], pathNodes + [current];
        if current.Zero? {
          data := NoData;
          break;
        }
        if current !in nodes {
          return Err(StorageErrorKeyNotFound);
        }
        data := nodes[current];
        if data.LeafData? {
          break;
        }
      }
      assert !pathNodes[|sides|].Node? by {
        if pathNodes[|sides|].Node? {
          WalkStep(root, path, sides, pathNodes);
        }
      }
      var siblingData := NoData;
      if getSiblingData {
        if side !in nodes {
          return Err(StorageErrorKeyNotFound);
        }
        siblingData := nodes[side];
      }
      WalkEnd(root, path, sides, pathNodes, Some(siblingData));
      return Ok(SideNodes(Reversed(sides), Reversed(pathNodes), data, Some(siblingData)));
    }


    /** `update`: a present value sets the key, `None`, which stands for the empty byte string, deletes
        it.  The new root is the canonical root of the new map and the store is exactly its nodes. */
    method Update(path: Path, value: Option<V>) returns (r: Result<Hash<V>, Error>)
      requires View().Valid() && |path| == depth
      modifies this
      ensures View() == Next(old(View()), Op(path, value)) && View().Valid()
      ensures r == if value.None? && path !in old(values) then Err(StorageError) else Ok(root)
    {
      assert path[..0] == [];
      NextIsValid(View(), Op(path, value));
      var s := SideNodesForRoot(path, false);
      if s.Err? {
        return Err(StorageErrorKeyNotFound);
      }
      var u: Result<Updated<V>, Error>;
      if value.None? {
        if path !in values {
          return Err(StorageError);
        }
        values := values - {path};
        u := DeleteWithSideNodes(nodes, root, path, s.value);
      } else {
        EndHoldsKey(path, s.value, root);
        var same := s.value.leafData == LeafData(path, Digest(value.value));
        u := UpdateWithSideNodes(nodes, root, path, value.value, s.value);
        if u.Ok? && !same {
          values := values[path := value.value];
        }
      }
      if u.Err? {
        return Err(StorageError);
      }
      nodes, root := u.value.nodes, u.value.root;
      return Ok(root);
    }

    /** `get`: `None` stands for the empty byte string. */
    method Get(path: Path) returns (value: Option<V>)
      requires View().Valid() && |path| == depth
      ensures value == if path in values then Some(values[path]) else None
      ensures View().Full() ==> value == if path in Content(root) then Some(Content(root)[path]) else None
    {
      if root.Zero? {
        return None;
      }
      return if path in values then Some(values[path]) else None;
    }

    /** `do_proof_for_root` on the tree's own root. */
    method Prove(path: Path, isUpdatable: bool) returns (r: Result<Proof<V>, Error>)
      requires View().Valid() && |path| == depth
      ensures r.Ok? && |r.value.sideNodes| <= depth
      ensures ProofRoot(r.value, path, if path in Content(root) then Some(Content(root)[path]) else None) == Some(root)
      ensures isUpdatable ==> GoodSibling(r.value, root)
      ensures r.value.siblingData == if r.value.sideNodes == [] then None
                                     else Some(if isUpdatable then DataOf(r.value.sideNodes[0]) else NoData)
    {
      var s := SideNodesForRoot(path, isUpdatable);
      if s.Err? {
        return Err(StorageErrorKeyNotFound);
      }
      EndHoldsKey(path, s.value, root);
      var nonMembershipLeaf := None;
      if !s.value.pathNodes[0].Zero? {
        ClimbMinimal(path, 0, Reversed(s.value.sides), s.value.pathNodes[0], depth);
        if s.value.leafData.path != path {
          nonMembershipLeaf := Some(ParsedLeaf(s.value.leafData.path, s.value.leafData.valueHash));
        }
      }
      return Ok(Proof(s.value.sides, nonMembershipLeaf, s.value.siblingData));
    }

    constructor FromView(t: Tree<V>)
      ensures View() == t
    {
      depth, nodes, values, root, parent := t.depth, t.nodes, t.values, t.root, t.parent;
    }

    /** `add_branch`, for a proof against any root and whatever the store holds: it then also holds every
        node of the path the proof shows, and under its first side node the sibling data the proof
        carries. On a tree whose store is that of its own root this adds nothing unless the sibling data
        is another than that node's. */
    method AddBranch(proof: Proof<V>, top: Hash<V>, path: Path, value: Option<V>) returns (r: Result<(), Error>)
      requires |path| == depth && |proof.sideNodes| <= depth
      modifies this`nodes, this`values
      ensures r.Ok? <==> ProofRoot(proof, path, value) == Some(top)
      ensures r.Err? ==> View() == old(View())
      ensures r.Ok? ==> values == if value.Some? then old(values)[path := value.value] else old(values)
      ensures r.Ok? ==> nodes == WithBranch(old(nodes), proof, ProofNodes(proof, path, ProofEnd(proof, path, value).value))
      ensures r.Ok? && top == root && old(View().Valid()) ==> (View().Valid() <==> GoodSibling(proof, root))
      ensures r.Ok? && top == root && old(View().Valid()) && GoodSibling(proof, root) ==> nodes == old(nodes)
    {
      hide Minimal, Content, ProofRoot, ProofNodes;
      var updates := VerifyProofWithUpdates(proof, top, path, value);
      if updates.Err? {
        return Err(updates.error);
      }
      EndIsClaimed(proof, path, value);
      ghost var path' := ProofNodes(proof, path, ProofEnd(proof, path, value).value);
      if value.Some? {
        values := values[path := value.value];
      }
      assert path'[..0] == [];
      for i := 0 to |updates.value|
        invariant nodes == old(nodes) + StoreOf(ToSet(path'[..i]))
        invariant values == if value.Some? then old(values)[path := value.value] else old(values)
      {
        StoreOneMore(old(nodes), path', i);
        nodes := nodes[updates.value[i].0 := updates.value[i].1];
      }
      assert path'[..|path'|] == path';
      if proof.siblingData.Some? && proof.sideNodes != [] {
        nodes := nodes[proof.sideNodes[0] := proof.siblingData.value];
      }
      if top == root && old(View().Valid()) {
        assert value.Some? ==> path in Content(root) && Content(root)[path] == value.value by {
          ProofSound(proof, path, value, root);
        }
        BranchKeepsExact(old(nodes), proof, path', root);
      }
      return Ok(());
    }

    /** `subtree`: a partial copy shares the nodes and imports the values of some keys; it succeeds
        exactly when the tree itself holds the values of those of the keys that its root commits to. */
    method Subtree(strategy: CopyStrategy, importKeys: seq<Path>) returns (r: Result<SparseMerkleTree<V>, Error>)
      requires View().Valid() && forall i :: 0 <= i < |importKeys| ==> |importKeys[i]| == depth
      ensures r.Ok? ==> fresh(r.value) && r.value.depth == depth && r.value.root == root
      ensures r.Ok? <==> strategy != Partial || forall k :: k in importKeys && k in Content(root) ==> k in values
      ensures r.Ok? && strategy == Partial ==>
        r.value.View() == Tree(depth, nodes, Restrict(values, importKeys), root, root)
      ensures r.Ok? && strategy == FullCopy ==> r.value.View() == View()
      ensures r.Ok? && strategy == NoCopy ==> r.value.View() == Tree(depth, map[], map[], root, root)
    {
      hide Minimal, Content, Subs, StoreOf;
      if strategy == FullCopy {
        var copy := new SparseMerkleTree<V>.FromView(View());
        return Ok(copy);
      }
      if strategy == NoCopy {
        var bare := new SparseMerkleTree<V>.FromView(Tree(depth, map[], map[], root, root));
        return Ok(bare);
      }
      var t := new SparseMerkleTree<V>.FromView(Tree(depth, nodes, map[], root, root));
      for i := 0 to |importKeys|
        invariant unchanged(this) && fresh(t) && t.depth == depth
        invariant t.View() == Tree(depth, nodes, Restrict(values, importKeys[..i]), root, root)
        invariant forall k :: k in importKeys[..i] && k in Content(root) ==> k in values
      {
        var key := importKeys[i];
        assert importKeys[..i + 1] == importKeys[..i] + [key];
        var imported := t.Import(this, key);
        if imported.Err? {
          assert key in importKeys;
          return Err(imported.error);
        }
        assert Restrict(values, importKeys[..i + 1])
            == if key in values then Restrict(values, importKeys[..i])[key := values[key]] else Restrict(values, importKeys[..i]);
      }
      assert importKeys[..|importKeys|] == importKeys;
      return Ok(t);
    }

    /** One import of `subtree`: the value of `key` in `source` with an updatable proof. */
    method Import(source: SparseMerkleTree<V>, key: Path) returns (r: Result<(), Error>)
      requires View().Valid() && source.View().Valid() && source.depth == depth && source.root == root && |key| == depth
      requires source != this
      modifies this`nodes, this`values
      ensures r.Ok? <==> key in Content(root) ==> key in source.values
      ensures r.Ok? ==> View().Valid() && nodes == old(nodes)
      ensures r.Ok? ==> values == if key in source.values then old(values)[key := source.values[key]] else old(values)
    {
      var value := source.Get(key);
      var proof := source.Prove(key, true);
      if proof.Err? {
        return Err(StorageErrorKeyNotFound);
      }
      if ProofRoot(proof.value, key, value) == Some(root) {
        ProofSound(proof.value, key, value, root);
      }
      r := AddBranch(proof.value, root, key, value);
    }
  }
}
