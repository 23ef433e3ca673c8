/** The hash terms of the sparse Merkle tree.

    A digest is a term of the datatype `Hash`: two digests are equal exactly when they were computed
    from the same preimage.  A tree is then the same thing as its root hash, and the content-addressed
    node store of a tree is the set of the hashes below its root, each mapped to its preimage. */
module SmtHash {

  /** The digest of a key, as bits, most significant first. */
  type Path = seq<bool>

  /** `Zero` is the placeholder of an empty subtree, `Opaque` any 256-bit value that is not a digest
      the tree ever computes. */
  datatype Hash<+V> =
    | Zero
    | Digest(value: V)
    | Leaf(path: Path, valueHash: Hash<V>)
    | Node(left: Hash<V>, right: Hash<V>)
    | Opaque(id: nat)

  /** The preimage kept in the node store; `NoData` is the empty byte string. */
  datatype Data<+V> =
    | LeafData(path: Path, valueHash: Hash<V>)
    | NodeData(left: Hash<V>, right: Hash<V>)
    | NoData

  function DataOf<V>(h: Hash<V>): Data<V> {
    match h
    case Leaf(p, v) => LeafData(p, v)
    case Node(l, r) => NodeData(l, r)
    case _ => NoData
  }

  /** The parent of `on`, which lies on the side of `bit`, and of its sibling `side`. */
  function Join<V>(bit: bool, on: Hash<V>, side: Hash<V>): Hash<V> {
    if bit then Node(side, on) else Node(on, side)
  }

  function Size<V>(h: Hash<V>): nat {
    match h
    case Node(l, r) => 1 + Size(l) + Size(r)
    case _ => 0
  }

  /** The stored hashes of the tree `h`. */
  ghost function Subs<V>(h: Hash<V>): set<Hash<V>> {
    match h
    case Leaf(_, _) => {h}
    case Node(l, r) => {h} + Subs(l) + Subs(r)
    case _ => {}
  }

  /** The node store that holds exactly the hashes `s`. */
  ghost function StoreOf<V>(s: set<Hash<V>>): map<Hash<V>, Data<V>> {
    map x | x in s :: DataOf(x)
  }

  lemma StorePut<V>(s: set<Hash<V>>, x: Hash<V>)
    ensures StoreOf(s)[x := DataOf(x)] == StoreOf(s + {x})
  {
  }

  lemma StoreDelete<V>(s: set<Hash<V>>, d: set<Hash<V>>)
    ensures StoreOf(s) - d == StoreOf(s - d)
  {
  }

  /** The map that the tree `h` commits to. */
  ghost function Content<V>(h: Hash<V>): map<Path, V> {
    match h
    case Leaf(p, Digest(v)) => map[p := v]
    case Node(l, r) => Content(l) + Content(r)
    case _ => map[]
  }

  /** `h` is the smallest tree for the keys below `prefix`: a leaf stands at the first level at which
      no other key shares its prefix, so no node has fewer than two leaves below it. */
  ghost predicate Minimal<V>(h: Hash<V>, prefix: Path, depth: nat)
    decreases h
  {
    match h
    case Zero => true
    case Leaf(p, v) => |p| == depth && prefix <= p && v.Digest?
    case Node(l, r) =>
      && |prefix| < depth
      && Minimal(l, prefix + [false], depth)
      && Minimal(r, prefix + [true], depth)
      && (l.Node? || r.Node? || (l.Leaf? && r.Leaf?))
    case _ => false
  }

  lemma MinimalIsStored<V>(h: Hash<V>, prefix: Path, depth: nat)
    requires Minimal(h, prefix, depth)
    ensures h.Zero? || ((h.Leaf? || h.Node?) && h in Subs(h))
  {
  }

  lemma {:induction false} ContentUnder<V>(h: Hash<V>, prefix: Path, depth: nat)
    requires Minimal(h, prefix, depth)
    ensures forall p :: p in Content(h) ==> |p| == depth && prefix <= p
    ensures h != Zero ==> Content(h) != map[]
  {
    if h.Node? {
      ContentUnder(h.left, prefix + [false], depth);
      ContentUnder(h.right, prefix + [true], depth);
      var p :| p in Content(if h.left == Zero then h.right else h.left);
      assert p in Content(h);
    } else if h.Leaf? {
      assert h.path in Content(h);
    }
  }

  /** Keys of the two children differ at the level of their parent. */
  lemma ChildrenApart<V>(l: Hash<V>, r: Hash<V>, prefix: Path, depth: nat)
    requires Minimal(l, prefix + [false], depth) && Minimal(r, prefix + [true], depth)
    ensures forall p :: p in Content(l) ==> |prefix| < |p| && !p[|prefix|]
    ensures forall p :: p in Content(r) ==> |prefix| < |p| && p[|prefix|]
    ensures Content(l).Keys !! Content(r).Keys
  {
    ContentUnder(l, prefix + [false], depth);
    ContentUnder(r, prefix + [true], depth);
    forall p | p in Content(l) ensures |prefix| < |p| && !p[|prefix|] {
      assert p[|prefix|] == (prefix + [false])[|prefix|];
    }
    forall p | p in Content(r) ensures |prefix| < |p| && p[|prefix|] {
      assert p[|prefix|] == (prefix + [true])[|prefix|];
    }
  }

  lemma {:induction false} SubsBelow<V>(h: Hash<V>, x: Hash<V>, prefix: Path, depth: nat)
    requires Minimal(h, prefix, depth) && x in Subs(h)
    ensures Size(x) <= Size(h)
    ensures Content(x) != map[] && Content(x).Keys <= Content(h).Keys
  {
    if h.Node? && x != h {
      if x in Subs(h.left) {
        SubsBelow(h.left, x, prefix + [false], depth);
      } else {
        SubsBelow(h.right, x, prefix + [true], depth);
      }
    } else {
      ContentUnder(h, prefix, depth);
    }
  }

  /** Hashes stored below the two children are distinct, so deleting one side never removes a node
      that the other side needs. */
  lemma SubsApart<V>(l: Hash<V>, r: Hash<V>, prefix: Path, depth: nat)
    requires Minimal(l, prefix + [false], depth) && Minimal(r, prefix + [true], depth)
    ensures Subs(l) !! Subs(r)
  {
    forall x | x in Subs(l) && x in Subs(r) ensures false {
      SubsBelow(l, x, prefix + [false], depth);
      SubsBelow(r, x, prefix + [true], depth);
      ChildrenApart(l, r, prefix, depth);
    }
  }

  // ---------------------------------------------------------------- climbing a path

  /** The tree that has `t` at the end of `path[d..d+|sides|]` and `sides`, from the top down, beside
      that path. */
  ghost function Climb<V>(path: Path, d: nat, sides: seq<Hash<V>>, t: Hash<V>): Hash<V>
    requires d + |sides| <= |path|
    decreases sides
  {
    if sides == [] then t else Join(path[d], Climb(path, d + 1, sides[1..], t), sides[0])
  }

  /** The inner nodes on that path, from the top down. */
  ghost function ClimbSeq<V>(path: Path, d: nat, sides: seq<Hash<V>>, t: Hash<V>): seq<Hash<V>>
    requires d + |sides| <= |path|
    decreases sides
  {
    if sides == [] then []
    else [Climb(path, d, sides, t)] + ClimbSeq(path, d + 1, sides[1..], t)
  }

  ghost function ToSet<T>(s: seq<T>): set<T> { set x | x in s }

  ghost function SideSubs<V>(sides: seq<Hash<V>>): set<Hash<V>> {
    if sides == [] then {} else Subs(sides[0]) + SideSubs(sides[1..])
  }

  lemma {:induction false} ClimbSnoc<V>(path: Path, d: nat, sides: seq<Hash<V>>, x: Hash<V>, t: Hash<V>)
    requires d + |sides| < |path|
    ensures Climb(path, d, sides + [x], t) == Climb(path, d, sides, Join(path[d + |sides|], t, x))
    ensures ClimbSeq(path, d, sides + [x], t)
         == ClimbSeq(path, d, sides, Join(path[d + |sides|], t, x)) + [Join(path[d + |sides|], t, x)]
    decreases sides
  {
    var s := sides + [x];
    if sides == [] {
      assert s[1..] == [];
    } else {
      assert s[1..] == sides[1..] + [x];
      ClimbSnoc(path, d + 1, sides[1..], x, t);
    }
  }

  lemma {:induction false} ClimbSubs<V>(path: Path, d: nat, sides: seq<Hash<V>>, t: Hash<V>)
    requires d + |sides| <= |path|
    ensures Subs(Climb(path, d, sides, t)) == Subs(t) + SideSubs(sides) + ToSet(ClimbSeq(path, d, sides, t))
    decreases sides
  {
    if sides != [] {
      ClimbSubs(path, d + 1, sides[1..], t);
      var c, c' := ClimbSeq(path, d, sides, t), ClimbSeq(path, d + 1, sides[1..], t);
      assert ToSet(c) == {Climb(path, d, sides, t)} + ToSet(c');
    }
  }

  /** Every node of a path is larger than all that lies below it. */
  lemma {:induction false} ClimbSizes<V>(path: Path, d: nat, sides: seq<Hash<V>>, t: Hash<V>)
    requires d + |sides| <= |path|
    ensures Size(t) <= Size(Climb(path, d, sides, t))
    ensures sides != [] ==> Size(t) < Size(Climb(path, d, sides, t))
    ensures |ClimbSeq(path, d, sides, t)| == |sides|
    ensures forall i :: 0 <= i < |sides| ==>
      var c := ClimbSeq(path, d, sides, t);
      c[i].Node? && Size(t) < Size(c[i]) <= Size(Climb(path, d, sides, t))
    ensures forall i, j :: 0 <= i < j < |sides| ==>
      var c := ClimbSeq(path, d, sides, t);
      Size(c[j]) < Size(c[i])
    decreases sides
  {
    if sides != [] {
      ClimbSizes(path, d + 1, sides[1..], t);
      var c := ClimbSeq(path, d, sides, t);
      var c' := ClimbSeq(path, d + 1, sides[1..], t);
      assert forall i :: 0 < i < |sides| ==> c[i] == c'[i - 1];
    }
  }

  /** The end of a path of a minimal tree is minimal for its prefix. */
  lemma {:induction false} EndMinimal<V>(path: Path, d: nat, sides: seq<Hash<V>>, t: Hash<V>, depth: nat)
    requires |path| == depth && d + |sides| <= depth
    requires Minimal(Climb(path, d, sides, t), path[..d], depth)
    ensures Minimal(t, path[..d + |sides|], depth)
    decreases sides
  {
    if sides == [] {
      assert path[..d] == path[..d + |sides|];
    } else {
      assert path[..d] + [path[d]] == path[..d + 1];
      EndMinimal(path, d + 1, sides[1..], t, depth);
    }
  }

  /** The rest of the tree holds no key with that prefix. */
  lemma {:induction false} EndContent<V>(path: Path, d: nat, sides: seq<Hash<V>>, t: Hash<V>, depth: nat)
    requires |path| == depth && d + |sides| <= depth
    requires Minimal(Climb(path, d, sides, t), path[..d], depth)
    ensures path in Content(Climb(path, d, sides, t)) <==> path in Content(t)
    ensures path in Content(t) ==> Content(Climb(path, d, sides, t))[path] == Content(t)[path]
    decreases sides
  {
    if sides != [] {
      var h := Climb(path, d, sides, t);
      var on := Climb(path, d + 1, sides[1..], t);
      assert Minimal(on, path[..d + 1], depth) by {
        assert path[..d] + [path[d]] == path[..d + 1];
      }
      EndContent(path, d + 1, sides[1..], t, depth);
      assert path !in Content(sides[0]) by {
        ChildrenApart(h.left, h.right, path[..d], depth);
      }
      assert Content(h) == if path[d] then Content(sides[0]) + Content(on) else Content(on) + Content(sides[0]);
    }
  }

  lemma ClimbMinimal<V>(path: Path, d: nat, sides: seq<Hash<V>>, t: Hash<V>, depth: nat)
    requires |path| == depth && d + |sides| <= depth
    requires Minimal(Climb(path, d, sides, t), path[..d], depth)
    ensures Minimal(t, path[..d + |sides|], depth)
    ensures path in Content(Climb(path, d, sides, t)) <==> path in Content(t)
    ensures path in Content(t) ==> Content(Climb(path, d, sides, t))[path] == Content(t)[path]
  {
    EndMinimal(path, d, sides, t, depth);
    EndContent(path, d, sides, t, depth);
  }

  /** The inner nodes of a path are stored nowhere else in a minimal tree. */
  lemma {:induction false} ClimbApart<V>(path: Path, d: nat, sides: seq<Hash<V>>, t: Hash<V>, depth: nat)
    requires |path| == depth && d + |sides| <= depth
    requires Minimal(Climb(path, d, sides, t), path[..d], depth)
    ensures ToSet(ClimbSeq(path, d, sides, t)) !! Subs(t) + SideSubs(sides)
    decreases sides
  {
    if sides != [] {
      var h := Climb(path, d, sides, t);
      var on := Climb(path, d + 1, sides[1..], t);
      assert path[..d] + [path[d]] == path[..d + 1];
      ClimbApart(path, d + 1, sides[1..], t, depth);
      var c, c' := ClimbSeq(path, d, sides, t), ClimbSeq(path, d + 1, sides[1..], t);
      assert Subs(on) == Subs(t) + SideSubs(sides[1..]) + ToSet(c') by {
        ClimbSubs(path, d + 1, sides[1..], t);
      }
      assert Subs(on) !! Subs(sides[0]) by {
        SubsApart(h.left, h.right, path[..d], depth);
      }
      forall x | x in c ensures x !in Subs(t) + SideSubs(sides) {
        if x == h {
          if x in Subs(on) || x in Subs(sides[0]) {
            TopIsLargest(h, path[..d], depth, x);
          }
        } else {
          assert x in c';
        }
      }
    }
  }

  /** What lies at the end of a path of a minimal tree is stored nowhere beside that path. */
  lemma {:induction false} EndApart<V>(path: Path, d: nat, sides: seq<Hash<V>>, t: Hash<V>, depth: nat)
    requires |path| == depth && d + |sides| <= depth
    requires Minimal(Climb(path, d, sides, t), path[..d], depth)
    ensures Subs(t) !! SideSubs(sides)
    decreases sides
  {
    if sides != [] {
      var h := Climb(path, d, sides, t);
      assert path[..d] + [path[d]] == path[..d + 1];
      EndApart(path, d + 1, sides[1..], t, depth);
      SubsApart(h.left, h.right, path[..d], depth);
      ClimbSubs(path, d + 1, sides[1..], t);
    }
  }

  lemma {:induction false} SideSubsSnoc<V>(sides: seq<Hash<V>>, x: Hash<V>)
    ensures SideSubs(sides + [x]) == SideSubs(sides) + Subs(x)
  {
    var s := sides + [x];
    if sides == [] {
      assert s[1..] == [];
    } else {
      assert s[1..] == sides[1..] + [x];
      SideSubsSnoc(sides[1..], x);
    }
  }

  lemma TopIsLargest<V>(h: Hash<V>, prefix: Path, depth: nat, x: Hash<V>)
    requires h.Node? && Minimal(h, prefix, depth) && (x in Subs(h.left) || x in Subs(h.right))
    ensures x != h
  {
    if x in Subs(h.left) {
      SubsBelow(h.left, x, prefix + [false], depth);
    } else {
      SubsBelow(h.right, x, prefix + [true], depth);
    }
  }
}
