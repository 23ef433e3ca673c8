/** What the tree operations mean: insertion and deletion on minimal trees, the canonical tree of a
    map, and the runs of operations.  The methods that walk the node store are proved against these
    functions in module `SparseMerkle`. */
module SmtSpec {
  import opened SmtHash

  // ---------------------------------------------------------------- the canonical tree of a map

  /** The entries of `m` whose key has `bit` at level `d`. */
  ghost function Half<V>(m: map<Path, V>, d: nat, bit: bool): map<Path, V> {
    map p | p in m && d < |p| && p[d] == bit :: m[p]
  }

  /** The root of `m`, defined from the map alone: empty, one leaf, or the two halves at level `d`. */
  ghost function CanonicalRoot<V>(m: map<Path, V>, d: nat, depth: nat): Hash<V>
    decreases depth - d
  {
    if m == map[] then Zero
    else
      var p :| p in m;
      if m.Keys == {p} then Leaf(p, Digest(m[p]))
      else if d < depth then
        Node(CanonicalRoot(Half(m, d, false), d + 1, depth), CanonicalRoot(Half(m, d, true), d + 1, depth))
      else Zero
  }

  lemma {:induction false} TwoKeys<V>(h: Hash<V>, prefix: Path, depth: nat, p: Path)
    requires h.Node? && Minimal(h, prefix, depth)
    ensures Content(h).Keys != {p}
  {
    ChildrenApart(h.left, h.right, prefix, depth);
    ContentUnder(h.left, prefix + [false], depth);
    ContentUnder(h.right, prefix + [true], depth);
    if h.left == Zero {
      TwoKeys(h.right, prefix + [true], depth, p);
      assert Content(h) == Content(h.right);
    } else if h.right == Zero {
      TwoKeys(h.left, prefix + [false], depth, p);
      assert Content(h) == Content(h.left);
    } else {
      var a :| a in Content(h.left);
      var b :| b in Content(h.right);
      assert a in Content(h) && b in Content(h) && a != b;
    }
  }

  lemma HalvesOfNode<V>(h: Hash<V>, prefix: Path, depth: nat)
    requires h.Node? && Minimal(h, prefix, depth)
    ensures Half(Content(h), |prefix|, false) == Content(h.left)
    ensures Half(Content(h), |prefix|, true) == Content(h.right)
  {
    ChildrenApart(h.left, h.right, prefix, depth);
  }

  /** A minimal tree is the canonical tree of the map it commits to. */
  lemma {:induction false} MinimalIsCanonical<V>(h: Hash<V>, prefix: Path, depth: nat)
    requires |prefix| <= depth && Minimal(h, prefix, depth)
    ensures h == CanonicalRoot(Content(h), |prefix|, depth)
  {
    var m := Content(h);
    if h.Node? {
      MinimalIsCanonical(h.left, prefix + [false], depth);
      MinimalIsCanonical(h.right, prefix + [true], depth);
      HalvesOfNode(h, prefix, depth);
      assert m != map[] by { ContentUnder(h, prefix, depth); }
      forall p | p in m ensures m.Keys != {p} {
        TwoKeys(h, prefix, depth, p);
      }
    } else if h.Leaf? {
      assert m.Keys == {h.path};
    }
  }

  /** So a root determines its map and a map determines its root. */
  lemma RootsAndMaps<V>(g: Hash<V>, h: Hash<V>, depth: nat)
    requires Minimal(g, [], depth) && Minimal(h, [], depth)
    ensures g == h <==> Content(g) == Content(h)
  {
    MinimalIsCanonical(g, [], depth);
    MinimalIsCanonical(h, [], depth);
  }

  // ---------------------------------------------------------------- map algebra

  lemma UnionPut<K, V>(a: map<K, V>, b: map<K, V>, k: K, v: V)
    ensures a + b[k := v] == (a + b)[k := v]
    ensures k !in b ==> a[k := v] + b == (a + b)[k := v]
  {
  }

  lemma UnionCommutes<K, V>(a: map<K, V>, b: map<K, V>)
    requires a.Keys !! b.Keys
    ensures a + b == b + a
    ensures a == map[] ==> a + b == b
    ensures b == map[] ==> a + b == a
  {
  }

  lemma UnionRemove<K, V>(a: map<K, V>, b: map<K, V>, k: K)
    requires k !in b
    ensures (a - {k}) + b == (a + b) - {k}
  {
  }

  // ---------------------------------------------------------------- insertion

  /** Two leaves that agree up to level `d`, separated at the first level where they differ. */
  ghost function Split<V>(leaf: Hash<V>, prior: Hash<V>, d: nat): Hash<V>
    requires leaf.Leaf? && prior.Leaf? && |leaf.path| == |prior.path| && d <= |leaf.path|
    decreases |leaf.path| - d
  {
    if d == |leaf.path| then leaf
    else if leaf.path[d] == prior.path[d] then Join(leaf.path[d], Split(leaf, prior, d + 1), Zero)
    else Join(leaf.path[d], leaf, prior)
  }

  ghost function Insert<V>(h: Hash<V>, d: nat, path: Path, v: V): Hash<V>
    requires d <= |path| && Minimal(h, path[..d], |path|)
    decreases h
  {
    match h
    case Leaf(p, _) => if p == path then Leaf(path, Digest(v)) else Split(Leaf(path, Digest(v)), h, d)
    case Node(l, r) =>
      assert path[..d] + [path[d]] == path[..d + 1];
      if path[d] then Node(l, Insert(r, d + 1, path, v)) else Node(Insert(l, d + 1, path, v), r)
    case _ => Leaf(path, Digest(v))
  }

  lemma {:induction false} SplitMinimal<V>(leaf: Hash<V>, prior: Hash<V>, d: nat)
    requires leaf.Leaf? && prior.Leaf? && |leaf.path| == |prior.path| && d <= |leaf.path|
    requires leaf.valueHash.Digest? && prior.valueHash.Digest?
    requires leaf.path != prior.path && leaf.path[..d] == prior.path[..d]
    ensures Minimal(Split(leaf, prior, d), leaf.path[..d], |leaf.path|) && Split(leaf, prior, d).Node?
    decreases |leaf.path| - d
  {
    var path := leaf.path;
    assert d < |path| by {
      assert path == path[..|path|] && prior.path == prior.path[..|path|];
    }
    assert path[..d] + [path[d]] == path[..d + 1] <= path;
    assert path[..d] + [prior.path[d]] == prior.path[..d + 1] <= prior.path;
    if path[d] == prior.path[d] {
      SplitMinimal(leaf, prior, d + 1);
    }
  }

  lemma {:induction false} SplitContent<V>(leaf: Hash<V>, prior: Hash<V>, d: nat)
    requires leaf.Leaf? && prior.Leaf? && |leaf.path| == |prior.path| && d <= |leaf.path|
    requires leaf.valueHash.Digest? && prior.valueHash.Digest?
    requires leaf.path != prior.path && leaf.path[..d] == prior.path[..d]
    ensures Content(Split(leaf, prior, d)) == Content(leaf) + Content(prior)
    decreases |leaf.path| - d
  {
    var path := leaf.path;
    assert d < |path| by {
      assert path == path[..|path|] && prior.path == prior.path[..|path|];
    }
    if path[d] == prior.path[d] {
      assert path[..d + 1] == path[..d] + [path[d]] == prior.path[..d + 1];
      SplitContent(leaf, prior, d + 1);
    } else {
      assert Content(leaf) + Content(prior) == Content(prior) + Content(leaf);
    }
  }

  /** Replacing one child of a minimal node by a tree that is no smaller keeps the node minimal. */
  lemma ReplaceChild<V>(h: Hash<V>, prefix: Path, bit: bool, on: Hash<V>, depth: nat)
    requires h.Node? && Minimal(h, prefix, depth) && Minimal(on, prefix + [bit], depth)
    requires var prior := if bit then h.right else h.left;
      (prior.Node? ==> on.Node?) && (on.Leaf? || on.Node?)
    ensures Minimal(if bit then Node(h.left, on) else Node(on, h.right), prefix, depth)
  {
  }

  lemma {:induction false} InsertMinimal<V>(h: Hash<V>, d: nat, path: Path, v: V)
    requires d <= |path| && Minimal(h, path[..d], |path|)
    ensures Minimal(Insert(h, d, path, v), path[..d], |path|)
    ensures Insert(h, d, path, v).Leaf? || Insert(h, d, path, v).Node?
    ensures h.Node? ==> Insert(h, d, path, v).Node?
    decreases h
  {
    match h
    case Leaf(p, _) =>
      if p != path {
        assert p[..d] == path[..d];
        SplitMinimal(Leaf(path, Digest(v)), h, d);
      }
    case Node(l, r) =>
      assert path[..d] + [path[d]] == path[..d + 1];
      var on := if path[d] then r else l;
      InsertMinimal(on, d + 1, path, v);
      ReplaceChild(h, path[..d], path[d], Insert(on, d + 1, path, v), |path|);
    case _ =>
  }

  lemma {:induction false} InsertContent<V>(h: Hash<V>, d: nat, path: Path, v: V)
    requires d <= |path| && Minimal(h, path[..d], |path|)
    ensures Content(Insert(h, d, path, v)) == Content(h)[path := v]
    decreases h
  {
    match h
    case Leaf(p, _) =>
      if p != path {
        assert p[..d] == path[..d];
        SplitContent(Leaf(path, Digest(v)), h, d);
      }
    case Node(l, r) =>
      var on := if path[d] then r else l;
      assert Minimal(on, path[..d + 1], |path|) by {
        assert path[..d] + [path[d]] == path[..d + 1];
      }
      InsertContent(on, d + 1, path, v);
      var on' := Insert(on, d + 1, path, v);
      if path[d] {
        UnionPut(Content(l), Content(r), path, v);
        assert Insert(h, d, path, v) == Node(l, on');
      } else {
        assert path !in Content(r) by { ChildrenApart(l, r, path[..d], |path|); }
        UnionPut(Content(l), Content(r), path, v);
        assert Insert(h, d, path, v) == Node(on', r);
      }
    case _ =>
  }

  // ---------------------------------------------------------------- deletion

  /** The parent of `on` and `side` after a deletion below `on`: a lone leaf moves up. */
  ghost function Collapse<V>(bit: bool, on: Hash<V>, side: Hash<V>): Hash<V> {
    if on.Zero? && side.Leaf? then side
    else if on.Leaf? && side.Zero? then on
    else Join(bit, on, side)
  }

  ghost function Delete<V>(h: Hash<V>, d: nat, path: Path): Hash<V>
    requires d <= |path| && Minimal(h, path[..d], |path|)
    decreases h
  {
    match h
    case Leaf(p, _) => if p == path then Zero else h
    case Node(l, r) =>
      assert path[..d] + [path[d]] == path[..d + 1];
      if path[d] then Collapse(true, Delete(r, d + 1, path), l) else Collapse(false, Delete(l, d + 1, path), r)
    case _ => h
  }

  /** A lone leaf stays minimal when it moves up one level. */
  lemma CollapseMinimal<V>(prefix: Path, bit: bool, on: Hash<V>, side: Hash<V>, depth: nat)
    requires |prefix| < depth
    requires Minimal(on, prefix + [bit], depth) && Minimal(side, prefix + [!bit], depth)
    requires !(on.Zero? && side.Zero?)
    ensures Minimal(Collapse(bit, on, side), prefix, depth)
    ensures Collapse(bit, on, side) != Zero
  {
    if on.Leaf? && side.Zero? {
      assert prefix <= on.path;
    }
    if on.Zero? && side.Leaf? {
      assert prefix <= side.path;
    }
  }

  lemma {:induction false} DeleteMinimal<V>(h: Hash<V>, d: nat, path: Path)
    requires d <= |path| && Minimal(h, path[..d], |path|)
    ensures Minimal(Delete(h, d, path), path[..d], |path|)
    ensures h.Node? ==> Delete(h, d, path) != Zero
    decreases h
  {
    match h
    case Leaf(p, _) =>
    case Node(l, r) =>
      assert path[..d] + [path[d]] == path[..d + 1];
      var on, side := if path[d] then r else l, if path[d] then l else r;
      DeleteMinimal(on, d + 1, path);
      CollapseMinimal(path[..d], path[d], Delete(on, d + 1, path), side, |path|);
    case _ =>
  }

  lemma {:induction false} CollapseContent<V>(bit: bool, on: Hash<V>, side: Hash<V>)
    requires Content(on).Keys !! Content(side).Keys
    ensures Content(Collapse(bit, on, side)) == Content(on) + Content(side)
    ensures Content(Join(bit, on, side)) == Content(on) + Content(side)
  {
    UnionCommutes(Content(on), Content(side));
  }

  lemma {:induction false} DeleteContent<V>(h: Hash<V>, d: nat, path: Path)
    requires d <= |path| && Minimal(h, path[..d], |path|)
    ensures Content(Delete(h, d, path)) == Content(h) - {path}
    decreases h
  {
    match h
    case Leaf(p, _) =>
    case Node(l, r) =>
      var on, side := if path[d] then r else l, if path[d] then l else r;
      assert Minimal(on, path[..d + 1], |path|) by {
        assert path[..d] + [path[d]] == path[..d + 1];
      }
      DeleteContent(on, d + 1, path);
      var on' := Delete(on, d + 1, path);
      assert path !in Content(side) && Content(on).Keys !! Content(side).Keys by {
        ChildrenApart(l, r, path[..d], |path|);
      }
      calc {
        Content(Delete(h, d, path));
        Content(Collapse(path[d], on', side));
        { CollapseContent(path[d], on', side); }
        Content(on') + Content(side);
        { UnionRemove(Content(on), Content(side), path); }
        (Content(on) + Content(side)) - {path};
        { CollapseContent(path[d], on, side); }
        Content(h) - {path};
      }
    case _ =>
  }

  // ---------------------------------------------------------------- along a path

  /** The first level at which two paths differ. */
  function CommonPrefix(p: Path, q: Path): (n: nat)
    requires |p| == |q|
    ensures n <= |p| && p[..n] == q[..n]
    ensures n < |p| ==> p[n] != q[n]
    ensures n == |p| <==> p == q
  {
    if p == [] || p[0] != q[0] then 0
    else
      var n := 1 + CommonPrefix(p[1..], q[1..]);
      assert p[..n] == [p[0]] + p[1..][..n - 1] && q[..n] == [q[0]] + q[1..][..n - 1];
      assert p == [p[0]] + p[1..] && q == [q[0]] + q[1..];
      n
  }

  ghost function Zeros<V>(n: nat): seq<Hash<V>> { seq(n, _ => Zero) }

  lemma {:induction false} InsertAtEnd<V>(path: Path, d: nat, sides: seq<Hash<V>>, t: Hash<V>, v: V)
    requires d + |sides| <= |path|
    requires Minimal(Climb(path, d, sides, t), path[..d], |path|)
    requires Minimal(t, path[..d + |sides|], |path|)
    ensures Insert(Climb(path, d, sides, t), d, path, v) == Climb(path, d, sides, Insert(t, d + |sides|, path, v))
    decreases sides
  {
    if sides != [] {
      var on := Climb(path, d + 1, sides[1..], t);
      assert Minimal(on, path[..d + 1], |path|) by {
        assert path[..d] + [path[d]] == path[..d + 1];
      }
      InsertAtEnd(path, d + 1, sides[1..], t, v);
      assert Insert(Climb(path, d, sides, t), d, path, v) == Join(path[d], Insert(on, d + 1, path, v), sides[0]);
    }
  }

  /** Separating two leaves puts placeholders beside their common prefix. */
  lemma {:induction false} SplitIsClimb<V>(leaf: Hash<V>, prior: Hash<V>, d: nat)
    requires leaf.Leaf? && prior.Leaf? && |leaf.path| == |prior.path| && leaf.path != prior.path
    requires d <= CommonPrefix(leaf.path, prior.path)
    ensures var n := CommonPrefix(leaf.path, prior.path);
      Split(leaf, prior, d) == Climb(leaf.path, d, Zeros(n - d), Join(leaf.path[n], leaf, prior))
    decreases |leaf.path| - d
  {
    var n := CommonPrefix(leaf.path, prior.path);
    if d < n {
      assert leaf.path[d] == leaf.path[..n][d] == prior.path[..n][d] == prior.path[d];
      SplitIsClimb(leaf, prior, d + 1);
      assert Zeros<V>(n - d)[1..] == Zeros<V>(n - (d + 1));
    }
  }

  lemma {:induction false} ClimbConcat<V>(path: Path, d: nat, sides: seq<Hash<V>>, more: seq<Hash<V>>, t: Hash<V>)
    requires d + |sides| + |more| <= |path|
    ensures Climb(path, d, sides + more, t) == Climb(path, d, sides, Climb(path, d + |sides|, more, t))
    decreases sides
  {
    if sides == [] {
      assert sides + more == more;
    } else {
      assert (sides + more)[1..] == sides[1..] + more;
      ClimbConcat(path, d + 1, sides[1..], more, t);
    }
  }

  /** The tree after a deletion below the path, collapsing lone leaves on the way up. */
  ghost function CollapseUp<V>(path: Path, d: nat, sides: seq<Hash<V>>, t: Hash<V>): Hash<V>
    requires d + |sides| <= |path|
    decreases sides
  {
    if sides == [] then t else Collapse(path[d], CollapseUp(path, d + 1, sides[1..], t), sides[0])
  }

  lemma {:induction false} CollapseUpSnoc<V>(path: Path, d: nat, sides: seq<Hash<V>>, x: Hash<V>, t: Hash<V>)
    requires d + |sides| < |path|
    ensures CollapseUp(path, d, sides + [x], t) == CollapseUp(path, d, sides, Collapse(path[d + |sides|], t, x))
    decreases sides
  {
    var s := sides + [x];
    if sides == [] {
      assert s[1..] == [];
    } else {
      assert s[1..] == sides[1..] + [x];
      CollapseUpSnoc(path, d + 1, sides[1..], x, t);
    }
  }

  lemma {:induction false} DeleteAtEnd<V>(path: Path, d: nat, sides: seq<Hash<V>>, t: Hash<V>)
    requires d + |sides| <= |path|
    requires Minimal(Climb(path, d, sides, t), path[..d], |path|)
    requires Minimal(t, path[..d + |sides|], |path|)
    ensures Delete(Climb(path, d, sides, t), d, path) == CollapseUp(path, d, sides, Delete(t, d + |sides|, path))
    decreases sides
  {
    if sides != [] {
      var on := Climb(path, d + 1, sides[1..], t);
      assert Minimal(on, path[..d + 1], |path|) by {
        assert path[..d] + [path[d]] == path[..d + 1];
      }
      DeleteAtEnd(path, d + 1, sides[1..], t);
      assert Delete(Climb(path, d, sides, t), d, path) == Collapse(path[d], Delete(on, d + 1, path), sides[0]);
    }
  }

  /** In a minimal tree the sibling of a leaf or of a placeholder is never a placeholder. */
  lemma {:induction false} LastSideStored<V>(path: Path, d: nat, sides: seq<Hash<V>>, t: Hash<V>)
    requires d + |sides| <= |path| && sides != [] && !t.Node?
    requires Minimal(Climb(path, d, sides, t), path[..d], |path|)
    ensures sides[|sides| - 1] in SideSubs(sides)
    ensures sides[|sides| - 1].Leaf? || sides[|sides| - 1].Node?
    decreases sides
  {
    if |sides| > 1 {
      assert path[..d] + [path[d]] == path[..d + 1];
      LastSideStored(path, d + 1, sides[1..], t);
    } else {
      assert Climb(path, d + 1, sides[1..], t) == t;
      assert sides[0] in Subs(sides[0]);
    }
  }
}
