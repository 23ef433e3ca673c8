/** `TreeDB`: a committed head, a staging tree on top of it, and the stored versions. */
module TreeDb {
  import opened Common
  import opened SmtHash
  import opened SmtSpec
  import opened SparseMerkle
  import opened Overlay

  /** What a key is set to; deletion is recorded as a value, so the tree never shrinks. */
  datatype IValue<+A> = Deleted | Value(value: A)

  datatype DbError = RootNotFound

  /** What a reader sees of a map with deletion marks. */
  ghost function Visible<A>(m: map<Path, IValue<A>>, key: Path): Option<A> {
    if key in m && m[key].Value? then Some(m[key].value) else None
  }

  /** `None` and an error both mean that the key is absent. */
  ghost predicate Reads<A>(r: Result<Option<A>, DbError>, seen: Option<A>) {
    match r
    case Ok(v) => v == seen
    case Err(_) => seen == None
  }

  /** A batch collected into a hash map: the last entry of a key wins. */
  ghost function BatchMap<A>(batch: seq<(Path, IValue<A>)>): map<Path, IValue<A>> {
    if batch == [] then map[] else BatchMap(batch[..|batch| - 1])[batch[|batch| - 1].0 := batch[|batch| - 1].1]
  }

  ghost function Without<K, V>(m: map<K, V>, keys: set<K>): map<K, V> {
    map k | k in m && k !in keys :: m[k]
  }

  /** Setting a key keeps a layer on top of its parent. */
  lemma NextIsCoherent<V>(t: Tree<V>, op: Op<V>)
    requires t.Valid() && Coherent(t) && |op.path| == t.depth && op.value.Some?
    ensures Coherent(Next(t, op)) && Next(t, op).parent == t.parent && Next(t, op).depth == t.depth
  {
    NextIsValid(t, op);
    forall k | k !in Next(t, op).values
      ensures Lookup(Content(Next(t, op).root), k) == Lookup(Content(t.parent), k)
    {
      assert Lookup(Content(t.root), k) == Lookup(Content(t.parent), k);
    }
  }

  /** Every stored version answers reads with the map whose canonical root it is stored under. */
  lemma VersionsAreCanonical<V>(db: Database<V>, rank: map<Hash<V>, nat>, depth: nat, root: Hash<V>, key: Path)
    requires Sound(db, depth) && Acyclic(db, rank) && root in db
    ensures root == CanonicalRoot(Content(root), 0, depth)
    ensures Descend(db, root, key, rank[root] + 2) == if key in Content(root) then Found(Content(root)[key]) else Missing
  {
    MinimalIsCanonical(root, [], depth);
    DescentReadsTheMap(db, rank, depth, root, key, rank[root] + 2);
  }

  lemma BatchStep<V>(base: map<Path, V>, changes: map<Path, V>, left: set<Path>, k: Path)
    requires k in left && k in changes
    ensures (base + Without(changes, left))[k := changes[k]] == base + Without(changes, left - {k})
  {
  }

  /** Collecting a batch into a hash map. */
  method Collect<A(==)>(batch: seq<(Path, IValue<A>)>) returns (changes: map<Path, IValue<A>>)
    ensures changes == BatchMap(batch)
    ensures forall k :: k in changes ==> exists i :: 0 <= i < |batch| && batch[i].0 == k
  {
    changes := map[];
    for i := 0 to |batch|
      invariant changes == BatchMap(batch[..i])
      invariant forall k :: k in changes ==> exists j :: 0 <= j < i && batch[j].0 == k
    {
      assert batch[..i + 1][..i] == batch[..i];
      changes := changes[batch[i].0 := batch[i].1];
    }
    assert batch[..|batch|] == batch;
  }

  /** The update loop shared by `apply` and `apply_non_commit`: the batch is collected into a hash map
      and its entries are applied in any order. */
  method ApplyBatch<A(==)>(t: Tree<IValue<A>>, batch: seq<(Path, IValue<A>)>) returns (t': Tree<IValue<A>>)
    requires t.Valid() && Coherent(t) && forall i :: 0 <= i < |batch| ==> |batch[i].0| == t.depth
    ensures t'.Valid() && Coherent(t') && t'.parent == t.parent && t'.depth == t.depth
    ensures Content(t'.root) == Content(t.root) + BatchMap(batch)
  {
    hide Minimal, Content, Subs, StoreOf, Coherent, Next, BatchMap;
    var tree := new SparseMerkleTree<IValue<A>>.FromView(t);
    var changes := Collect(batch);
    var left := changes.Keys;
    ghost var base := Content(t.root);
    assert base + Without(changes, left) == base;
    while left != {}
      invariant left <= changes.Keys && tree.depth == t.depth && fresh(tree)
      invariant tree.View().Valid() && Coherent(tree.View()) && tree.parent == t.parent
      invariant Content(tree.root) == base + Without(changes, left)
      decreases left
    {
      var k :| k in left;
      NextIsValid(tree.View(), Op(k, Some(changes[k])));
      NextIsCoherent(tree.View(), Op(k, Some(changes[k])));
      BatchStep(base, changes, left, k);
      var updated := tree.Update(k, Some(changes[k]));
      left := left - {k};
    }
    assert Without(changes, left) == changes;
    return tree.View();
  }

  /** `subtree` with no imported keys: an empty layer on top of `head`. */
  method LayerOn<V(==)>(head: Tree<V>) returns (t: Tree<V>)
    requires head.Valid()
    ensures t == Tree(head.depth, head.nodes, map[], head.root, head.root)
    ensures t.Valid() && Coherent(t)
  {
    var h := new SparseMerkleTree<V>.FromView(head);
    var layer := h.Subtree(Partial, []);
    assert Restrict(head.values, []) == map[];
    return layer.value.View();
  }

  /** The head is a stored version or the empty tree, and `staging` is a layer on top of it. */
  ghost predicate Positioned<V>(db: Database<V>, depth: nat, head: Tree<V>, staging: Tree<V>) {
    && head.Valid() && head.depth == depth && (head.root == Zero || head.root in db)
    && staging.Valid() && staging.depth == depth && staging.parent == head.root && Coherent(staging)
  }

  lemma CommitKeeps<V(!new)>(db: Database<V>, rank: map<Hash<V>, nat>, depth: nat, head: Tree<V>, staging: Tree<V>)
    returns (rank': map<Hash<V>, nat>)
    requires Sound(db, depth) && Acyclic(db, rank) && Positioned(db, depth, head, staging) && head.root != staging.root
    ensures Sound(Put(db, staging), depth) && staging.root in Put(db, staging)
    ensures !Reaches(db, rank, head.root, staging.root) ==> Acyclic(Put(db, staging), rank')
    ensures Forest(Put(db, staging)) <==> !Reaches(db, rank, head.root, staging.root)
    ensures SpoilsExactly(db, rank, staging)
  {
    LayerNotEmpty(staging, depth);
    rank' := StoreVersion(db, rank, depth, staging);
  }

  class TreeDB<A(==,!new)> {
    const depth: nat
    var db: Database<IValue<A>>
    var head: Tree<IValue<A>>
    var staging: Tree<IValue<A>>
    ghost var rank: map<Hash<IValue<A>>, nat>

    /** The stored versions form a forest, the head is one of them or the empty tree, and the staging
        tree is a layer on top of the head. */
    ghost predicate Valid()
      reads this
    {
      && Sound(db, depth) && Acyclic(db, rank)
      && Positioned(db, depth, head, staging)
    }

    /** The map of the staged version. */
    ghost function Staged(): map<Path, IValue<A>>
      reads this
    {
      Content(staging.root)
    }

    constructor (depth: nat)
      ensures Valid() && db == map[] && Staged() == map[] && this.depth == depth
      ensures head == staging == Tree(depth, map[], map[], Zero, Zero)
    {
      this.depth := depth;
      db := map[];
      var empty := new SparseMerkleTree<IValue<A>>(depth);
      head, staging := empty.View(), empty.View();
      rank := map[];
    }

    /** `put` (`Value`) and `delete` (`Deleted`) */
    method Set(key: Path, value: IValue<A>)
      requires Valid() && |key| == depth
      modifies this`staging
      ensures Valid() && Staged() == old(Staged())[key := value]
      ensures staging == Next(old(staging), Op(key, Some(value)))
    {
      hide Minimal, Content, Subs, StoreOf, Coherent, Next, Sound, Acyclic;
      NextIsValid(staging, Op(key, Some(value)));
      NextIsCoherent(staging, Op(key, Some(value)));
      var t := new SparseMerkleTree<IValue<A>>.FromView(staging);
      var r := t.Update(key, Some(value));
      staging := t.View();
    }

    /** `commit(true)`.  The stored versions stay a forest exactly when the committed root is not an
        ancestor of the head it was staged on, and the reads that go wrong otherwise are exactly those
        that the layer spoils. */
    method Commit() returns (root: Hash<IValue<A>>)
      requires Valid()
      modifies this
      ensures root == old(staging.root) && head.root == root && staging.root == root
      ensures old(head.root) == root ==> db == old(db) && head == old(head) && staging == old(staging) && Valid()
      ensures old(head.root) != root ==>
        && db == Put(old(db), old(staging)) && head == old(staging)
        && staging == Tree(depth, head.nodes, map[], root, root)
        && (!Reaches(old(db), old(rank), old(head.root), root) ==> Valid())
        && (Forest(db) <==> !Reaches(old(db), old(rank), old(head.root), root))
        && SpoilsExactly(old(db), old(rank), old(staging))
    {
      hide Reaches, Forest, SpoilsExactly;
      if head.root != staging.root {
        Advance();
      }
      return head.root;
    }

    /** Stores the staged version, makes it the head and stages an empty layer on top of it. */
    method Advance()
      requires Valid() && head.root != staging.root
      modifies this
      ensures db == Put(old(db), old(staging)) && head == old(staging)
      ensures staging == Tree(depth, head.nodes, map[], head.root, head.root)
      ensures !Reaches(old(db), old(rank), old(head.root), head.root) ==> Valid()
      ensures Forest(db) <==> !Reaches(old(db), old(rank), old(head.root), head.root)
      ensures SpoilsExactly(old(db), old(rank), old(staging))
    {
      hide Minimal, Content, Subs, StoreOf, Sound, Acyclic, Forest, Reaches, Coherent, SpoilsExactly;
      ghost var rank' := CommitKeeps(db, rank, depth, head, staging);
      var layer := LayerOn(staging);
      rank, db, head, staging := rank', Put(db, staging), staging, layer;
    }

    method Rollback()
      requires Valid()
      modifies this`staging
      ensures Valid() && Staged() == Content(head.root)
      ensures staging == Tree(depth, head.nodes, map[], head.root, head.root)
    {
      staging := LayerOn(head);
    }

    method Reset(root: Hash<IValue<A>>) returns (r: Result<(), DbError>)
      requires Valid()
      modifies this`head, this`staging
      ensures r.Ok? <==> root in db
      ensures Valid()
      ensures if r.Ok? then head == db[root] && head.root == root && Staged() == Content(root)
              else head == old(head) && staging == old(staging)
      ensures r.Ok? ==> staging == Tree(depth, head.nodes, map[], root, root)
    {
      if root !in db {
        return Err(RootNotFound);
      }
      head := db[root];
      staging := LayerOn(head);
      return Ok(());
    }

    /** `_get_descend`: `None` stands for the empty byte string. */
    method DescendFrom(key: Path, from: Hash<IValue<A>>) returns (r: Result<Option<IValue<A>>, DbError>)
      requires Valid() && |key| == depth && (from == Zero || from in db)
      ensures key in Content(from) ==> r == Ok(Some(Content(from)[key]))
      ensures key !in Content(from) ==> r == Err(RootNotFound)
    {
      var root := from;
      while true
        invariant root == Zero || root in db
        invariant Lookup(Content(from), key) == Lookup(Content(root), key)
        decreases if root in db then rank[root] + 1 else 0
      {
        if root !in db {
          return Err(RootNotFound);
        }
        var tree := db[root];
        var value := if tree.root.Zero? || key !in tree.values then None else Some(tree.values[key]);
        if value.None? && tree.root != tree.parent {
          root := tree.parent;
          continue;
        } else if value.None? && tree.root == tree.parent {
          return Ok(None);
        }
        return Ok(value);
      }
      assert false;
    }

    /** `get`: reads the staged version. */
    method Get(key: Path) returns (r: Result<Option<A>, DbError>)
      requires Valid() && |key| == depth
      ensures Reads(r, Visible(Staged(), key))
      ensures r == if key in Staged() then Ok(Visible(Staged(), key)) else Err(RootNotFound)
    {
      var value := if staging.root.Zero? || key !in staging.values then None else Some(staging.values[key]);
      if value.None? {
        var below := DescendFrom(key, head.root);
        if below.Err? {
          return Err(below.error);
        }
        if below.value.None? {
          return Ok(None);
        }
        value := below.value;
      }
      return Ok(if value.value.Value? then Some(value.value.value) else None);
    }

    /** `get_at_root`: reads a stored version. */
    method GetAtRoot(root: Hash<IValue<A>>, key: Path) returns (r: Result<Option<A>, DbError>)
      requires Valid() && |key| == depth
      ensures root !in db ==> r == Err(RootNotFound)
      ensures root in db ==> Reads(r, Visible(Content(root), key))
      ensures root in db ==> r == if key in Content(root) then Ok(Visible(Content(root), key)) else Err(RootNotFound)
    {
      if root !in db {
        return Err(RootNotFound);
      }
      var tree := db[root];
      var value := if tree.root.Zero? || key !in tree.values then None else Some(tree.values[key]);
      if value.None? {
        var below := DescendFrom(key, tree.root);
        if below.Err? {
          return Err(below.error);
        }
        if below.value.None? {
          return Ok(None);
        }
        value := below.value;
      }
      return Ok(if value.value.Value? then Some(value.value.value) else None);
    }

    /** `apply_non_commit`: a version next to `atRoot`, with the parent of `atRoot` and its values
        overlaid by the batch, in whatever order the hash map yields it. */
    method ApplyNonCommit(atRoot: Hash<IValue<A>>, batch: seq<(Path, IValue<A>)>) returns (r: Result<Hash<IValue<A>>, DbError>)
      requires Valid() && forall i :: 0 <= i < |batch| ==> |batch[i].0| == depth
      modifies this`db, this`rank
      ensures r.Ok? <==> atRoot in old(db)
      ensures r.Err? ==> db == old(db) && Valid()
      ensures r.Ok? ==> Minimal(r.value, [], depth) && Content(r.value) == Content(atRoot) + BatchMap(batch)
      ensures r.Ok? ==> r.value in db && db == Put(old(db), db[r.value]) && db[r.value].parent == old(db)[atRoot].parent
      ensures r.Ok? ==> db[r.value].root == r.value
      ensures r.Ok? && !Reaches(old(db), old(rank), old(db)[atRoot].parent, r.value) ==> Valid()
      ensures r.Ok? ==> (Forest(db) <==> !Reaches(old(db), old(rank), old(db)[atRoot].parent, r.value))
      ensures r.Ok? ==> SpoilsExactly(old(db), old(rank), db[r.value])
    {
      hide SpoilsExactly, Reaches, Forest;
      if atRoot !in db {
        return Err(RootNotFound);
      }
      var layer := ApplyBatch(db[atRoot], batch);
      assert layer.root != Zero by {
        ContentUnder(atRoot, [], depth);
      }
      rank := StoreVersion(db, rank, depth, layer);
      db := Put(db, layer);
      return Ok(layer.root);
    }
  }

  // ---------------------------------------------------------------- a run that spoils reads

  /** A layer that sets one key on top of versions that hold no other. */
  lemma OneKeyLayer<A>(t: Tree<IValue<A>>, key: Path, value: IValue<A>)
    requires t.Valid() && |key| == t.depth && t.values == map[] && Lookup(Content(t.root), key) != Some(value)
    ensures Next(t, Op(key, Some(value))).values == map[key := value]
    ensures Next(t, Op(key, Some(value))).parent == t.parent
  {
    hide Insert, Subs, StoreOf, Minimal;
  }

  /** One key set to a value it did not have, and a commit. */
  method SetAndCommit<A(==,!new)>(t: TreeDB<A>, key: Path, value: IValue<A>)
    returns (root: Hash<IValue<A>>, ghost layer: Tree<IValue<A>>)
    requires t.Valid() && |key| == t.depth && t.staging.values == map[] && t.staging.root == t.head.root
    requires Content(t.head.root).Keys <= {key} && Lookup(Content(t.head.root), key) != Some(value)
    modifies t
    ensures layer.root == root && layer.parent == old(t.head.root) && layer.values == map[key := value]
    ensures Content(root) == map[key := value] && Minimal(root, [], t.depth)
    ensures t.db == Put(old(t.db), layer) && t.head.root == t.staging.root == root && t.staging.values == map[]
    ensures !Reaches(old(t.db), old(t.rank), layer.parent, root) ==> t.Valid()
    ensures Forest(t.db) <==> !Reaches(old(t.db), old(t.rank), layer.parent, root)
    ensures SpoilsExactly(old(t.db), old(t.rank), layer)
  {
    hide Content, Subs, StoreOf, Sound, Coherent, Insert, Next, Forest, SpoilsExactly, Reaches, Minimal, Acyclic;
    OneKeyLayer(t.staging, key, value);
    t.Set(key, value);
    layer := t.staging;
    assert t.Staged() == map[key := value];
    root := t.Commit();
  }

  lemma NothingStored<V>()
    ensures Content<V>(Zero) == map[]
  {
  }

  lemma FirstIsFresh<V>(rank: map<Hash<V>, nat>, root: Hash<V>)
    requires root != Zero
    ensures Acyclic(map[], rank) && !Reaches(map[], rank, Zero, root)
  {
  }

  lemma SecondIsFresh<V>(rank: map<Hash<V>, nat>, first: Tree<V>, root: Hash<V>)
    requires Acyclic(Put(map[], first), rank) && first.parent == Zero && first.root != root && root != Zero && first.root != Zero
    ensures !Reaches(Put(map[], first), rank, first.root, root)
  {
    var db := Put(map[], first);
    assert !Reaches(db, rank, Zero, root);
  }

  lemma ThirdComesBack<V>(rank: map<Hash<V>, nat>, first: Tree<V>, second: Tree<V>, other: Path)
    requires Acyclic(Put(Put(map[], first), second), rank) && second.parent == first.root && second.root != first.root
    requires other !in second.values
    ensures Passes(Put(Put(map[], first), second), rank, second.root, first.root, other)
    ensures Passes(Put(Put(map[], first), second), rank, first.root, first.root, other)
  {
    var db := Put(Put(map[], first), second);
    assert db[second.root] == second;
    assert Reaches(db, rank, first.root, first.root) && Silent(db, rank, first.root, first.root, other);
  }

  /** Setting a key to one value, to another and to the first again, with a commit each time, stores the
      first root on top of the second: reading any other key does not end. */
  method RecommitLoops<A(==,!new)>(depth: nat, key: Path, other: Path, a: A, b: A) returns (t: TreeDB<A>)
    requires |key| == depth && other != key && a != b
    ensures !Forest(t.db)
    ensures forall fuel :: Descend(t.db, t.head.root, other, fuel) == OutOfFuel
  {
    hide Minimal, Content, Forest, SpoilsExactly, Descend, Reaches, Silent, Acyclic, Sound, Coherent, Put, Positioned;
    t := new TreeDB<A>(depth);
    NothingStored<IValue<A>>();
    ghost var rank0 := t.rank;
    var first, l1 := SetAndCommit(t, key, Value(a));
    FirstIsFresh(rank0, first);
    ghost var rank1 := t.rank;
    var second, l2 := SetAndCommit(t, key, Value(b));
    SecondIsFresh(rank1, l1, second);
    ghost var db, rank := t.db, t.rank;
    var third, layer := SetAndCommit(t, key, Value(a));
    RootsAndMaps(first, third, depth);
    ThirdComesBack(rank, l1, l2, other);
    forall fuel ensures Descend(t.db, third, other, fuel) == OutOfFuel {
      DescentComesBack(db, rank, third, layer, other, fuel);
    }
  }
}
