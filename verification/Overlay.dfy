/** The version store under `TreeDB`: each version is a layer of changed values with the root of the
    version it was made from.  A read descends from layer to layer; the root of a version commits to
    the whole map.  This module says when the two agree. */
module Overlay {
  import opened Common
  import opened SmtHash
  import opened SparseMerkle

  type Database<V(==)> = map<Hash<V>, Tree<V>>

  ghost function Lookup<K, V>(m: map<K, V>, k: K): Option<V> {
    if k in m then Some(m[k]) else None
  }

  /** The map behind `layer` differs from that of its parent only in the values of the layer. */
  ghost predicate Coherent<V>(layer: Tree<V>) {
    forall k :: k !in layer.values ==> Lookup(Content(layer.root), k) == Lookup(Content(layer.parent), k)
  }

  /** Every stored layer is a valid tree under its own root, on top of a stored layer or of nothing. */
  ghost predicate Sound<V>(db: Database<V>, depth: nat) {
    forall r :: r in db ==>
      && r != Zero && db[r].root == r && db[r].depth == depth
      && db[r].Valid() && Coherent(db[r])
      && (db[r].parent == Zero || db[r].parent in db)
  }

  /** `rank` shows that no chain of parents comes back to where it started. */
  ghost predicate Acyclic<V>(db: Database<V>, rank: map<Hash<V>, nat>) {
    forall r :: r in db ==>
      && r in rank && db[r].parent != r
      && (db[r].parent in db ==> db[r].parent in rank && rank[db[r].parent] < rank[r])
  }

  ghost predicate Forest<V(!new)>(db: Database<V>) {
    exists rank :: Acyclic(db, rank)
  }

  // ---------------------------------------------------------------- reading by descent

  datatype Read<V> = Found(value: V) | NotFound | Missing | OutOfFuel

  /** The loop of `_get_descend`, cut off after `fuel` rounds: the value, the `None` at a layer that is
      its own parent, or the error at a root that is not stored. */
  ghost function Descend<V>(db: Database<V>, root: Hash<V>, key: Path, fuel: nat): Read<V>
    decreases fuel
  {
    if fuel == 0 then OutOfFuel
    else if root !in db then Missing
    else if key in db[root].values then Found(db[root].values[key])
    else if db[root].parent == root then NotFound
    else Descend(db, db[root].parent, key, fuel - 1)
  }

  /** On an acyclic store the descent ends, and it finds exactly the entries the root commits to. */
  lemma {:induction false} DescentReadsTheMap<V>(db: Database<V>, rank: map<Hash<V>, nat>, depth: nat, root: Hash<V>,
                                                 key: Path, fuel: nat)
    requires Sound(db, depth) && Acyclic(db, rank)
    requires root == Zero || root in db
    requires root in db ==> rank[root] + 1 < fuel
    requires 0 < fuel
    ensures Descend(db, root, key, fuel) == if key in Content(root) then Found(Content(root)[key]) else Missing
    decreases fuel
  {
    if root in db && key !in db[root].values {
      assert Lookup(Content(db[root].root), key) == Lookup(Content(db[root].parent), key);
      DescentReadsTheMap(db, rank, depth, db[root].parent, key, fuel - 1);
    }
  }

  // ---------------------------------------------------------------- storing a version

  /** `TrieCacheDatabase::put` under the root of the layer, which replaces what was stored there. */
  function Put<V(==)>(db: Database<V>, layer: Tree<V>): Database<V> {
    db[layer.root := layer]
  }

  /** The chain of parents from `x` meets `target`. */
  ghost predicate Reaches<V>(db: Database<V>, rank: map<Hash<V>, nat>, x: Hash<V>, target: Hash<V>)
    requires Acyclic(db, rank)
    decreases if x in db then rank[x] + 1 else 0
  {
    x == target || (x in db && Reaches(db, rank, db[x].parent, target))
  }

  /** A root that was never stored is not among the ancestors of a stored version. */
  lemma {:induction false} FreshRootsUnreached<V>(db: Database<V>, rank: map<Hash<V>, nat>, depth: nat, x: Hash<V>, target: Hash<V>)
    requires Sound(db, depth) && Acyclic(db, rank) && target !in db && target != Zero
    requires x == Zero || x in db
    ensures !Reaches(db, rank, x, target)
    decreases if x in db then rank[x] + 1 else 0
  {
    if x in db {
      FreshRootsUnreached(db, rank, depth, db[x].parent, target);
    }
  }

  /** A rank for the store after `layer` has been put under its root: every version that builds on
      that root moves above the new parent. */
  ghost function RankAfter<V>(db: Database<V>, rank: map<Hash<V>, nat>, layer: Tree<V>): map<Hash<V>, nat>
    requires Acyclic(db, rank)
  {
    var shift := if layer.parent in db then rank[layer.parent] + 2 else 1;
    map x | x in db.Keys + {layer.root} ::
      (if x in db then rank[x] + 1 else 0) + if Reaches(db, rank, x, layer.root) then shift else 0
  }

  lemma StoreKeepsAcyclic<V>(db: Database<V>, rank: map<Hash<V>, nat>, layer: Tree<V>)
    requires Acyclic(db, rank) && !Reaches(db, rank, layer.parent, layer.root)
    ensures Acyclic(Put(db, layer), RankAfter(db, rank, layer))
  {
    var db', rank' := Put(db, layer), RankAfter(db, rank, layer);
    forall x | x in db'
      ensures x in rank' && db'[x].parent != x
      ensures db'[x].parent in db' ==> db'[x].parent in rank' && rank'[db'[x].parent] < rank'[x]
    {
      if x != layer.root {
        assert Reaches(db, rank, x, layer.root) <==> Reaches(db, rank, db[x].parent, layer.root);
      }
    }
  }

  lemma {:induction false} RankAboveTarget<V>(db: Database<V>, rank: map<Hash<V>, nat>, x: Hash<V>, layer: Tree<V>,
                                              rank': map<Hash<V>, nat>)
    requires Acyclic(db, rank) && Acyclic(Put(db, layer), rank')
    requires Reaches(db, rank, x, layer.root)
    ensures x in Put(db, layer) && rank'[layer.root] <= rank'[x]
    decreases if x in db then rank[x] + 1 else 0
  {
    if x != layer.root {
      RankAboveTarget(db, rank, db[x].parent, layer, rank');
      assert Put(db, layer)[x] == db[x];
    }
  }

  /** Storing a version keeps the store acyclic exactly when its root is not an ancestor of the version
      it was made from. */
  lemma StoreIsSafeIff<V(!new)>(db: Database<V>, rank: map<Hash<V>, nat>, layer: Tree<V>)
    requires Acyclic(db, rank)
    ensures Forest(Put(db, layer)) <==> !Reaches(db, rank, layer.parent, layer.root)
  {
    if !Reaches(db, rank, layer.parent, layer.root) {
      StoreKeepsAcyclic(db, rank, layer);
    } else {
      forall rank' | Acyclic(Put(db, layer), rank') ensures false {
        assert Put(db, layer)[layer.root] == layer;
        RankAboveTarget(db, rank, layer.parent, layer, rank');
      }
    }
  }

  /** A layer on top of a version never commits to fewer keys, so it is empty only on top of nothing. */
  lemma LayerNotEmpty<V>(layer: Tree<V>, depth: nat)
    requires layer.Valid() && Coherent(layer) && Minimal(layer.parent, [], depth)
    requires layer.root != layer.parent
    ensures layer.root != Zero
  {
    if layer.root == Zero {
      forall k ensures k !in Content(layer.parent) {
        assert Lookup(Content(layer.root), k) == Lookup(Content(layer.parent), k);
      }
      ContentUnder(layer.parent, [], depth);
    }
  }

  lemma StoreKeepsSound<V>(db: Database<V>, depth: nat, layer: Tree<V>)
    requires Sound(db, depth)
    requires layer.Valid() && layer.depth == depth && Coherent(layer) && layer.root != Zero
    requires layer.parent == Zero || layer.parent in db
    ensures Sound(Put(db, layer), depth)
  {
  }

  // ---------------------------------------------------------------- which reads are right

  /** An answer that says what the map says; a missing root and an empty layer both mean absent. */
  ghost predicate Right<V>(r: Read<V>, m: map<Path, V>, key: Path) {
    match r
    case Found(v) => key in m && m[key] == v
    case NotFound => key !in m
    case Missing => key !in m
    case OutOfFuel => false
  }

  /** The read of `key` at `root` ends, with what the root commits to. */
  ghost predicate ReadsRight<V>(db: Database<V>, root: Hash<V>, key: Path) {
    exists fuel :: Right(Descend(db, root, key, fuel), Content(root), key)
  }

  /** No layer between `x` and `target` holds `key`. */
  ghost predicate Silent<V>(db: Database<V>, rank: map<Hash<V>, nat>, x: Hash<V>, target: Hash<V>, key: Path)
    requires Acyclic(db, rank)
    decreases if x in db then rank[x] + 1 else 0
  {
    x != target && x in db ==> key !in db[x].values && Silent(db, rank, db[x].parent, target, key)
  }

  /** The descent from `x` meets `target` before any layer that holds `key`. */
  ghost predicate Passes<V>(db: Database<V>, rank: map<Hash<V>, nat>, x: Hash<V>, target: Hash<V>, key: Path)
    requires Acyclic(db, rank)
  {
    Reaches(db, rank, x, target) && Silent(db, rank, x, target, key)
  }

  /** Putting `layer` into `db` spoils the read of `key` at `x`: the descent comes to the layer, does not
      find the key there, and would come to it again.  Only a layer that is its own parent stops it, with
      the answer that the key is absent. */
  ghost predicate Spoiled<V>(db: Database<V>, rank: map<Hash<V>, nat>, layer: Tree<V>, x: Hash<V>, key: Path)
    requires Acyclic(db, rank)
  {
    && Passes(db, rank, x, layer.root, key) && key !in layer.values
    && Passes(db, rank, layer.parent, layer.root, key)
    && (layer.parent != layer.root || key in Content(layer.root))
  }

  lemma {:induction false} DescentComesBack<V>(db: Database<V>, rank: map<Hash<V>, nat>, x: Hash<V>, layer: Tree<V>,
                                               key: Path, fuel: nat)
    requires Acyclic(db, rank) && key !in layer.values
    requires Passes(db, rank, layer.parent, layer.root, key) && Passes(db, rank, x, layer.root, key)
    ensures var r := Descend(Put(db, layer), x, key, fuel); r == OutOfFuel || (r == NotFound && layer.parent == layer.root)
    decreases fuel
  {
    if fuel > 0 {
      if x == layer.root {
        DescentComesBack(db, rank, layer.parent, layer, key, fuel - 1);
      } else {
        assert Put(db, layer)[x] == db[x];
        DescentComesBack(db, rank, db[x].parent, layer, key, fuel - 1);
      }
    }
  }

  /** A descent that does not meet the new layer is the old one. */
  lemma {:induction false} DescentAvoids<V>(db: Database<V>, rank: map<Hash<V>, nat>, x: Hash<V>, layer: Tree<V>,
                                            key: Path, fuel: nat)
    requires Acyclic(db, rank) && !Reaches(db, rank, x, layer.root)
    ensures Descend(Put(db, layer), x, key, fuel) == Descend(db, x, key, fuel)
    decreases fuel
  {
    if fuel > 0 && x in db {
      DescentAvoids(db, rank, db[x].parent, layer, key, fuel - 1);
    }
  }

  /** One round of the descent. */
  lemma DescendRound<V>(db: Database<V>, root: Hash<V>, key: Path, fuel: nat)
    requires root in db && db[root].parent != root
    ensures Descend(db, root, key, fuel + 1) ==
      if key in db[root].values then Found(db[root].values[key]) else Descend(db, db[root].parent, key, fuel)
  {
  }

  lemma LastRound<V>(db: Database<V>, root: Hash<V>, key: Path)
    requires root in db && (key in db[root].values || db[root].parent == root)
    ensures Descend(db, root, key, 1) == if key in db[root].values then Found(db[root].values[key]) else NotFound
  {
  }

  /** A layer holds values of its own map, and has the others from its parent. */
  lemma LayerSays<V>(layer: Tree<V>, key: Path)
    requires layer.Valid() && Coherent(layer)
    ensures key in layer.values ==> key in Content(layer.root) && Content(layer.root)[key] == layer.values[key]
    ensures key !in layer.values ==> Lookup(Content(layer.root), key) == Lookup(Content(layer.parent), key)
  {
  }

  lemma StoredSays<V>(db: Database<V>, rank: map<Hash<V>, nat>, depth: nat, x: Hash<V>, key: Path)
    requires Sound(db, depth) && Acyclic(db, rank) && x in db
    ensures db[x].parent != x
    ensures key in db[x].values ==> key in Content(x) && Content(x)[key] == db[x].values[key]
    ensures key !in db[x].values ==> Lookup(Content(x), key) == Lookup(Content(db[x].parent), key)
  {
    LayerSays(db[x], key);
  }

  lemma SilentHere<V>(db: Database<V>, rank: map<Hash<V>, nat>, x: Hash<V>, key: Path)
    requires Acyclic(db, rank)
    ensures Silent(db, rank, x, x, key)
  {
  }

  lemma SilentFurther<V>(db: Database<V>, rank: map<Hash<V>, nat>, x: Hash<V>, layer: Tree<V>, key: Path)
    requires Acyclic(db, rank) && x in db && x != layer.root && Reaches(db, rank, x, layer.root)
    ensures x in Put(db, layer) && Put(db, layer)[x] == db[x] && x in rank
    ensures Reaches(db, rank, db[x].parent, layer.root)
    ensures db[x].parent in db ==> db[x].parent in rank && rank[db[x].parent] < rank[x]
    ensures Silent(db, rank, x, layer.root, key) <==> key !in db[x].values && Silent(db, rank, db[x].parent, layer.root, key)
  {
  }

  lemma ReachesStored<V>(db: Database<V>, rank: map<Hash<V>, nat>, x: Hash<V>, target: Hash<V>)
    requires Acyclic(db, rank) && x != target && Reaches(db, rank, x, target)
    ensures x in db && x in rank
  {
  }

  /** A descent that meets it goes on there after `n` rounds, or has found its value by then. */
  lemma {:induction false} DescentMeets<V>(db: Database<V>, rank: map<Hash<V>, nat>, depth: nat, x: Hash<V>, layer: Tree<V>,
                                           key: Path, fuel: nat)
    returns (n: nat)
    requires Sound(db, depth) && Acyclic(db, rank) && Reaches(db, rank, x, layer.root)
    ensures Silent(db, rank, x, layer.root, key) ==>
      && Lookup(Content(x), key) == Lookup(Content(layer.root), key)
      && Descend(Put(db, layer), x, key, n + fuel) == Descend(Put(db, layer), layer.root, key, fuel)
    ensures !Silent(db, rank, x, layer.root, key) ==>
      key in Content(x) && Descend(Put(db, layer), x, key, n) == Found(Content(x)[key])
    decreases if x in db then rank[x] + 1 else 0
  {
    hide Descend, Content, Sound, Acyclic, Reaches, Silent, Put;
    if x == layer.root {
      n := 0;
      SilentHere(db, rank, x, key);
    } else {
      ReachesStored(db, rank, x, layer.root);
      StoredSays(db, rank, depth, x, key);
      SilentFurther(db, rank, x, layer, key);
      if key in db[x].values {
        n := 1;
        DescendRound(Put(db, layer), x, key, 0);
      } else {
        var k := DescentMeets(db, rank, depth, db[x].parent, layer, key, fuel);
        n := k + 1;
        DescendRound(Put(db, layer), x, key, k + fuel);
        DescendRound(Put(db, layer), x, key, k);
      }
    }
  }

  lemma RightBy<V>(db: Database<V>, root: Hash<V>, key: Path, fuel: nat)
    requires Right(Descend(db, root, key, fuel), Content(root), key)
    ensures ReadsRight(db, root, key)
  {
  }

  lemma ForestReadsRight<V>(db: Database<V>, rank: map<Hash<V>, nat>, depth: nat, x: Hash<V>, key: Path)
    requires Sound(db, depth) && Acyclic(db, rank) && (x == Zero || x in db)
    ensures ReadsRight(db, x, key)
  {
    var fuel := if x in db then rank[x] + 2 else 1;
    DescentReadsTheMap(db, rank, depth, x, key, fuel);
    RightBy(db, x, key, fuel);
  }

  /** What the new layer answers for a key it holds, or one found further down before it comes round. */
  lemma LayerReadsRight<V>(db: Database<V>, rank: map<Hash<V>, nat>, depth: nat, layer: Tree<V>, key: Path) returns (n: nat)
    requires Sound(db, depth) && Acyclic(db, rank) && layer.Valid() && Coherent(layer)
    requires Reaches(db, rank, layer.parent, layer.root) && !Spoiled(db, rank, layer, layer.root, key)
    ensures Right(Descend(Put(db, layer), layer.root, key, n), Content(layer.root), key)
  {
    hide Descend, Content, Sound, Coherent, Acyclic;
    LayerSays(layer, key);
    if key in layer.values || layer.parent == layer.root {
      n := 1;
      LastRound(Put(db, layer), layer.root, key);
    } else {
      var k := DescentMeets(db, rank, depth, layer.parent, layer, key, 0);
      n := k + 1;
      DescendRound(Put(db, layer), layer.root, key, k);
    }
  }

  lemma SpoiledReadsWrong<V>(db: Database<V>, rank: map<Hash<V>, nat>, depth: nat, layer: Tree<V>, x: Hash<V>, key: Path, fuel: nat)
    requires Sound(db, depth) && Acyclic(db, rank) && Spoiled(db, rank, layer, x, key)
    ensures !Right(Descend(Put(db, layer), x, key, fuel), Content(x), key)
  {
    hide Descend, Content, Sound, Reaches, Silent;
    var n := DescentMeets(db, rank, depth, x, layer, key, 0);
    DescentComesBack(db, rank, x, layer, key, fuel);
  }

  /** Exactly: after `layer` has been put under its root, the read of a key at a version ends with what the
      version commits to if and only if the layer does not spoil it. */
  lemma ReadsRightIff<V>(db: Database<V>, rank: map<Hash<V>, nat>, depth: nat, layer: Tree<V>, x: Hash<V>, key: Path)
    requires Sound(db, depth) && Acyclic(db, rank)
    requires layer.Valid() && layer.depth == depth && Coherent(layer) && layer.root != Zero
    requires layer.parent == Zero || layer.parent in db
    requires x == Zero || x in Put(db, layer)
    ensures ReadsRight(Put(db, layer), x, key) <==> !Spoiled(db, rank, layer, x, key)
  {
    hide Descend, Content, Sound, Coherent, Reaches, Silent, Acyclic;
    if Spoiled(db, rank, layer, x, key) {
      forall fuel ensures !Right(Descend(Put(db, layer), x, key, fuel), Content(x), key) {
        SpoiledReadsWrong(db, rank, depth, layer, x, key, fuel);
      }
    } else if !Reaches(db, rank, layer.parent, layer.root) {
      StoreKeepsSound(db, depth, layer);
      StoreKeepsAcyclic(db, rank, layer);
      ForestReadsRight(Put(db, layer), RankAfter(db, rank, layer), depth, x, key);
    } else if !Reaches(db, rank, x, layer.root) {
      AvoidingReadsRight(db, rank, depth, layer, x, key);
    } else {
      MeetingReadsRight(db, rank, depth, layer, x, key);
    }
  }

  lemma AvoidingReadsRight<V>(db: Database<V>, rank: map<Hash<V>, nat>, depth: nat, layer: Tree<V>, x: Hash<V>, key: Path)
    requires Sound(db, depth) && Acyclic(db, rank) && !Reaches(db, rank, x, layer.root) && (x == Zero || x in Put(db, layer))
    ensures ReadsRight(Put(db, layer), x, key)
  {
    var fuel := if x in db then rank[x] + 2 else 1;
    DescentReadsTheMap(db, rank, depth, x, key, fuel);
    DescentAvoids(db, rank, x, layer, key, fuel);
    RightBy(Put(db, layer), x, key, fuel);
  }

  lemma MeetingReadsRight<V>(db: Database<V>, rank: map<Hash<V>, nat>, depth: nat, layer: Tree<V>, x: Hash<V>, key: Path)
    requires Sound(db, depth) && Acyclic(db, rank) && layer.Valid() && Coherent(layer)
    requires Reaches(db, rank, layer.parent, layer.root) && Reaches(db, rank, x, layer.root)
    requires !Spoiled(db, rank, layer, x, key)
    ensures ReadsRight(Put(db, layer), x, key)
  {
    hide Descend, Content, Sound, Coherent;
    if Silent(db, rank, x, layer.root, key) {
      var k := LayerReadsRight(db, rank, depth, layer, key);
      var n := DescentMeets(db, rank, depth, x, layer, key, k);
      RightBy(Put(db, layer), x, key, n + k);
    } else {
      var n := DescentMeets(db, rank, depth, x, layer, key, 0);
      RightBy(Put(db, layer), x, key, n);
    }
  }

  /** Putting `layer` into `db` leaves right exactly the reads it does not spoil, at every version. */
  ghost predicate SpoilsExactly<V>(db: Database<V>, rank: map<Hash<V>, nat>, layer: Tree<V>)
    requires Acyclic(db, rank)
  {
    forall x, key :: x in Put(db, layer) ==> (ReadsRight(Put(db, layer), x, key) <==> !Spoiled(db, rank, layer, x, key))
  }

  /** Storing a layer that was built on a stored version. */
  lemma StoreVersion<V(!new)>(db: Database<V>, rank: map<Hash<V>, nat>, depth: nat, layer: Tree<V>)
    returns (rank': map<Hash<V>, nat>)
    requires Sound(db, depth) && Acyclic(db, rank)
    requires layer.Valid() && layer.depth == depth && Coherent(layer) && layer.root != Zero
    requires layer.parent == Zero || layer.parent in db
    ensures Sound(Put(db, layer), depth)
    ensures !Reaches(db, rank, layer.parent, layer.root) ==> Acyclic(Put(db, layer), rank')
    ensures Forest(Put(db, layer)) <==> !Reaches(db, rank, layer.parent, layer.root)
    ensures SpoilsExactly(db, rank, layer)
  {
    hide Sound, Acyclic, Reaches, Coherent, Forest, ReadsRight, Spoiled;
    StoreKeepsSound(db, depth, layer);
    StoreIsSafeIff(db, rank, layer);
    rank' := rank;
    if !Reaches(db, rank, layer.parent, layer.root) {
      StoreKeepsAcyclic(db, rank, layer);
      rank' := RankAfter(db, rank, layer);
    }
    forall x, key | x in Put(db, layer)
      ensures ReadsRight(Put(db, layer), x, key) <==> !Spoiled(db, rank, layer, x, key)
    {
      ReadsRightIff(db, rank, depth, layer, x, key);
    }
  }
}
