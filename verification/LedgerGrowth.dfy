/** Blocks only ever raise the accounts, in an order of their own, so no block comes back to the accounts
    of an earlier version. */
module LedgerGrowth {
  import opened Common
  import opened SmtHash
  import SparseMerkle
  import opened Overlay
  import opened TreeDb
  import opened Ledger
  import opened LedgerBlocks

  // ---------------------------------------------------------------- the order

  ghost function NonceAt(m: Accounts, p: Path): nat {
    if Visible(m, p).Some? then Visible(m, p).value.nonce else 0
  }

  ghost function FreeAt(m: Accounts, p: Path): nat {
    if Visible(m, p).Some? then Visible(m, p).value.free else 0
  }

  /** No nonce falls. */
  ghost predicate NoncesKept(m: Accounts, m': Accounts) {
    forall p :: NonceAt(m, p) <= NonceAt(m', p)
  }

  ghost predicate FreesKept(m: Accounts, m': Accounts) {
    forall p :: FreeAt(m, p) <= FreeAt(m', p)
  }

  /** No nonce falls and one rises, or none does and no balance falls and one rises. */
  ghost predicate Grows(m: Accounts, m': Accounts) {
    && NoncesKept(m, m')
    && ((exists p :: NonceAt(m, p) < NonceAt(m', p)) || (FreesKept(m, m') && exists p :: FreeAt(m, p) < FreeAt(m', p)))
  }

  lemma NeverOntoItself(m: Accounts, m': Accounts)
    requires Grows(m, m')
    ensures !Grows(m', m) && m != m'
  {
    hide NonceAt, FreeAt;
    if p :| NonceAt(m, p) < NonceAt(m', p) {
    } else {
      assert forall p :: NonceAt(m, p) == NonceAt(m', p);
      var p :| FreeAt(m, p) < FreeAt(m', p);
    }
  }

  lemma GrowsOn(a: Accounts, b: Accounts, c: Accounts)
    requires Grows(a, b) && Grows(b, c)
    ensures Grows(a, c)
  {
    hide NonceAt, FreeAt;
    assert NoncesKept(a, c) by {
      assert forall p :: NonceAt(a, p) <= NonceAt(b, p) <= NonceAt(c, p);
    }
    if p :| NonceAt(a, p) < NonceAt(b, p) {
      assert NonceAt(b, p) <= NonceAt(c, p);
    } else if p :| NonceAt(b, p) < NonceAt(c, p) {
      assert NonceAt(a, p) <= NonceAt(b, p);
    } else {
      assert forall p :: FreeAt(a, p) <= FreeAt(b, p) <= FreeAt(c, p);
      var p :| FreeAt(a, p) < FreeAt(b, p);
      assert FreeAt(b, p) <= FreeAt(c, p);
    }
  }

  // ---------------------------------------------------------------- the stored versions

  type Versions = Database<IValue<AccountState>>

  type Root = Hash<IValue<AccountState>>

  /** Every stored version grew out of its parent. */
  ghost predicate Growing(db: Versions) {
    forall r :: r in db ==> Grows(Content(db[r].parent), Content(r))
  }

  lemma {:induction false} AncestorsAreLess(db: Versions, rank: map<Root, nat>, x: Root, target: Root)
    requires Growing(db) && Acyclic(db, rank) && Reaches(db, rank, x, target)
    ensures x == target || Grows(Content(target), Content(x))
    decreases if x in db then rank[x] + 1 else 0
  {
    hide Grows, Content;
    if x != target {
      AncestorsAreLess(db, rank, db[x].parent, target);
      if db[x].parent != target {
        GrowsOn(Content(target), Content(db[x].parent), Content(x));
      }
    }
  }

  /** A version that grew out of what it is stored on is not one of its ancestors, so storing it leaves no
      cycle. */
  lemma GrowthIsFresh(db: Versions, rank: map<Root, nat>, layer: SparseMerkle.Tree<IValue<AccountState>>)
    requires Growing(db) && Acyclic(db, rank) && Grows(Content(layer.parent), Content(layer.root))
    ensures !Reaches(db, rank, layer.parent, layer.root) && Growing(Put(db, layer))
  {
    hide Grows, Content, Reaches;
    NeverOntoItself(Content(layer.parent), Content(layer.root));
    if Reaches(db, rank, layer.parent, layer.root) {
      AncestorsAreLess(db, rank, layer.parent, layer.root);
    }
  }

  // ---------------------------------------------------------------- a block

  /** Nonces and balances stay inside 64 bits over the block, the reward is positive, and no two accounts
      share a path. */
  ghost predicate Roomy(m: Accounts, path: Address -> Path, txs: seq<Tx>, coinbase: Address, reward: u64) {
    var names := Names(txs) + {coinbase};
    && (forall a, b :: a in names && b in names && path(a) == path(b) ==> a == b)
    && (forall a :: a in Names(txs) ==> NoncesFit(AccountOrNew(m, path(a)).nonce, txs))
    && (forall a :: a in Names(txs) ==> AccountOrNew(m, path(a)).free + Received(a, Schedule(txs)) < U64)
    && 0 < reward && AccountOrNew(m, path(coinbase)).free + reward < U64
  }

  ghost function Applied(m: Accounts, path: Address -> Path, txs: seq<Tx>): Accounts
    requires EndStates(m, path, txs).Ok?
  {
    m + BatchMap(Writes(EndStates(m, path, txs).value, path))
  }

  /** What the block does to one of its accounts. */
  lemma NamedRises(m: Accounts, path: Address -> Path, txs: seq<Tx>, coinbase: Address, reward: u64, a: Address)
    requires EndStates(m, path, txs).Ok? && Roomy(m, path, txs, coinbase, reward) && a in Names(txs)
    ensures NonceAt(m, path(a)) + SentBy(a, Schedule(txs)) <= NonceAt(Applied(m, path, txs), path(a))
    ensures SentBy(a, Schedule(txs)) == 0 ==> FreeAt(m, path(a)) <= FreeAt(Applied(m, path, txs), path(a))
  {
    hide ApplyAll, Schedule, Names, SentBy, Received, Spent, NonceAfter, Entries, BatchMap, NoncesFit;
    var start, s := StartStates(m, path, txs), Schedule(txs);
    ScheduleIsNamed(txs);
    AppliedAccount(m, path, txs, a);
    AccountAfter(start, s, a);
    ScheduleFits(start[a].nonce, txs);
    NonceComesBackIff(start, s, a);
    if SentBy(a, s) == 0 {
      NothingSentBy(start[a].nonce, s, a);
    }
  }

  lemma AppliedKeepsNonces(m: Accounts, path: Address -> Path, txs: seq<Tx>, coinbase: Address, reward: u64)
    requires EndStates(m, path, txs).Ok? && Roomy(m, path, txs, coinbase, reward)
    ensures NoncesKept(m, Applied(m, path, txs))
  {
    hide EndStates, Names, Roomy, Applied, NonceAt, FreeAt, SentBy;
    forall p ensures NonceAt(m, p) <= NonceAt(Applied(m, path, txs), p) {
      if a :| a in Names(txs) && path(a) == p {
        NamedRises(m, path, txs, coinbase, reward, a);
      } else {
        ElsewhereStays(m, path, txs, p);
      }
    }
  }

  lemma ElsewhereStays(m: Accounts, path: Address -> Path, txs: seq<Tx>, p: Path)
    requires EndStates(m, path, txs).Ok? && forall a :: a in Names(txs) ==> path(a) != p
    ensures NonceAt(Applied(m, path, txs), p) == NonceAt(m, p) && FreeAt(Applied(m, path, txs), p) == FreeAt(m, p)
  {
    hide EndStates, Names, Writes, BatchMap;
    AppliedElsewhere(m, path, txs, p);
  }

  lemma SomethingRuns(txs: seq<Tx>)
    requires txs != []
    ensures Schedule(txs) != [] && 0 < SentBy(Schedule(txs)[0].from, Schedule(txs))
  {
    var k := |txs| - 1;
    assert Schedule(txs) == Enqueue(Schedule(txs[..k]), txs[k]);
  }

  /** The two accounts of the coinbase after a block. */
  lemma MainCredits(m: Accounts, path: Address -> Path, txs: seq<Tx>, coinbase: Address, reward: u64, p: Path)
    requires EndStates(m, path, txs).Ok?
    ensures var main := MainPath(m, path, EndStates(m, path, txs).value, coinbase, reward); var applied := Applied(m, path, txs);
      && NonceAt(applied, p) <= NonceAt(main, p)
      && (p != path(coinbase) ==> Visible(main, p) == Visible(applied, p))
      && (p == path(coinbase) ==> Visible(main, p) == Some(Credit(AccountOrNew(applied, p), reward)))
  {
    hide EndStates, Writes, BatchMap, Wrap;
  }

  lemma ForkCredits(m: Accounts, path: Address -> Path, txs: seq<Tx>, coinbase: Address, reward: u64, p: Path)
    requires EndStates(m, path, txs).Ok?
    ensures var fork := ForkPath(m, path, EndStates(m, path, txs).value, coinbase, reward);
      && (p != path(coinbase) ==> Visible(fork, p) == Visible(Applied(m, path, txs), p))
      && (p == path(coinbase) ==> Visible(fork, p) == Some(Credit(AccountOrDefault(m, p), reward)))
  {
    hide EndStates, Writes, BatchMap, Wrap, AccountOrDefault, Credit;
    var e := (path(coinbase), Value(Credit(AccountOrDefault(m, path(coinbase)), reward)));
    BatchMapSnoc(Writes(EndStates(m, path, txs).value, path), e, m);
  }

  /** Without transactions only the coinbase changes. */
  lemma EmptyMainGrows(m: Accounts, path: Address -> Path, coinbase: Address, reward: u64)
    requires EndStates(m, path, []).Ok? && Roomy(m, path, [], coinbase, reward)
    ensures Grows(m, MainPath(m, path, EndStates(m, path, []).value, coinbase, reward))
  {
    hide EndStates, Applied, Grows, MainPath;
    var main, p := MainPath(m, path, EndStates(m, path, []).value, coinbase, reward), path(coinbase);
    forall q ensures q != p ==> Visible(main, q) == Visible(m, q)
      ensures q == p ==> Visible(main, q) == Some(Credit(AccountOrNew(m, p), reward))
    {
      MainCredits(m, path, [], coinbase, reward, q);
      NothingApplied(m, path);
    }
    OneRises(m, main, p, reward);
  }

  lemma NothingApplied(m: Accounts, path: Address -> Path)
    requires EndStates(m, path, []).Ok?
    ensures Applied(m, path, []) == m
  {
    var none: States := map[];
    assert StartStates(m, path, []) == none;
    assert Writes(none, path) == [];
  }

  lemma OneRises(m: Accounts, m': Accounts, p: Path, reward: u64)
    requires forall q :: q != p ==> Visible(m', q) == Visible(m, q)
    requires Visible(m', p) == Some(Credit(AccountOrNew(m, p), reward))
    requires 0 < reward && AccountOrNew(m, p).free + reward < U64
    ensures Grows(m, m')
  {
    assert NoncesKept(m, m') && FreesKept(m, m');
    assert FreeAt(m, p) < FreeAt(m', p);
  }

  /** A block on the main path raises the accounts. */
  lemma MainGrows(m: Accounts, path: Address -> Path, txs: seq<Tx>, coinbase: Address, reward: u64)
    requires EndStates(m, path, txs).Ok? && Roomy(m, path, txs, coinbase, reward)
    ensures Grows(m, MainPath(m, path, EndStates(m, path, txs).value, coinbase, reward))
  {
    hide EndStates, Applied, MainPath, Roomy, NonceAt, FreeAt, Schedule, SentBy, Names;
    if txs == [] {
      EmptyMainGrows(m, path, coinbase, reward);
    } else {
      var main, applied := MainPath(m, path, EndStates(m, path, txs).value, coinbase, reward), Applied(m, path, txs);
      AppliedKeepsNonces(m, path, txs, coinbase, reward);
      forall p ensures NonceAt(applied, p) <= NonceAt(main, p) {
        MainCredits(m, path, txs, coinbase, reward, p);
      }
      assert NoncesKept(m, main) by {
        assert forall p :: NonceAt(m, p) <= NonceAt(applied, p) <= NonceAt(main, p);
      }
      SomethingRuns(txs);
      var sender := Schedule(txs)[0].from;
      ScheduleIsNamed(txs);
      NamedRises(m, path, txs, coinbase, reward, sender);
      assert NonceAt(m, path(sender)) < NonceAt(main, path(sender));
    }
  }

  lemma ForkAtCoinbase(m: Accounts, path: Address -> Path, txs: seq<Tx>, coinbase: Address, reward: u64)
    requires EndStates(m, path, txs).Ok? && Roomy(m, path, txs, coinbase, reward)
    ensures var fork, p := ForkPath(m, path, EndStates(m, path, txs).value, coinbase, reward), path(coinbase);
      NonceAt(fork, p) == NonceAt(m, p) && FreeAt(m, p) < FreeAt(fork, p)
  {
    hide EndStates, ForkPath, Names, Schedule;
    ForkCredits(m, path, txs, coinbase, reward, path(coinbase));
  }

  lemma ForkElsewhere(m: Accounts, path: Address -> Path, txs: seq<Tx>, coinbase: Address, reward: u64, p: Path)
    requires EndStates(m, path, txs).Ok? && Roomy(m, path, txs, coinbase, reward) && p != path(coinbase)
    ensures var fork := ForkPath(m, path, EndStates(m, path, txs).value, coinbase, reward);
      NonceAt(m, p) < NonceAt(fork, p) || (NonceAt(m, p) == NonceAt(fork, p) && FreeAt(m, p) <= FreeAt(fork, p))
  {
    hide EndStates, ForkPath, Names, Schedule, SentBy, Applied, Roomy;
    ForkCredits(m, path, txs, coinbase, reward, p);
    if a :| a in Names(txs) && path(a) == p {
      NamedRises(m, path, txs, coinbase, reward, a);
    } else {
      ElsewhereStays(m, path, txs, p);
    }
  }

  /** A block on the fork path raises the accounts, though it takes the coinbase's account from before the
      block. */
  lemma ForkGrows(m: Accounts, path: Address -> Path, txs: seq<Tx>, coinbase: Address, reward: u64)
    requires EndStates(m, path, txs).Ok? && Roomy(m, path, txs, coinbase, reward)
    ensures Grows(m, ForkPath(m, path, EndStates(m, path, txs).value, coinbase, reward))
  {
    hide EndStates, ForkPath, Roomy, NonceAt, FreeAt;
    var fork := ForkPath(m, path, EndStates(m, path, txs).value, coinbase, reward);
    ForkAtCoinbase(m, path, txs, coinbase, reward);
    forall p ensures NonceAt(m, p) < NonceAt(fork, p) || (NonceAt(m, p) == NonceAt(fork, p) && FreeAt(m, p) <= FreeAt(fork, p)) {
      if p != path(coinbase) {
        ForkElsewhere(m, path, txs, coinbase, reward, p);
      }
    }
  }

  /** Without room a block can come back: two empty blocks of reward 2^63 leave the accounts they began
      with. */
  lemma RewardsComeBack(m: Accounts, path: Address -> Path, coinbase: Address)
    requires Visible(m, path(coinbase)).Some?
    ensures var reward, none: States := 0x8000_0000_0000_0000, map[];
      MainPath(MainPath(m, path, none, coinbase, reward), path, none, coinbase, reward) == m
  {
    var reward, none: States := 0x8000_0000_0000_0000, map[];
    assert Writes(none, path) == [];
    var once := MainPath(m, path, none, coinbase, reward);
    assert once == m[path(coinbase) := Value(Credit(AccountOrNew(m, path(coinbase)), reward))];
    assert Credit(Credit(AccountOrNew(m, path(coinbase)), reward), reward) == AccountOrNew(m, path(coinbase));
  }

  /** Committing such a block on its own version, or storing it next to a version, leaves no cycle. */
  lemma MainIsFresh(db: Versions, rank: map<Root, nat>, layer: SparseMerkle.Tree<IValue<AccountState>>,
                    path: Address -> Path, txs: seq<Tx>, coinbase: Address, reward: u64)
    requires Growing(db) && Acyclic(db, rank)
    requires var m := Content(layer.parent);
      && EndStates(m, path, txs).Ok? && Roomy(m, path, txs, coinbase, reward)
      && Content(layer.root) == MainPath(m, path, EndStates(m, path, txs).value, coinbase, reward)
    ensures !Reaches(db, rank, layer.parent, layer.root) && Growing(Put(db, layer))
  {
    hide EndStates, MainPath, Roomy, Grows, Content, Growing, Acyclic, Reaches;
    MainGrows(Content(layer.parent), path, txs, coinbase, reward);
    GrowthIsFresh(db, rank, layer);
  }

  lemma ForkIsFresh(db: Versions, rank: map<Root, nat>, layer: SparseMerkle.Tree<IValue<AccountState>>, atRoot: Root,
                    path: Address -> Path, txs: seq<Tx>, coinbase: Address, reward: u64)
    requires Growing(db) && Acyclic(db, rank) && atRoot in db && layer.parent == db[atRoot].parent
    requires var m := Content(atRoot);
      && EndStates(m, path, txs).Ok? && Roomy(m, path, txs, coinbase, reward)
      && Content(layer.root) == ForkPath(m, path, EndStates(m, path, txs).value, coinbase, reward)
    ensures !Reaches(db, rank, layer.parent, layer.root) && Growing(Put(db, layer))
  {
    hide EndStates, ForkPath, Roomy, Grows, Content, Acyclic, Reaches;
    ForkGrows(Content(atRoot), path, txs, coinbase, reward);
    GrowsOn(Content(layer.parent), Content(atRoot), Content(layer.root));
    GrowthIsFresh(db, rank, layer);
  }
}
