/** `State`: blocks applied to the account tree, on the main path with a commit and on the fork path
    without one. */
module LedgerState {
  import opened Common
  import opened SmtHash
  import SparseMerkle
  import opened Overlay
  import opened TreeDb
  import opened Ledger
  import opened LedgerBlocks
  import opened LedgerGrowth

  datatype Error = TxFailed(error: StateError) | NoSuchRoot

  lemma NamesSnoc(txs: seq<Tx>, i: nat)
    requires i < |txs|
    ensures Names(txs[..i + 1]) == Names(txs[..i]) + {txs[i].from, txs[i].To()}
    ensures Schedule(txs[..i + 1]) == Enqueue(Schedule(txs[..i]), txs[i])
  {
    assert txs[..i + 1][..i] == txs[..i];
  }

  /** One more account read into the states. */
  lemma KnownMore(m: Accounts, path: Address -> Path, names: set<Address>, a: Address)
    ensures Known(m, path, names + {a})
      == if a in names then Known(m, path, names) else Known(m, path, names)[a := AccountOrNew(m, path(a))]
  {
    hide AccountOrNew;
    if a in names {
      assert names + {a} == names;
    }
  }

  lemma BothNamed(names: set<Address>, a: Address, b: Address)
    ensures names + {a} + {b} == names + {a, b}
  {
  }

  class State {
    const trie: TreeDB<AccountState>
    const path: Address -> Path

    ghost predicate Valid()
      reads this, trie
    {
      trie.Valid() && forall a :: |path(a)| == trie.depth
    }

    /** Every stored version grew out of its parent, and nothing is staged on the head. */
    ghost predicate Steady()
      reads this, trie
    {
      Valid() && Growing(trie.db) && trie.Staged() == Content(trie.head.root)
    }

    constructor (trie: TreeDB<AccountState>, path: Address -> Path)
      requires trie.Valid() && forall a :: |path(a)| == trie.depth
      ensures Valid() && this.trie == trie && this.path == path
      ensures trie.db == map[] && trie.Staged() == Content(trie.head.root) ==> Steady()
    {
      this.trie := trie;
      this.path := path;
    }

    method GetAccountState(a: Address) returns (s: AccountState)
      requires Valid()
      ensures s == AccountOrNew(trie.Staged(), path(a))
    {
      var r := trie.Get(path(a));
      s := if r.Ok? && r.value.Some? then r.value.value else NEW_ACCOUNT;
    }

    method GetAccountStateAtRoot(root: Hash<IValue<AccountState>>, a: Address) returns (s: AccountState)
      requires Valid()
      ensures root in trie.db ==> s == AccountOrNew(Content(root), path(a))
    {
      var r := trie.GetAtRoot(root, path(a));
      s := if r.Ok? && r.value.Some? then r.value.value else NEW_ACCOUNT;
    }

    /** The second loop: the sets of the senders in the order of their addresses, each in its own order,
        up to the first transaction that fails. */
    method RunAll(start: States, queues: Queues, ghost order: seq<Tx>) returns (r: Result<States, StateError>)
      requires Ordered(order) && Queued(queues, order)
      ensures r == ApplyAll(start, order)
    {
      hide ApplyTx, ApplyAll, Sent, Ordered;
      var states, left := start, queues.Keys;
      SentByAll(order, left);
      while left != {}
        invariant left <= queues.Keys
        invariant ApplyAll(start, order) == ApplyAll(states, Sent(order, left))
        decreases left
      {
        LeastExists(left);
        var a :| a in left && forall b :: b in left ==> a <= b;
        SentSplit(order, left, a);
        ghost var rest := Sent(order, left - {a});
        var queue := queues[a];
        for i := 0 to |queue|
          invariant ApplyAll(start, order) == ApplyAll(states, queue[i..] + rest)
        {
          RunOne(states, queue, i, rest);
          var next := ApplyTx(states, queue[i]);
          if next.Err? {
            return Err(next.error);
          }
          states := next.value;
        }
        assert queue[|queue|..] + rest == rest;
        left := left - {a};
      }
      NothingSent(states, order);
      return Ok(states);
    }

    /** Reads an account into the states unless it is there. */
    method Read(states: States, ghost names: set<Address>, a: Address) returns (r: States)
      requires Valid() && states == Known(trie.Staged(), path, names)
      ensures r == Known(trie.Staged(), path, names + {a})
    {
      hide Known, AccountOrNew, Content;
      KnownMore(trie.Staged(), path, names, a);
      r := states;
      if a !in r {
        var s := GetAccountState(a);
        r := r[a := s];
      }
    }

    method ReadAt(atRoot: Hash<IValue<AccountState>>, states: States, ghost names: set<Address>, a: Address) returns (r: States)
      requires Valid() && (atRoot in trie.db ==> states == Known(Content(atRoot), path, names))
      ensures atRoot in trie.db ==> r == Known(Content(atRoot), path, names + {a})
    {
      hide Known, AccountOrNew, Content;
      KnownMore(Content(atRoot), path, names, a);
      r := states;
      if a !in r {
        var s := GetAccountStateAtRoot(atRoot, a);
        r := r[a := s];
      }
    }

    /** The first loop of `apply_txs`: reads each named account once and queues the transactions. */
    method Gather(txs: seq<Tx>) returns (states: States, queues: Queues)
      requires Valid()
      ensures states == StartStates(trie.Staged(), path, txs) && Queued(queues, Schedule(txs))
    {
      hide Known, EnqueueFor, Content, Names, Schedule, Queued;
      states, queues := map[], map[];
      NothingNamed(trie.Staged(), path, txs);
      for i := 0 to |txs|
        invariant states == Known(trie.Staged(), path, Names(txs[..i])) && Queued(queues, Schedule(txs[..i]))
      {
        NamesSnoc(txs, i);
        var tx := txs[i];
        BothNamed(Names(txs[..i]), tx.from, tx.To());
        states := Read(states, Names(txs[..i]), tx.from);
        states := Read(states, Names(txs[..i]) + {tx.from}, tx.To());
        QueueNext(queues, txs, i);
        queues := EnqueueFor(queues, tx);
      }
      assert txs[..|txs|] == txs;
    }

    /** The first loop of `apply_txs_no_commit`, reading a stored version. */
    method GatherAt(atRoot: Hash<IValue<AccountState>>, txs: seq<Tx>) returns (states: States, queues: Queues)
      requires Valid()
      ensures atRoot in trie.db ==> states == StartStates(Content(atRoot), path, txs)
      ensures Queued(queues, Schedule(txs))
    {
      hide Known, EnqueueFor, Content, Names, Schedule, Queued;
      states, queues := map[], map[];
      NothingNamed(Content(atRoot), path, txs);
      for i := 0 to |txs|
        invariant atRoot in trie.db ==> states == Known(Content(atRoot), path, Names(txs[..i]))
        invariant Queued(queues, Schedule(txs[..i]))
      {
        NamesSnoc(txs, i);
        var tx := txs[i];
        BothNamed(Names(txs[..i]), tx.from, tx.To());
        states := ReadAt(atRoot, states, Names(txs[..i]), tx.from);
        states := ReadAt(atRoot, states, Names(txs[..i]) + {tx.from}, tx.To());
        QueueNext(queues, txs, i);
        queues := EnqueueFor(queues, tx);
      }
      assert txs[..|txs|] == txs;
    }

    /** `apply_txs`: stages the accounts of a block whose transactions all succeed, and nothing else. */
    method ApplyTxs(txs: seq<Tx>) returns (r: Result<States, StateError>)
      requires Valid()
      modifies trie`staging
      ensures Valid() && r == EndStates(old(trie.Staged()), path, txs)
      ensures r.Err? ==> trie.staging == old(trie.staging)
      ensures r.Ok? ==> trie.Staged() == old(trie.Staged()) + BatchMap(Writes(r.value, path))
    {
      hide StartStates, ApplyAll, Schedule, Content;
      var states, queues := Gather(txs);
      ScheduleKeeps(txs);
      r := RunAll(states, queues, Schedule(txs));
      if r.Ok? {
        StageAll(r.value);
      }
    }

    /** The third loop: puts the states in the order of their addresses. */
    method StageAll(states: States)
      requires Valid()
      modifies trie`staging
      ensures Valid() && trie.Staged() == old(trie.Staged()) + BatchMap(Writes(states, path))
    {
      hide Content;
      var left := states.Keys;
      ghost var m, done := trie.Staged(), [];
      while left != {}
        invariant left <= states.Keys && Valid()
        invariant Writes(states, path) == done + Entries(states, left, path)
        invariant trie.Staged() == m + BatchMap(done)
        decreases left
      {
        LeastExists(left);
        var a :| a in left && forall b :: b in left ==> a <= b;
        EntriesStep(states, left, path, a, done);
        BatchMapSnoc(done, (path(a), Value(states[a])), m);
        trie.Set(path(a), Value(states[a]));
        done, left := done + [(path(a), Value(states[a]))], left - {a};
      }
      assert done + [] == done;
    }

    /** `credit_balance` */
    method CreditBalance(a: Address, amount: u64)
      requires Valid()
      modifies trie`staging
      ensures Valid()
      ensures trie.Staged() == old(trie.Staged())[path(a) := Value(Credit(AccountOrNew(old(trie.Staged()), path(a)), amount))]
    {
      hide Content;
      var s := GetAccountState(a);
      trie.Set(path(a), Value(Credit(s, amount)));
    }

    /** The transactions of a block and the reward, staged on the head. */
    method StageBlock(txs: seq<Tx>, coinbase: Address, reward: u64) returns (r: Result<(), StateError>)
      requires Valid()
      modifies trie`staging
      ensures Valid() && (r.Err? <==> EndStates(old(trie.Staged()), path, txs).Err?)
      ensures r.Err? ==> trie.staging == old(trie.staging)
      ensures r.Ok? ==>
        trie.Staged() == MainPath(old(trie.Staged()), path, EndStates(old(trie.Staged()), path, txs).value, coinbase, reward)
    {
      hide Content, EndStates, AccountOrNew, Writes, Credit;
      var applied := ApplyTxs(txs);
      if applied.Err? {
        return Err(applied.error);
      }
      CreditBalance(coinbase, reward);
      return Ok(());
    }

    /** A block accepted on the head: its transactions, the reward, and a commit. From a steady state, a
        block with room leaves a steady state. */
    method AcceptBlock(txs: seq<Tx>, coinbase: Address, reward: u64) returns (r: Result<Hash<IValue<AccountState>>, Error>)
      requires Valid()
      modifies trie
      ensures r.Err? <==> EndStates(old(trie.Staged()), path, txs).Err?
      ensures r.Err? ==> Valid() && trie.staging == old(trie.staging) && trie.head == old(trie.head) && trie.db == old(trie.db)
      ensures r.Ok? && !Reaches(old(trie.db), old(trie.rank), old(trie.head.root), r.value) ==> Valid()
      ensures r.Ok? ==>
        && Minimal(r.value, [], trie.depth)
        && Content(r.value) == MainPath(old(trie.Staged()), path, EndStates(old(trie.Staged()), path, txs).value, coinbase, reward)
      ensures old(Steady()) && (r.Ok? ==> Roomy(old(trie.Staged()), path, txs, coinbase, reward)) ==> Steady()
    {
      hide Content, Minimal, EndStates, MainPath, Growing, Roomy, Reaches, Sound, Acyclic, Positioned, Forest, SpoilsExactly, Put;
      var staged := StageBlock(txs, coinbase, reward);
      if staged.Err? {
        return Err(TxFailed(staged.error));
      }
      StagedOnHead(trie.db, trie.depth, trie.head, trie.staging);
      if old(Steady()) && Roomy(old(trie.Staged()), path, txs, coinbase, reward) {
        MainIsFresh(trie.db, trie.rank, trie.staging, path, txs, coinbase, reward);
        ReachesItself(trie.db, trie.rank, trie.staging.root);
      }
      var root := trie.Commit();
      return Ok(root);
    }

    /** The batch of a block accepted next to a stored root. */
    method GatherBatch(atRoot: Hash<IValue<AccountState>>, reward: u64, coinbase: Address, txs: seq<Tx>)
      returns (r: Result<seq<(Path, IValue<AccountState>)>, StateError>)
      requires Valid()
      ensures atRoot in trie.db ==> (r.Err? <==> EndStates(Content(atRoot), path, txs).Err?)
      ensures atRoot in trie.db && r.Ok? ==>
        r.value == ForkBatch(Content(atRoot), path, EndStates(Content(atRoot), path, txs).value, coinbase, reward)
      ensures r.Ok? ==> forall i :: 0 <= i < |r.value| ==> |r.value[i].0| == trie.depth
    {
      hide StartStates, ApplyAll, Schedule, Content, AccountOrDefault, Credit, Writes;
      ghost var m := Content(atRoot);
      var states, queues := GatherAt(atRoot, txs);
      ScheduleKeeps(txs);
      var run := RunAll(states, queues, Schedule(txs));
      if run.Err? {
        return Err(run.error);
      }
      var batch := Batch(run.value);
      var found := trie.GetAtRoot(atRoot, path(coinbase));
      var account := if found.Ok? && found.value.Some? then found.value.value else DEFAULT_ACCOUNT;
      batch := batch + [(path(coinbase), Value(Credit(account, reward)))];
      if atRoot in trie.db {
        DefaultRead(m, path(coinbase), found);
      }
      return Ok(batch);
    }

    /** `apply_txs_no_commit`: a block accepted next to a stored root. From a steady state, a block with
        room leaves a steady state. */
    method ApplyTxsNoCommit(atRoot: Hash<IValue<AccountState>>, reward: u64, coinbase: Address, txs: seq<Tx>)
      returns (r: Result<Hash<IValue<AccountState>>, Error>)
      requires Valid()
      modifies trie`db, trie`rank
      ensures atRoot in old(trie.db) ==> (r.Err? <==> EndStates(Content(atRoot), path, txs).Err?)
      ensures r.Ok? ==> atRoot in old(trie.db)
      ensures r.Err? ==> Valid() && trie.db == old(trie.db)
      ensures r.Ok? && !Reaches(old(trie.db), old(trie.rank), old(trie.db)[atRoot].parent, r.value) ==> Valid()
      ensures r.Ok? ==>
        && Minimal(r.value, [], trie.depth)
        && Content(r.value) == ForkPath(Content(atRoot), path, EndStates(Content(atRoot), path, txs).value, coinbase, reward)
      ensures old(Steady()) && (r.Ok? ==> Roomy(Content(atRoot), path, txs, coinbase, reward)) ==> Steady()
    {
      hide Content, Minimal, EndStates, ForkBatch, Growing, Roomy, Reaches, Sound, Acyclic, Positioned, Forest, SpoilsExactly, Put;
      var batch := GatherBatch(atRoot, reward, coinbase, txs);
      if batch.Err? {
        return Err(TxFailed(batch.error));
      }
      var root := trie.ApplyNonCommit(atRoot, batch.value);
      if root.Err? {
        return Err(NoSuchRoot);
      }
      if old(Steady()) && Roomy(Content(atRoot), path, txs, coinbase, reward) {
        ForkIsFresh(old(trie.db), old(trie.rank), trie.db[root.value], atRoot, path, txs, coinbase, reward);
      }
      return Ok(root.value);
    }

    /** The states as a batch. */
    method Batch(states: States) returns (batch: seq<(Path, IValue<AccountState>)>)
      requires Valid()
      ensures batch == Writes(states, path) && forall i :: 0 <= i < |batch| ==> |batch[i].0| == trie.depth
    {
      var left := states.Keys;
      batch := [];
      while left != {}
        invariant left <= states.Keys
        invariant Writes(states, path) == batch + Entries(states, left, path)
        invariant forall i :: 0 <= i < |batch| ==> |batch[i].0| == trie.depth
        decreases left
      {
        LeastExists(left);
        var a :| a in left && forall b :: b in left ==> a <= b;
        EntriesStep(states, left, path, a, batch);
        batch, left := batch + [(path(a), Value(states[a]))], left - {a};
      }
      assert batch + [] == batch;
    }
  }

  lemma QueueNext(queues: Queues, txs: seq<Tx>, i: nat)
    requires i < |txs| && Queued(queues, Schedule(txs[..i]))
    ensures Queued(EnqueueFor(queues, txs[i]), Schedule(txs[..i + 1]))
  {
    hide Queued, EnqueueFor;
    NamesSnoc(txs, i);
    ScheduleKeeps(txs[..i]);
    QueuedMore(queues, Schedule(txs[..i]), txs[i]);
  }

  lemma RunOne(states: States, queue: seq<Tx>, i: nat, rest: seq<Tx>)
    requires i < |queue|
    ensures var next := ApplyTx(states, queue[i]);
      ApplyAll(states, queue[i..] + rest) == if next.Err? then Err(next.error) else ApplyAll(next.value, queue[i + 1..] + rest)
  {
    hide ApplyTx;
    assert (queue[i..] + rest)[1..] == queue[i + 1..] + rest;
  }

  lemma NothingSent(states: States, order: seq<Tx>)
    ensures ApplyAll(states, Sent(order, {})) == Ok(states)
  {
    SentByNone(order, {});
  }

  lemma NothingNamed(m: Accounts, path: Address -> Path, txs: seq<Tx>)
    ensures Known(m, path, Names(txs[..0])) == map[] && Queued(map[], Schedule(txs[..0]))
  {
  }

  lemma EntriesStep(states: States, left: set<Address>, path: Address -> Path, a: Address, done: seq<(Path, IValue<AccountState>)>)
    requires left <= states.Keys && IsLeast(a, left)
    ensures done + Entries(states, left, path) == done + [(path(a), Value(states[a]))] + Entries(states, left - {a}, path)
  {
    var b :| IsLeast(b, left) && Entries(states, left, path) == [(path(b), Value(states[b]))] + Entries(states, left - {b}, path);
    SameLeast(a, b, left);
  }

  lemma SameLeast(a: Address, b: Address, s: set<Address>)
    requires IsLeast(a, s) && IsLeast(b, s)
    ensures a == b
  {
    assert a in s && b in s;
    assert a <= b && b <= a;
  }

  lemma StagedOnHead(db: Versions, depth: nat, head: SparseMerkle.Tree<IValue<AccountState>>,
                     staging: SparseMerkle.Tree<IValue<AccountState>>)
    requires Positioned(db, depth, head, staging)
    ensures Minimal(staging.root, [], depth) && staging.parent == head.root
  {
    hide Content;
  }

  lemma ReachesItself(db: Versions, rank: map<Root, nat>, x: Root)
    requires Acyclic(db, rank)
    ensures Reaches(db, rank, x, x)
  {
  }

  lemma DefaultRead(m: Accounts, p: Path, r: Result<Option<AccountState>, DbError>)
    requires Reads(r, Visible(m, p))
    ensures AccountOrDefault(m, p) == if r.Ok? && r.value.Some? then r.value.value else DEFAULT_ACCOUNT
  {
  }
}
