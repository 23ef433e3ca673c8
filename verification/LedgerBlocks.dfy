/** What a block does to the accounts of a version, on the main path and on the fork path. */
module LedgerBlocks {
  import opened Common
  import opened SmtHash
  import opened SmtSpec
  import opened TreeDb
  import opened Ledger

  type Accounts = map<Path, IValue<AccountState>>

  // ---------------------------------------------------------------- reading and writing accounts

  /** `get_account_state`: an account that is absent reads as a new one. */
  ghost function AccountOrNew(m: Accounts, p: Path): AccountState {
    match Visible(m, p) case Some(s) => s case None => NEW_ACCOUNT
  }

  /** The fork path's reading of the coinbase: an account that is absent reads as the default one. */
  ghost function AccountOrDefault(m: Accounts, p: Path): AccountState {
    match Visible(m, p) case Some(s) => s case None => DEFAULT_ACCOUNT
  }

  ghost function Names(txs: seq<Tx>): set<Address> {
    if txs == [] then {} else Names(txs[..|txs| - 1]) + {txs[|txs| - 1].from, txs[|txs| - 1].To()}
  }

  ghost function Known(m: Accounts, path: Address -> Path, names: set<Address>): (r: States)
    ensures r.Keys == names
  {
    map a | a in names :: AccountOrNew(m, path(a))
  }

  /** The states a block starts from. */
  ghost function StartStates(m: Accounts, path: Address -> Path, txs: seq<Tx>): States {
    Known(m, path, Names(txs))
  }

  /** The states a block ends with. */
  ghost function EndStates(m: Accounts, path: Address -> Path, txs: seq<Tx>): Result<States, StateError> {
    ApplyAll(StartStates(m, path, txs), Schedule(txs))
  }

  /** The smallest address of a set. */
  ghost predicate IsLeast(a: Address, s: set<Address>) {
    a in s && forall b :: b in s ==> a <= b
  }

  lemma {:induction false} LeastExists(s: set<Address>)
    requires s != {}
    ensures exists a :: IsLeast(a, s)
  {
    var b :| b in s;
    if s == {b} {
      assert IsLeast(b, s);
    } else {
      LeastExists(s - {b});
      var a :| IsLeast(a, s - {b});
      assert forall x :: x in s ==> x == b || x in s - {b};
      var c := if a < b then a else b;
      assert IsLeast(c, s);
    }
  }

  /** The states as entries of a batch, in the order of their addresses. */
  ghost function Entries(states: States, left: set<Address>, path: Address -> Path): seq<(Path, IValue<AccountState>)>
    requires left <= states.Keys
  {
    if left == {} then []
    else
      LeastExists(left);
      var a :| IsLeast(a, left);
      [(path(a), Value(states[a]))] + Entries(states, left - {a}, path)
  }

  ghost function Writes(states: States, path: Address -> Path): seq<(Path, IValue<AccountState>)> {
    Entries(states, states.Keys, path)
  }

  lemma {:induction false} EntriesAvoid(states: States, left: set<Address>, path: Address -> Path, p: Path)
    requires left <= states.Keys && forall a :: a in left ==> path(a) != p
    ensures forall i :: 0 <= i < |Entries(states, left, path)| ==> Entries(states, left, path)[i].0 != p
  {
    if left != {} {
      LeastExists(left);
      var a :| IsLeast(a, left) && Entries(states, left, path) == [(path(a), Value(states[a]))] + Entries(states, left - {a}, path);
      EntriesAvoid(states, left - {a}, path, p);
    }
  }

  lemma BatchMapSnoc(batch: seq<(Path, IValue<AccountState>)>, e: (Path, IValue<AccountState>), m: Accounts)
    ensures BatchMap(batch + [e]) == BatchMap(batch)[e.0 := e.1]
    ensures m + BatchMap(batch + [e]) == (m + BatchMap(batch))[e.0 := e.1]
  {
    assert (batch + [e])[..|batch|] == batch;
  }

  lemma {:induction false} BatchMapKeys(batch: seq<(Path, IValue<AccountState>)>, p: Path)
    ensures p in BatchMap(batch) ==> exists i :: 0 <= i < |batch| && batch[i].0 == p
  {
    if batch != [] {
      BatchMapKeys(batch[..|batch| - 1], p);
    }
  }

  lemma {:induction false} BatchMapHead(batch: seq<(Path, IValue<AccountState>)>)
    requires batch != []
    ensures BatchMap(batch) == map[batch[0].0 := batch[0].1] + BatchMap(batch[1..])
  {
    var k := |batch| - 1;
    if k == 0 {
      assert batch[..0] == [] && batch[1..] == [];
    } else {
      BatchMapHead(batch[..k]);
      assert batch[..k][1..] == batch[1..][..k - 1];
      assert batch[1..][k - 1] == batch[k];
    }
  }

  /** A path of one account only is written with that account. */
  lemma {:induction false} EntriesHold(states: States, left: set<Address>, path: Address -> Path, b: Address)
    requires b in left && left <= states.Keys && forall a :: a in left && path(a) == path(b) ==> a == b
    ensures Visible(BatchMap(Entries(states, left, path)), path(b)) == Some(states[b])
  {
    LeastExists(left);
    var a :| IsLeast(a, left) && Entries(states, left, path) == [(path(a), Value(states[a]))] + Entries(states, left - {a}, path);
    var rest := Entries(states, left - {a}, path);
    BatchMapHead(Entries(states, left, path));
    assert Entries(states, left, path)[1..] == rest;
    if a == b {
      EntriesAvoid(states, left - {a}, path, path(b));
      BatchMapKeys(rest, path(b));
    } else {
      EntriesHold(states, left - {a}, path, b);
    }
  }

  // ---------------------------------------------------------------- the two paths of a block

  function Credit(s: AccountState, amount: u64): AccountState {
    s.(free := Wrap(s.free + amount))
  }

  /** The accounts after `apply_txs` and `credit_balance`. */
  ghost function MainPath(m: Accounts, path: Address -> Path, states: States, coinbase: Address, reward: u64): Accounts {
    var applied := m + BatchMap(Writes(states, path));
    applied[path(coinbase) := Value(Credit(AccountOrNew(applied, path(coinbase)), reward))]
  }

  /** The batch `apply_txs_no_commit` hands over. */
  ghost function ForkBatch(m: Accounts, path: Address -> Path, states: States, coinbase: Address, reward: u64)
    : seq<(Path, IValue<AccountState>)>
  {
    Writes(states, path) + [(path(coinbase), Value(Credit(AccountOrDefault(m, path(coinbase)), reward)))]
  }

  ghost function ForkPath(m: Accounts, path: Address -> Path, states: States, coinbase: Address, reward: u64): Accounts {
    m + BatchMap(ForkBatch(m, path, states, coinbase, reward))
  }

  lemma CreditIsInjective(s: AccountState, t: AccountState, amount: u64)
    requires Credit(s, amount) == Credit(t, amount)
    ensures s == t
  {
  }

  /** The two paths give the same accounts if and only if the block leaves the coinbase's account as the
      fork path read it before the block. */
  lemma PathsAgreeIff(m: Accounts, path: Address -> Path, states: States, coinbase: Address, reward: u64)
    ensures var applied := m + BatchMap(Writes(states, path));
      MainPath(m, path, states, coinbase, reward) == ForkPath(m, path, states, coinbase, reward)
      <==> AccountOrNew(applied, path(coinbase)) == AccountOrDefault(m, path(coinbase))
  {
    hide Credit, AccountOrNew, AccountOrDefault, Writes;
    var p := path(coinbase);
    var batch := Writes(states, path);
    var applied := m + BatchMap(batch);
    var main, fork := AccountOrNew(applied, p), AccountOrDefault(m, p);
    BatchMapSnoc(batch, (p, Value(Credit(fork, reward))), m);
    if Credit(main, reward) == Credit(fork, reward) {
      CreditIsInjective(main, fork, reward);
    }
    assert MainPath(m, path, states, coinbase, reward)[p] == Value(Credit(main, reward));
    assert ForkPath(m, path, states, coinbase, reward)[p] == Value(Credit(fork, reward));
  }

  /** For a coinbase no account of the block shares a path with, they agree if and only if its account
      exists. */
  lemma UntouchedCoinbaseAgreesIff(m: Accounts, path: Address -> Path, states: States, coinbase: Address, reward: u64)
    requires forall a :: a in states ==> path(a) != path(coinbase)
    ensures MainPath(m, path, states, coinbase, reward) == ForkPath(m, path, states, coinbase, reward)
      <==> Visible(m, path(coinbase)).Some?
  {
    var p := path(coinbase);
    var batch := Writes(states, path);
    PathsAgreeIff(m, path, states, coinbase, reward);
    EntriesAvoid(states, states.Keys, path, p);
    BatchMapKeys(batch, p);
    assert p !in BatchMap(batch);
  }

  /** A block gives the same root on both paths, from the same accounts, if and only if it leaves the
      coinbase's account as the fork path read it. */
  lemma RootsAgreeIff(main: Hash<IValue<AccountState>>, fork: Hash<IValue<AccountState>>, depth: nat,
                      m: Accounts, path: Address -> Path, states: States, coinbase: Address, reward: u64)
    requires Minimal(main, [], depth) && Content(main) == MainPath(m, path, states, coinbase, reward)
    requires Minimal(fork, [], depth) && Content(fork) == ForkPath(m, path, states, coinbase, reward)
    ensures main == fork
      <==> AccountOrNew(m + BatchMap(Writes(states, path)), path(coinbase)) == AccountOrDefault(m, path(coinbase))
  {
    hide Minimal, Content, MainPath, ForkPath;
    RootsAndMaps(main, fork, depth);
    PathsAgreeIff(m, path, states, coinbase, reward);
  }

  // ---------------------------------------------------------------- what a whole block does

  lemma {:induction false} NamesAreOfElements(txs: seq<Tx>)
    ensures forall a :: a in Names(txs) <==> exists t :: t in txs && (t.from == a || t.To() == a)
  {
    if txs != [] {
      var k := |txs| - 1;
      NamesAreOfElements(txs[..k]);
      assert forall t :: t in txs <==> t in txs[..k] || t == txs[k];
    }
  }

  lemma SameNames(txs: seq<Tx>, txs': seq<Tx>)
    requires Elements(txs) == Elements(txs')
    ensures Names(txs) == Names(txs')
  {
    NamesAreOfElements(txs);
    NamesAreOfElements(txs');
    assert forall t :: t in txs <==> t in Elements(txs);
    assert forall t :: t in txs' <==> t in Elements(txs');
  }

  /** A block ends the same whatever order its transactions are given in, while no two different ones of
      one sender share nonce and price. */
  lemma BlockOrderDoesNotMatter(m: Accounts, path: Address -> Path, txs: seq<Tx>, txs': seq<Tx>)
    requires !Clash(txs) && multiset(txs) == multiset(txs')
    ensures EndStates(m, path, txs) == EndStates(m, path, txs')
  {
    hide Elements, Clash;
    SameElements(txs, txs');
    SameNames(txs, txs');
    OrderDoesNotMatter(txs, txs');
  }

  lemma ScheduleIsNamed(txs: seq<Tx>)
    ensures Named(Schedule(txs), Names(txs))
    ensures forall i :: 0 <= i < |Schedule(txs)| ==> Schedule(txs)[i] in txs
  {
    ScheduleKeeps(txs);
    NamesAreOfElements(txs);
    var s := Schedule(txs);
    forall i | 0 <= i < |s| ensures s[i] in txs && s[i].from in Names(txs) && s[i].To() in Names(txs) {
      assert s[i] in Elements(s);
    }
  }

  /** A block that succeeds lowers the total of the accounts it names by exactly the fees of the payments
      that ran if and only if, where no price and fee wrap around together, every one of them closes below
      2^64; so always when they hold less than that together. */
  lemma BlockBurnsFees(m: Accounts, path: Address -> Path, txs: seq<Tx>)
    requires EndStates(m, path, txs).Ok? && AmountsFit(txs)
    ensures var start, s := StartStates(m, path, txs), Schedule(txs);
      && (Total(EndStates(m, path, txs).value) == Total(start) - Fees(s)
          <==> forall a :: a in start ==> Closing(start, a, s) < U64)
      && (Total(start) < U64 ==> Total(EndStates(m, path, txs).value) == Total(start) - Fees(s))
  {
    hide Total, ApplyAll, Schedule, Names, Fees, Closing;
    var start, s := StartStates(m, path, txs), Schedule(txs);
    ScheduleIsNamed(txs);
    assert AmountsFit(s);
    BlockConservesIff(start, s);
    if Total(start) < U64 {
      BlockConserves(start, s);
    }
  }

  lemma ScheduleFits(nonce: u64, txs: seq<Tx>)
    requires NoncesFit(nonce, txs)
    ensures NoncesFit(nonce, Schedule(txs))
  {
    hide Schedule;
    ScheduleIsNamed(txs);
    ScheduleIsNoLonger(txs);
  }

  lemma EndKeys(m: Accounts, path: Address -> Path, txs: seq<Tx>)
    requires EndStates(m, path, txs).Ok?
    ensures EndStates(m, path, txs).value.Keys == Names(txs)
  {
    hide ApplyAll, Schedule, Names;
    ScheduleIsNamed(txs);
    BlockKeepsKeys(StartStates(m, path, txs), Schedule(txs));
  }

  /** A path of none of the block's accounts stays as it was. */
  lemma AppliedElsewhere(m: Accounts, path: Address -> Path, txs: seq<Tx>, p: Path)
    requires EndStates(m, path, txs).Ok? && forall a :: a in Names(txs) ==> path(a) != p
    ensures var applied := m + BatchMap(Writes(EndStates(m, path, txs).value, path)); Visible(applied, p) == Visible(m, p)
  {
    hide ApplyAll, Schedule, Names, Entries, BatchMap, EndStates;
    var end := EndStates(m, path, txs).value;
    EndKeys(m, path, txs);
    EntriesAvoid(end, end.Keys, path, p);
    BatchMapKeys(Writes(end, path), p);
  }

  /** What the block makes of the account of an address that shares its path with no other. */
  lemma AppliedAccount(m: Accounts, path: Address -> Path, txs: seq<Tx>, a: Address)
    requires EndStates(m, path, txs).Ok? && forall b :: b in Names(txs) && path(b) == path(a) ==> b == a
    ensures var end := EndStates(m, path, txs).value; var applied := m + BatchMap(Writes(end, path));
      && end.Keys == Names(txs)
      && (a in Names(txs) ==> Visible(applied, path(a)) == Some(end[a]))
      && (a !in Names(txs) ==> Visible(applied, path(a)) == Visible(m, path(a)))
  {
    hide ApplyAll, Schedule, Names, Entries, BatchMap;
    var end := EndStates(m, path, txs).value;
    EndKeys(m, path, txs);
    if a in Names(txs) {
      EntriesHold(end, end.Keys, path, a);
    } else {
      AppliedElsewhere(m, path, txs, path(a));
    }
  }

  /** The coinbase's transactions bring its nonce, read as a new account's, to where the fork path reads
      it, and it is paid what it spends, up to a multiple of 2^64. */
  ghost predicate Settled(m: Accounts, path: Address -> Path, txs: seq<Tx>, coinbase: Address) {
    var s, p := Schedule(txs), path(coinbase);
    && NonceAfter(AccountOrNew(m, p).nonce, coinbase, s) == AccountOrDefault(m, p).nonce
    && (Received(coinbase, s) - Spent(coinbase, s)) % U64 == 0
  }

  /** The coinbase has an account, sends nothing and is paid a multiple of 2^64. */
  ghost predicate Untouched(m: Accounts, path: Address -> Path, txs: seq<Tx>, coinbase: Address) {
    && Visible(m, path(coinbase)).Some?
    && SentBy(coinbase, Schedule(txs)) == 0 && Received(coinbase, Schedule(txs)) % U64 == 0
  }

  /** The block leaves the coinbase's account as the fork path read it if and only if the coinbase's own
      transactions bring its nonce there and it is paid what it spends, up to a multiple of 2^64. */
  lemma CoinbaseUnchangedIff(m: Accounts, path: Address -> Path, txs: seq<Tx>, coinbase: Address)
    requires EndStates(m, path, txs).Ok? && coinbase in Names(txs)
    requires forall a :: a in Names(txs) && path(a) == path(coinbase) ==> a == coinbase
    ensures var applied := m + BatchMap(Writes(EndStates(m, path, txs).value, path));
      AccountOrNew(applied, path(coinbase)) == AccountOrDefault(m, path(coinbase)) <==> Settled(m, path, txs, coinbase)
    ensures NoncesFit(AccountOrNew(m, path(coinbase)).nonce, txs) ==>
      (Settled(m, path, txs, coinbase) <==> Untouched(m, path, txs, coinbase))
  {
    hide ApplyAll, Schedule, Names, SentBy, Received, Spent, NonceAfter, Entries, BatchMap, Wrap;
    var start, s := StartStates(m, path, txs), Schedule(txs);
    ScheduleIsNamed(txs);
    AppliedAccount(m, path, txs, coinbase);
    AccountAfter(start, s, coinbase);
    WrapBack(start[coinbase].free, Received(coinbase, s) - Spent(coinbase, s));
    if SentBy(coinbase, s) == 0 {
      NothingSentBy(start[coinbase].nonce, s, coinbase);
    }
    if NoncesFit(start[coinbase].nonce, txs) {
      ScheduleFits(start[coinbase].nonce, txs);
      NonceComesBackIff(start, s, coinbase);
    }
  }

  lemma UnnamedCoinbase(m: Accounts, path: Address -> Path, txs: seq<Tx>, coinbase: Address)
    requires coinbase !in Names(txs)
    ensures Settled(m, path, txs, coinbase) <==> Visible(m, path(coinbase)).Some?
    ensures Untouched(m, path, txs, coinbase) <==> Visible(m, path(coinbase)).Some?
  {
    hide Schedule, Names;
    ScheduleIsNamed(txs);
    NotNamed(AccountOrNew(m, path(coinbase)).nonce, Schedule(txs), coinbase);
  }

  /** A block gives the same root on both paths, from the same accounts, if and only if the coinbase's
      transactions and payments cancel out in this sense; while nonces stay inside 64 bits, if and only if
      the coinbase has an account before the block, sends nothing in it and is paid a multiple of 2^64. The
      coinbase shares its path with no other account of the block. */
  lemma BlockRootsAgreeIff(main: Hash<IValue<AccountState>>, fork: Hash<IValue<AccountState>>, depth: nat,
                           m: Accounts, path: Address -> Path, txs: seq<Tx>, coinbase: Address, reward: u64)
    requires EndStates(m, path, txs).Ok?
    requires forall a :: a in Names(txs) && path(a) == path(coinbase) ==> a == coinbase
    requires Minimal(main, [], depth) && Content(main) == MainPath(m, path, EndStates(m, path, txs).value, coinbase, reward)
    requires Minimal(fork, [], depth) && Content(fork) == ForkPath(m, path, EndStates(m, path, txs).value, coinbase, reward)
    ensures main == fork <==> Settled(m, path, txs, coinbase)
    ensures coinbase !in Names(txs) || NoncesFit(AccountOrNew(m, path(coinbase)).nonce, txs) ==>
      (main == fork <==> Untouched(m, path, txs, coinbase))
  {
    hide Minimal, Content, MainPath, ForkPath, ApplyAll, Schedule, Visible, Names, AccountOrNew, Settled, Untouched;
    var end := EndStates(m, path, txs).value;
    if coinbase in Names(txs) {
      RootsAgreeIff(main, fork, depth, m, path, end, coinbase, reward);
      CoinbaseUnchangedIff(m, path, txs, coinbase);
    } else {
      ScheduleIsNamed(txs);
      BlockKeepsKeys(StartStates(m, path, txs), Schedule(txs));
      RootsAndMaps(main, fork, depth);
      UntouchedCoinbaseAgreesIff(m, path, end, coinbase, reward);
      UnnamedCoinbase(m, path, txs, coinbase);
    }
  }

  /** For one, an empty block on no accounts: the main path leaves the coinbase nonce 1, the fork path 0. */
  lemma EmptyBlockDisagrees(path: Address -> Path, coinbase: Address, reward: u64)
    ensures EndStates(map[], path, []) == Ok(map[])
    ensures MainPath(map[], path, map[], coinbase, reward) == map[path(coinbase) := Value(AccountState(reward, 0, 1, None))]
    ensures ForkPath(map[], path, map[], coinbase, reward) == map[path(coinbase) := Value(AccountState(reward, 0, 0, None))]
  {
    assert StartStates(map[], path, []) == map[];
    var none: States := map[];
    assert Writes(none, path) == [];
    BatchMapSnoc([], (path(coinbase), Value(Credit(DEFAULT_ACCOUNT, reward))), map[]);
    assert [] + [(path(coinbase), Value(Credit(DEFAULT_ACCOUNT, reward)))] == ForkBatch(map[], path, none, coinbase, reward);
  }

  /** A block of one raw-data transaction moves its sender's nonce, and also writes the account of the
      default address, which such a transaction names as its recipient. */
  lemma RawDataAlone(m: Accounts, path: Address -> Path, tx: Tx)
    requires tx.data.RawData?
    ensures var r := EndStates(m, path, [tx]);
      && r.Ok? && r.value.Keys == {tx.from, 0}
      && r.value[tx.from] == AccountOrNew(m, path(tx.from)).(nonce := NextNonce(tx.nonce, AccountOrNew(m, path(tx.from)).nonce))
      && (tx.from != 0 ==> r.value[0] == AccountOrNew(m, path(0)))
  {
    hide AccountOrNew, NextNonce;
    assert [tx][..0] == [] && Names([]) == {} && Schedule([]) == [];
    assert Names([tx]) == {tx.from, tx.To()};
    assert Schedule([tx]) == [tx];
    var start := StartStates(m, path, [tx]);
    ApplyTxEffect(start, tx);
    assert ApplyAll(start, [tx]) == ApplyAll(ApplyTx(start, tx).value, [tx][1..]);
  }
}
