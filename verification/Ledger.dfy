/** Blocks of payments and raw-data transactions: the order they run in, and what they do to the
    accounts. Sums wrap around at 64 bits. */
module Ledger {
  import opened Common

  const U64: nat := 0x1_0000_0000_0000_0000

  type u64 = x: nat | x < 0x1_0000_0000_0000_0000

  /** An address as the number its bytes make; they are ordered the same way. */
  type Address = nat

  const DEFAULT_ADDRESS: Address := 0

  /** `app` stands for the state of an application, which these transactions do not touch. */
  datatype AccountState = AccountState(free: u64, reserve: u64, nonce: u64, app: Option<nat>)

  /** `AccountState::new` */
  const NEW_ACCOUNT := AccountState(0, 0, 1, None)

  /** `AccountState::default`: unlike a new account it starts with nonce 0. */
  const DEFAULT_ACCOUNT := AccountState(0, 0, 0, None)

  datatype TxData = Payment(to: Address) | RawData

  /** `id` stands for the signature and payload, which set apart transactions alike in the rest. */
  datatype Tx = Tx(from: Address, nonce: u64, price: u64, fee: u64, data: TxData, id: nat) {
    function To(): Address {
      match data case Payment(to) => to case RawData => DEFAULT_ADDRESS
    }
  }

  datatype StateError = AccountNotFound | InsufficientFunds

  type States = map<Address, AccountState>

  function Wrap(x: nat): u64 {
    x % U64
  }

  // ---------------------------------------------------------------- the order of a block

  /** Transactions of one sender with the same nonce and price are one entry of its set. */
  predicate SameSlot(a: Tx, b: Tx) {
    a.from == b.from && a.nonce == b.nonce && a.price == b.price
  }

  /** Senders in the order of their addresses; each sender's by nonce, then by falling price. */
  predicate Precedes(a: Tx, b: Tx) {
    || a.from < b.from
    || (a.from == b.from && (a.nonce < b.nonce || (a.nonce == b.nonce && a.price > b.price)))
  }

  /** Inserting into an ordered set of transactions: of one sender, or of all senders laid end to end. */
  function Enqueue(s: seq<Tx>, t: Tx): seq<Tx> {
    if s == [] then [t]
    else if SameSlot(t, s[0]) then s
    else if Precedes(t, s[0]) then [t] + s
    else [s[0]] + Enqueue(s[1..], t)
  }

  /** The transactions of a block in the order they run. */
  function Schedule(txs: seq<Tx>): seq<Tx> {
    if txs == [] then [] else Enqueue(Schedule(txs[..|txs| - 1]), txs[|txs| - 1])
  }

  ghost predicate Ordered(s: seq<Tx>) {
    forall i, j :: 0 <= i < j < |s| ==> Precedes(s[i], s[j])
  }

  ghost function Elements(s: seq<Tx>): set<Tx> {
    set t | t in s
  }

  /** Two different transactions share a slot. */
  ghost predicate Clash(txs: seq<Tx>) {
    exists a, b :: a in txs && b in txs && a != b && SameSlot(a, b)
  }

  lemma {:induction false} EnqueueElements(s: seq<Tx>, t: Tx)
    requires Ordered(s)
    ensures Elements(Enqueue(s, t)) == Elements(s) + (if exists x :: x in s && SameSlot(t, x) then {} else {t})
  {
    if s != [] && !SameSlot(t, s[0]) {
      if Precedes(t, s[0]) {
        assert forall i :: 0 < i < |s| ==> Precedes(s[0], s[i]);
        assert forall x :: x in s ==> !SameSlot(t, x);
      } else {
        RestOf(s);
        EnqueueElements(s[1..], t);
        assert Elements(s) == {s[0]} + Elements(s[1..]);
        assert Elements([s[0]] + Enqueue(s[1..], t)) == {s[0]} + Elements(Enqueue(s[1..], t));
      }
    }
  }

  lemma {:induction false} EnqueueOrders(s: seq<Tx>, t: Tx)
    requires Ordered(s)
    ensures Ordered(Enqueue(s, t))
  {
    if s != [] && !SameSlot(t, s[0]) {
      if Precedes(t, s[0]) {
        assert forall i :: 0 < i < |s| ==> Precedes(s[0], s[i]);
      } else {
        RestOf(s);
        EnqueueOrders(s[1..], t);
        EnqueueElements(s[1..], t);
        var rest := Enqueue(s[1..], t);
        forall i | 0 <= i < |rest| ensures Precedes(s[0], rest[i]) {
          assert rest[i] in Elements(rest);
        }
      }
    }
  }

  lemma EnqueueMembers(s: seq<Tx>, t: Tx)
    requires Ordered(s)
    ensures forall x :: x in Enqueue(s, t) <==> x in s || (x == t && forall y :: y in s ==> !SameSlot(t, y))
  {
    EnqueueElements(s, t);
    assert forall x :: x in Enqueue(s, t) <==> x in Elements(Enqueue(s, t));
    assert forall x :: x in s <==> x in Elements(s);
  }

  /** The schedule is ordered, and holds every transaction when no two different ones share a slot. */
  lemma {:induction false} ScheduleKeeps(txs: seq<Tx>)
    ensures Ordered(Schedule(txs)) && Elements(Schedule(txs)) <= Elements(txs)
    ensures !Clash(txs) ==> Elements(Schedule(txs)) == Elements(txs)
  {
    if txs != [] {
      var k := |txs| - 1;
      ScheduleKeeps(txs[..k]);
      EnqueueElements(Schedule(txs[..k]), txs[k]);
      EnqueueOrders(Schedule(txs[..k]), txs[k]);
      assert Elements(txs) == Elements(txs[..k]) + {txs[k]};
      if !Clash(txs) {
        assert forall x :: x in txs[..k] ==> x in txs;
        forall x | x in Schedule(txs[..k]) && SameSlot(txs[k], x) ensures x == txs[k] {
          assert x in Elements(Schedule(txs[..k]));
        }
      }
    }
  }

  /** The running order, in full: by address of the sender, then by rising nonce, then by falling price,
      with no two alike in all three. */
  lemma ScheduleIsSorted(txs: seq<Tx>, i: nat, j: nat)
    requires i < j < |Schedule(txs)|
    ensures var a, b := Schedule(txs)[i], Schedule(txs)[j];
      && a.from <= b.from
      && (a.from == b.from ==> a.nonce <= b.nonce)
      && (a.from == b.from && a.nonce == b.nonce ==> a.price > b.price)
  {
    hide Schedule;
    ScheduleKeeps(txs);
  }

  /** Given before any other of the same sender, nonce and price. */
  ghost predicate FirstGiven(txs: seq<Tx>, i: nat) {
    && i < |txs|
    && forall j :: 0 <= j < i ==> txs[j].from != txs[i].from || txs[j].nonce != txs[i].nonce || txs[j].price != txs[i].price
  }

  /** Every transaction runs, or one of the same sender, nonce and price does. */
  lemma {:induction false} SlotRuns(txs: seq<Tx>, t: Tx) returns (x: Tx)
    requires t in txs
    ensures x in Schedule(txs) && x.from == t.from && x.nonce == t.nonce && x.price == t.price
  {
    var k := |txs| - 1;
    ScheduleKeeps(txs[..k]);
    EnqueueMembers(Schedule(txs[..k]), txs[k]);
    if t in txs[..k] {
      x := SlotRuns(txs[..k], t);
    } else if y :| y in Schedule(txs[..k]) && SameSlot(t, y) {
      x := y;
    } else {
      x := t;
    }
  }

  ghost predicate GivenFirst(txs: seq<Tx>, t: Tx) {
    exists i: nat :: FirstGiven(txs, i) && txs[i] == t
  }

  lemma FirstGivenBefore(txs: seq<Tx>, k: nat, i: nat)
    requires i < k <= |txs|
    ensures FirstGiven(txs[..k], i) <==> FirstGiven(txs, i)
  {
    assert forall j :: 0 <= j <= i ==> txs[..k][j] == txs[j];
  }

  lemma GivenFirstSnoc(txs: seq<Tx>, t: Tx)
    requires txs != []
    ensures var k := |txs| - 1; GivenFirst(txs, t) <==> GivenFirst(txs[..k], t) || (t == txs[k] && FirstGiven(txs, k))
  {
    var k := |txs| - 1;
    if GivenFirst(txs[..k], t) {
      var i: nat :| FirstGiven(txs[..k], i) && txs[..k][i] == t;
      FirstGivenBefore(txs, k, i);
      assert FirstGiven(txs, i) && txs[i] == t;
    }
    if GivenFirst(txs, t) {
      var i: nat :| FirstGiven(txs, i) && txs[i] == t;
      if i < k {
        FirstGivenBefore(txs, k, i);
        assert FirstGiven(txs[..k], i) && txs[..k][i] == t;
      }
    }
  }

  /** Exactly the transactions that were given first for their sender, nonce and price run. */
  lemma {:induction false} RunsIff(txs: seq<Tx>, t: Tx)
    ensures t in Schedule(txs) <==> GivenFirst(txs, t)
  {
    if txs != [] {
      var k := |txs| - 1;
      RunsIff(txs[..k], t);
      GivenFirstSnoc(txs, t);
      LastRunsIff(txs);
      assert Schedule(txs) == Enqueue(Schedule(txs[..k]), txs[k]);
      hide Schedule, GivenFirst, FirstGiven, SameSlot;
      ScheduleKeeps(txs[..k]);
      EnqueueMembers(Schedule(txs[..k]), txs[k]);
    }
  }

  lemma LastRunsIff(txs: seq<Tx>)
    requires txs != []
    ensures var k := |txs| - 1; FirstGiven(txs, k) <==> forall y :: y in Schedule(txs[..k]) ==> !SameSlot(txs[k], y)
  {
    hide Schedule;
    var k := |txs| - 1;
    ScheduleKeeps(txs[..k]);
    if FirstGiven(txs, k) {
      forall y | y in Schedule(txs[..k]) ensures !SameSlot(txs[k], y) {
        assert y in Elements(Schedule(txs[..k]));
        assert y in txs[..k];
      }
    } else {
      var j :| 0 <= j < k && txs[j].from == txs[k].from && txs[j].nonce == txs[k].nonce && txs[j].price == txs[k].price;
      assert txs[..k][j] == txs[j];
      var x := SlotRuns(txs[..k], txs[j]);
      assert SameSlot(txs[k], x);
    }
  }

  /** Of one sender's transactions the lowest nonce runs first, and of several with it the highest price. */
  lemma LowestNonceFirst(txs: seq<Tx>, i: nat, t: Tx)
    requires i < |Schedule(txs)| && forall j :: 0 <= j < i ==> Schedule(txs)[j].from != Schedule(txs)[i].from
    requires t in txs && t.from == Schedule(txs)[i].from
    ensures Schedule(txs)[i].nonce <= t.nonce
    ensures Schedule(txs)[i].nonce == t.nonce ==> t.price <= Schedule(txs)[i].price
  {
    hide Schedule;
    var x := SlotRuns(txs, t);
    var k :| 0 <= k < |Schedule(txs)| && Schedule(txs)[k] == x;
    if i < k {
      ScheduleIsSorted(txs, i, k);
    }
  }

  /** An ordered list is determined by what it holds. */
  lemma {:induction false} OrderedIsUnique(s: seq<Tx>, t: seq<Tx>)
    requires Ordered(s) && Ordered(t) && Elements(s) == Elements(t)
    ensures s == t
  {
    assert t != [] ==> t[0] in Elements(t);
    assert s != [] ==> s[0] in Elements(s);
    if s != [] {
      assert s[0] == t[0];
      RestOf(s);
      RestOf(t);
      OrderedIsUnique(s[1..], t[1..]);
      assert s == [s[0]] + s[1..] && t == [t[0]] + t[1..];
    }
  }

  lemma RestOf(s: seq<Tx>)
    requires Ordered(s) && s != []
    ensures Ordered(s[1..]) && Elements(s[1..]) == Elements(s) - {s[0]}
  {
    assert forall i :: 0 < i < |s| ==> s[i] != s[0];
    assert forall x :: x in s[1..] ==> x in s;
    assert forall x :: x in s ==> x == s[0] || x in s[1..];
  }

  /** The order of the input does not matter while no two different transactions share a slot. */
  lemma OrderDoesNotMatter(txs: seq<Tx>, txs': seq<Tx>)
    requires !Clash(txs) && Elements(txs) == Elements(txs')
    ensures Schedule(txs) == Schedule(txs')
  {
    assert forall x :: x in txs <==> x in Elements(txs);
    assert forall x :: x in txs' <==> x in Elements(txs');
    ScheduleKeeps(txs);
    ScheduleKeeps(txs');
    OrderedIsUnique(Schedule(txs), Schedule(txs'));
  }

  /** The transaction given first runs, whatever follows. */
  lemma {:induction false} FirstStays(a: Tx, rest: seq<Tx>)
    ensures a in Schedule([a] + rest)
  {
    if rest == [] {
      assert ([a] + rest)[..0] == [];
    } else {
      var k := |rest| - 1;
      FirstStays(a, rest[..k]);
      assert ([a] + rest)[..|rest|] == [a] + rest[..k];
      assert Schedule([a] + rest) == Enqueue(Schedule([a] + rest[..k]), rest[k]);
      hide Schedule, Enqueue, Ordered, Elements, SameSlot;
      ScheduleKeeps([a] + rest[..k]);
      EnqueueMembers(Schedule([a] + rest[..k]), rest[k]);
    }
  }

  /** The same transactions with one of them first. */
  ghost function MovedFirst(txs: seq<Tx>, a: Tx): (r: seq<Tx>)
    requires a in txs
    ensures r != [] && r[0] == a && multiset(r) == multiset(txs)
  {
    var i :| 0 <= i < |txs| && txs[i] == a;
    assert txs == txs[..i] + ([txs[i]] + txs[i + 1..]);
    [a] + (txs[..i] + txs[i + 1..])
  }

  lemma MovedFirstStays(txs: seq<Tx>, a: Tx)
    requires a in txs
    ensures a in Schedule(MovedFirst(txs, a))
  {
    var r := MovedFirst(txs, a);
    assert r == [a] + r[1..];
    FirstStays(a, r[1..]);
  }

  lemma SlotHoldsOne(s: seq<Tx>, a: Tx, b: Tx)
    requires Ordered(s) && a in s && b in s && SameSlot(a, b)
    ensures a == b
  {
  }

  lemma SameElements(txs: seq<Tx>, txs': seq<Tx>)
    requires multiset(txs) == multiset(txs')
    ensures Elements(txs) == Elements(txs')
  {
    assert forall x :: x in txs <==> x in multiset(txs);
    assert forall x :: x in txs' <==> x in multiset(txs');
  }

  /** A block runs the same whatever order its transactions are given in if and only if no two different
      ones share a slot. */
  lemma OrderDoesNotMatterIff(txs: seq<Tx>)
    ensures (forall txs' :: multiset(txs') == multiset(txs) ==> Schedule(txs') == Schedule(txs)) <==> !Clash(txs)
  {
    hide Schedule, Elements, Ordered;
    if Clash(txs) {
      var a, b :| a in txs && b in txs && a != b && SameSlot(a, b);
      MovedFirstStays(txs, a);
      MovedFirstStays(txs, b);
      ScheduleKeeps(txs);
      if Schedule(MovedFirst(txs, a)) == Schedule(txs) == Schedule(MovedFirst(txs, b)) {
        SlotHoldsOne(Schedule(txs), a, b);
      }
    } else {
      forall txs' | multiset(txs') == multiset(txs) ensures Schedule(txs') == Schedule(txs) {
        SameElements(txs, txs');
        OrderDoesNotMatter(txs, txs');
      }
    }
  }

  /** When two share one, the first one given is the one that runs. */
  lemma OrderMattersInASlot(a: Tx, b: Tx)
    requires SameSlot(a, b)
    ensures Schedule([a, b]) == [a] && Schedule([b, a]) == [b]
  {
    assert [a, b][..1] == [a] && [b, a][..1] == [b];
    assert Schedule([a]) == Enqueue(Schedule([a][..0]), a);
    assert Schedule([b]) == Enqueue(Schedule([b][..0]), b);
  }

  // ---------------------------------------------------------------- the set of each sender

  /** The transactions of some senders. */
  ghost function Sent(s: seq<Tx>, senders: set<Address>): seq<Tx> {
    if s == [] then [] else (if s[0].from in senders then [s[0]] else []) + Sent(s[1..], senders)
  }

  lemma {:induction false} SentElements(s: seq<Tx>, senders: set<Address>)
    ensures Elements(Sent(s, senders)) == set t | t in s && t.from in senders
    ensures Ordered(s) ==> Ordered(Sent(s, senders))
  {
    if s != [] {
      SentElements(s[1..], senders);
      var rest := Sent(s[1..], senders);
      assert forall t :: t in s <==> t == s[0] || t in s[1..];
      forall i | 0 <= i < |rest| ensures rest[i] in s[1..] { assert rest[i] in Elements(rest); }
      assert forall t :: t in Sent(s, senders) <==> (t == s[0] && s[0].from in senders) || t in rest;
      assert forall t :: t in rest <==> t in Elements(rest);
      if Ordered(s) {
        RestOf(s);
        assert forall t :: t in s[1..] ==> Precedes(s[0], t);
      }
    }
  }

  /** The sender with the least address comes first. */
  lemma SentSplit(s: seq<Tx>, left: set<Address>, a: Address)
    requires Ordered(s) && a in left && forall b :: b in left ==> a <= b
    ensures Sent(s, left) == Sent(s, {a}) + Sent(s, left - {a})
  {
    SentElements(s, left);
    SentElements(s, {a});
    SentElements(s, left - {a});
    var first, rest := Sent(s, {a}), Sent(s, left - {a});
    forall i | 0 <= i < |first| ensures first[i].from == a { assert first[i] in Elements(first); }
    forall i | 0 <= i < |rest| ensures a < rest[i].from { assert rest[i] in Elements(rest); }
    assert Ordered(first + rest);
    assert Elements(first + rest) == Elements(first) + Elements(rest);
    OrderedIsUnique(Sent(s, left), first + rest);
  }

  lemma {:induction false} SentByAll(s: seq<Tx>, senders: set<Address>)
    requires forall t :: t in s ==> t.from in senders
    ensures Sent(s, senders) == s
  {
    if s != [] {
      SentByAll(s[1..], senders);
      assert s == [s[0]] + s[1..];
    }
  }

  lemma {:induction false} SentByNone(s: seq<Tx>, senders: set<Address>)
    requires forall t :: t in s ==> t.from !in senders
    ensures Sent(s, senders) == []
  {
    if s != [] {
      SentByNone(s[1..], senders);
    }
  }

  lemma SentMembers(s: seq<Tx>, a: Address)
    ensures forall x :: x in Sent(s, {a}) <==> x in s && x.from == a
  {
    SentElements(s, {a});
    assert forall x :: x in Sent(s, {a}) <==> x in Elements(Sent(s, {a}));
  }

  lemma SameMembers(s: seq<Tx>, t: seq<Tx>)
    requires Ordered(s) && Ordered(t) && forall x :: x in s <==> x in t
    ensures s == t
  {
    OrderedIsUnique(s, t);
  }

  /** Inserting into the whole order inserts into the sender's set and leaves the others alone. */
  lemma SentEnqueue(s: seq<Tx>, t: Tx, a: Address)
    requires Ordered(s)
    ensures Sent(Enqueue(s, t), {a}) == if t.from == a then Enqueue(Sent(s, {a}), t) else Sent(s, {a})
  {
    SentElements(s, {a});
    EnqueueOrders(s, t);
    SentElements(Enqueue(s, t), {a});
    EnqueueOrders(Sent(s, {a}), t);
    hide Sent, Enqueue, Ordered, Elements;
    EnqueueMembers(s, t);
    SentMembers(Enqueue(s, t), a);
    SentMembers(s, a);
    if t.from == a {
      EnqueueMembers(Sent(s, {a}), t);
      SameMembers(Sent(Enqueue(s, t), {a}), Enqueue(Sent(s, {a}), t));
    } else {
      SameMembers(Sent(Enqueue(s, t), {a}), Sent(s, {a}));
    }
  }

  type Queues = map<Address, seq<Tx>>

  /** Each sender's set is its part of the order. */
  ghost predicate Queued(queues: Queues, s: seq<Tx>) {
    && (forall t :: t in s ==> t.from in queues)
    && (forall a :: a in queues ==> queues[a] == Sent(s, {a}))
  }

  /** `accounts.entry(from).or_default().insert(tx)` */
  function EnqueueFor(queues: Queues, t: Tx): Queues {
    queues[t.from := Enqueue(if t.from in queues then queues[t.from] else [], t)]
  }

  lemma QueuedMore(queues: Queues, s: seq<Tx>, t: Tx)
    requires Queued(queues, s) && Ordered(s)
    ensures Queued(EnqueueFor(queues, t), Enqueue(s, t))
  {
    hide Enqueue, Sent;
    EnqueueElements(s, t);
    assert forall x :: x in Enqueue(s, t) ==> x in Elements(Enqueue(s, t));
    if t.from !in queues {
      SentByNone(s, {t.from});
    }
    forall a | a in EnqueueFor(queues, t) ensures EnqueueFor(queues, t)[a] == Sent(Enqueue(s, t), {a}) {
      SentEnqueue(s, t, a);
    }
  }

  // ---------------------------------------------------------------- one transaction

  /** An account's free balance set to a new value. */
  function WithFree(states: States, a: Address, free: u64): States
    requires a in states
  {
    states[a := states[a].(free := free)]
  }

  /** `execute_payment_tx` */
  function ExecutePayment(states: States, tx: Tx): Result<States, StateError> {
    if tx.from !in states then Err(AccountNotFound)
    else
      var amount := Wrap(tx.price + tx.fee);
      if states[tx.from].free < amount then Err(InsufficientFunds)
      else
        var debited := WithFree(states, tx.from, states[tx.from].free - amount);
        if tx.To() !in debited then Err(AccountNotFound)
        else Ok(WithFree(debited, tx.To(), Wrap(debited[tx.To()].free + tx.price)))
  }

  /** The sender's nonce after a transaction. */
  function NextNonce(tx: u64, account: u64): u64 {
    if tx > account then Wrap(tx + 1) else Wrap(account + 1)
  }

  /** `apply_transaction`, of payments and raw data. */
  function ApplyTx(states: States, tx: Tx): Result<States, StateError> {
    var paid := match tx.data case Payment(_) => ExecutePayment(states, tx) case RawData => Ok(states);
    match paid
    case Err(e) => Err(e)
    case Ok(states') =>
      if tx.from !in states' then Err(AccountNotFound)
      else
        var from := states'[tx.from];
        Ok(states'[tx.from := from.(nonce := NextNonce(tx.nonce, from.nonce))])
  }

  /** A list of transactions, up to the first that fails. */
  function ApplyAll(states: States, txs: seq<Tx>): Result<States, StateError> {
    if txs == [] then Ok(states)
    else
      match ApplyTx(states, txs[0])
      case Err(e) => Err(e)
      case Ok(states') => ApplyAll(states', txs[1..])
  }

  /** Every account the transactions name. */
  ghost predicate Named(txs: seq<Tx>, keys: set<Address>) {
    forall i :: 0 <= i < |txs| ==> txs[i].from in keys && txs[i].To() in keys
  }

  /** What one transaction changes: a payment takes price and fee from its sender and gives the price to
      its recipient, and either kind moves its sender's nonce. */
  lemma ApplyTxEffect(states: States, tx: Tx)
    requires tx.from in states && tx.To() in states
    ensures var r := ApplyTx(states, tx); var amount := Wrap(tx.price + tx.fee); var to := tx.To();
      && (r.Err? <==> tx.data.Payment? && states[tx.from].free < amount)
      && (r.Err? ==> r.error == InsufficientFunds)
      && (r.Ok? ==>
            && r.value.Keys == states.Keys
            && r.value[tx.from].nonce == NextNonce(tx.nonce, states[tx.from].nonce)
            && r.value[tx.from].reserve == states[tx.from].reserve && r.value[tx.from].app == states[tx.from].app
            && (tx.data.RawData? ==> r.value[tx.from].free == states[tx.from].free)
            && (tx.data.Payment? && tx.from == to ==> r.value[to].free == Wrap(states[to].free - amount + tx.price))
            && (tx.data.Payment? && tx.from != to ==>
                  && r.value[tx.from].free == states[tx.from].free - amount
                  && r.value[to] == states[to].(free := Wrap(states[to].free + tx.price)))
            && (forall a :: a in states && a != tx.from && (tx.data.RawData? || a != to) ==> r.value[a] == states[a]))
  {
    hide Wrap, NextNonce;
  }

  /** The nonce of the sender rises if and only if it does not reach the end of 64 bits, and then it is
      above the nonce of the transaction too. */
  lemma NonceRisesIff(tx: u64, account: u64)
    ensures account < NextNonce(tx, account) <==> (tx < U64 - 1 || tx <= account) && account < U64 - 1
    ensures account < NextNonce(tx, account) ==> tx < NextNonce(tx, account)
  {
  }

  // ---------------------------------------------------------------- the total balance

  /** A sum over a set of accounts. */
  ghost function Sum(keys: set<Address>, f: Address -> nat): nat {
    if keys == {} then 0
    else
      var a :| a in keys;
      f(a) + Sum(keys - {a}, f)
  }

  lemma {:induction false} SumWithout(keys: set<Address>, f: Address -> nat, a: Address)
    requires a in keys
    ensures Sum(keys, f) == f(a) + Sum(keys - {a}, f)
  {
    var b :| b in keys && Sum(keys, f) == f(b) + Sum(keys - {b}, f);
    if a != b {
      SumWithout(keys - {b}, f, a);
      SumWithout(keys - {a}, f, b);
      assert keys - {a} - {b} == keys - {b} - {a};
    }
  }

  lemma {:induction false} SumSame(keys: set<Address>, f: Address -> nat, g: Address -> nat)
    requires forall a :: a in keys ==> f(a) == g(a)
    ensures Sum(keys, f) == Sum(keys, g)
  {
    if keys != {} {
      var a :| a in keys;
      SumWithout(keys, f, a);
      SumWithout(keys, g, a);
      SumSame(keys - {a}, f, g);
    }
  }

  /** Two sums that differ in one account. */
  lemma SumChanged(keys: set<Address>, f: Address -> nat, g: Address -> nat, a: Address)
    requires a in keys && forall b :: b in keys && b != a ==> f(b) == g(b)
    ensures Sum(keys, g) == Sum(keys, f) - f(a) + g(a) && f(a) <= Sum(keys, f)
  {
    SumWithout(keys, f, a);
    SumWithout(keys, g, a);
    SumSame(keys - {a}, f, g);
  }

  lemma {:induction false} SumIsZeroIff(keys: set<Address>, f: Address -> nat)
    ensures Sum(keys, f) == 0 <==> forall a :: a in keys ==> f(a) == 0
  {
    if keys != {} {
      var a :| a in keys;
      SumWithout(keys, f, a);
      SumIsZeroIff(keys - {a}, f);
    }
  }

  ghost function FreeOf(states: States): Address -> nat {
    a => if a in states then states[a].free else 0
  }

  /** The sum of the free balances. */
  ghost function Total(states: States): nat {
    Sum(states.Keys, FreeOf(states))
  }

  lemma TotalChanged(states: States, a: Address, s: AccountState)
    requires a in states
    ensures Total(states[a := s]) == Total(states) - states[a].free + s.free && states[a].free <= Total(states)
  {
    hide Sum;
    assert states[a := s].Keys == states.Keys;
    SumChanged(states.Keys, FreeOf(states), FreeOf(states[a := s]), a);
  }

  lemma TotalWithFree(states: States, a: Address, free: u64)
    requires a in states
    ensures Total(WithFree(states, a, free)) == Total(states) - states[a].free + free && states[a].free <= Total(states)
  {
    hide Total;
    TotalChanged(states, a, states[a].(free := free));
  }

  lemma WrapOnce(x: nat)
    requires x < 2 * U64
    ensures Wrap(x) == if x >= U64 then x - U64 else x
  {
  }

  /** What the recipient of a payment holds before the price is added. */
  function Kept(states: States, tx: Tx): int
    requires tx.from in states && tx.To() in states
  {
    if tx.from == tx.To() then states[tx.from].free - Wrap(tx.price + tx.fee) else states[tx.To()].free
  }

  /** A payment burns its fee, up to the wrap-around of its two sums. */
  lemma PaymentTotal(states: States, tx: Tx)
    requires tx.from in states && tx.To() in states && ExecutePayment(states, tx).Ok?
    ensures Total(ExecutePayment(states, tx).value) == Total(states) - tx.fee
      + (if tx.price + tx.fee >= U64 then U64 else 0) - (if Kept(states, tx) + tx.price >= U64 then U64 else 0)
    ensures Kept(states, tx) + Wrap(tx.price + tx.fee) <= Total(states)
  {
    hide Total, Wrap, WithFree, ExecutePayment, Kept;
    PaymentIs(states, tx);
    var amount, kept := Wrap(tx.price + tx.fee), Kept(states, tx);
    var debited := WithFree(states, tx.from, states[tx.from].free - amount);
    WrapOnce(tx.price + tx.fee);
    WrapOnce(kept + tx.price);
    TotalWithFree(states, tx.from, states[tx.from].free - amount);
    TotalWithFree(debited, tx.To(), Wrap(kept + tx.price));
  }

  lemma PaymentIs(states: States, tx: Tx)
    requires tx.from in states && tx.To() in states && ExecutePayment(states, tx).Ok?
    ensures var amount := Wrap(tx.price + tx.fee);
      && amount <= states[tx.from].free && 0 <= Kept(states, tx) < U64
      && var debited := WithFree(states, tx.from, states[tx.from].free - amount);
      && tx.To() in debited && debited[tx.To()].free == Kept(states, tx)
      && ExecutePayment(states, tx).value == WithFree(debited, tx.To(), Wrap(Kept(states, tx) + tx.price))
  {
    hide Wrap;
  }

  /** The total falls by exactly the fee if and only if both sums wrap around or neither does. */
  lemma PaymentConservesIff(states: States, tx: Tx)
    requires tx.from in states && tx.To() in states && ExecutePayment(states, tx).Ok?
    ensures Total(ExecutePayment(states, tx).value) == Total(states) - tx.fee
      <==> (tx.price + tx.fee >= U64 <==> Kept(states, tx) + tx.price >= U64)
  {
    hide Total, ExecutePayment, Kept;
    PaymentTotal(states, tx);
  }

  /** Setting a nonce does not change the total. */
  lemma NonceKeepsTotal(states: States, a: Address, nonce: u64)
    requires a in states
    ensures Total(states[a := states[a].(nonce := nonce)]) == Total(states)
  {
    hide Total;
    TotalChanged(states, a, states[a].(nonce := nonce));
  }

  function Fee(tx: Tx): nat {
    if tx.data.Payment? then tx.fee else 0
  }

  ghost function Fees(txs: seq<Tx>): nat {
    if txs == [] then 0 else Fee(txs[0]) + Fees(txs[1..])
  }

  /** How many sums of price and fee wrap around. */
  ghost function Overflows(txs: seq<Tx>): nat {
    if txs == [] then 0
    else (if txs[0].data.Payment? && txs[0].price + txs[0].fee >= U64 then 1 else 0) + Overflows(txs[1..])
  }

  /** What the payments give to an account. */
  ghost function Received(a: Address, txs: seq<Tx>): nat {
    if txs == [] then 0
    else (if txs[0].data.Payment? && txs[0].To() == a then txs[0].price else 0) + Received(a, txs[1..])
  }

  /** What the payments take from an account. */
  ghost function Spent(a: Address, txs: seq<Tx>): nat {
    if txs == [] then 0
    else (if txs[0].data.Payment? && txs[0].from == a then Wrap(txs[0].price + txs[0].fee) else 0) + Spent(a, txs[1..])
  }

  /** The balance an account would close with if balances could not wrap around. */
  ghost function Closing(states: States, a: Address, txs: seq<Tx>): int
    requires a in states
  {
    states[a].free + Received(a, txs) - Spent(a, txs)
  }

  /** Whether a transaction makes the balance of an account wrap around. */
  ghost predicate BalanceWraps(states: States, tx: Tx, a: Address)
    requires tx.from in states && tx.To() in states
  {
    tx.data.Payment? && tx.To() == a && Kept(states, tx) + tx.price >= U64
  }

  lemma ClosingStep(states: States, txs: seq<Tx>, a: Address)
    requires Named(txs, states.Keys) && txs != [] && ApplyTx(states, txs[0]).Ok? && a in states
    ensures var next := ApplyTx(states, txs[0]).value;
      && a in next
      && Closing(states, a, txs) == Closing(next, a, txs[1..]) + (if BalanceWraps(states, txs[0], a) then U64 else 0)
  {
    hide ApplyTx, Wrap;
    var tx := txs[0];
    ApplyTxEffect(states, tx);
    if tx.data.Payment? {
      WrapOnce(Kept(states, tx) + tx.price);
    }
  }

  /** The nonce of an account after a list of transactions. */
  ghost function NonceAfter(nonce: u64, a: Address, txs: seq<Tx>): u64
    decreases |txs|
  {
    if txs == [] then nonce
    else NonceAfter(if txs[0].from == a then NextNonce(txs[0].nonce, nonce) else nonce, a, txs[1..])
  }

  /** What any run that succeeds does to an account: the closing balance cut to 64 bits, and the nonce
      moved by the account's own transactions. */
  lemma {:induction false} AccountAfter(states: States, txs: seq<Tx>, a: Address)
    requires Named(txs, states.Keys) && ApplyAll(states, txs).Ok? && a in states
    ensures a in ApplyAll(states, txs).value && 0 <= Closing(states, a, txs)
    ensures ApplyAll(states, txs).value[a]
      == states[a].(free := Wrap(Closing(states, a, txs)), nonce := NonceAfter(states[a].nonce, a, txs))
    decreases |txs|
  {
    hide ApplyTx, NextNonce, Wrap, Closing, BalanceWraps;
    if txs == [] {
      ClosingAtEnd(states, a);
    } else {
      ApplyTxEffect(states, txs[0]);
      ClosingStep(states, txs, a);
      var next := ApplyTx(states, txs[0]).value;
      AccountAfter(next, txs[1..], a);
      WrapAgain(Closing(next, a, txs[1..]));
    }
  }

  lemma ClosingAtEnd(states: States, a: Address)
    requires a in states
    ensures Closing(states, a, []) == states[a].free == Wrap(states[a].free)
  {
  }

  lemma WrapAgain(x: nat)
    ensures Wrap(x + U64) == Wrap(x)
  {
  }

  /** How often the balances wrap around. */
  ghost function Carried(states: States, txs: seq<Tx>): nat {
    Sum(states.Keys, CarriesOf(states, txs))
  }

  ghost function CarriesOf(states: States, txs: seq<Tx>): Address -> nat {
    a => if a in states && 0 <= Closing(states, a, txs) then Closing(states, a, txs) / U64 else 0
  }

  lemma CarriedAtStart(states: States)
    ensures Carried(states, []) == 0
  {
    SumIsZeroIff(states.Keys, CarriesOf(states, []));
  }

  lemma CarriedStep(states: States, txs: seq<Tx>)
    requires Named(txs, states.Keys) && txs != [] && ApplyAll(states, txs).Ok?
    ensures Carried(states, txs)
      == Carried(ApplyTx(states, txs[0]).value, txs[1..]) + (if BalanceWraps(states, txs[0], txs[0].To()) then 1 else 0)
  {
    hide ApplyTx, Sum, Closing, BalanceWraps;
    var next, to := ApplyTx(states, txs[0]).value, txs[0].To();
    ApplyTxEffect(states, txs[0]);
    forall a | a in states
      ensures CarriesOf(states, txs)(a) == CarriesOf(next, txs[1..])(a) + (if BalanceWraps(states, txs[0], a) then 1 else 0)
      ensures a != to ==> !BalanceWraps(states, txs[0], a)
    {
      ClosingStep(states, txs, a);
      AccountAfter(next, txs[1..], a);
      WrapsAtRecipient(states, txs[0], a);
    }
    SumChanged(states.Keys, CarriesOf(next, txs[1..]), CarriesOf(states, txs), to);
  }

  lemma WrapsAtRecipient(states: States, tx: Tx, a: Address)
    requires tx.from in states && tx.To() in states
    ensures BalanceWraps(states, tx, a) ==> a == tx.To()
  {
  }

  lemma TxTotal(states: States, tx: Tx)
    requires tx.from in states && tx.To() in states && ApplyTx(states, tx).Ok?
    ensures Total(ApplyTx(states, tx).value) == Total(states) - Fee(tx)
      + (if tx.data.Payment? && tx.price + tx.fee >= U64 then U64 else 0) - (if BalanceWraps(states, tx, tx.To()) then U64 else 0)
  {
    hide Total, Wrap, WithFree, Kept;
    if tx.data.Payment? {
      PaymentTotal(states, tx);
      var paid := ExecutePayment(states, tx).value;
      NonceKeepsTotal(paid, tx.from, NextNonce(tx.nonce, paid[tx.from].nonce));
    } else {
      NonceKeepsTotal(states, tx.from, NextNonce(tx.nonce, states[tx.from].nonce));
    }
  }

  /** Over any run that succeeds the total falls by the fees, rises by 2^64 for each sum of price and fee
      that wraps around and falls by as much for each balance that does. */
  lemma {:induction false} BlockTotal(states: States, txs: seq<Tx>)
    requires Named(txs, states.Keys) && ApplyAll(states, txs).Ok?
    ensures Total(ApplyAll(states, txs).value) == Total(states) - Fees(txs) + U64 * (Overflows(txs) - Carried(states, txs))
    decreases |txs|
  {
    hide Total, ApplyTx, BalanceWraps, Carried;
    if txs == [] {
      CarriedAtStart(states);
    } else {
      ApplyTxEffect(states, txs[0]);
      TxTotal(states, txs[0]);
      CarriedStep(states, txs);
      BlockTotal(ApplyTx(states, txs[0]).value, txs[1..]);
    }
  }

  /** No payment's price and fee wrap around together. */
  ghost predicate AmountsFit(txs: seq<Tx>) {
    forall i :: 0 <= i < |txs| && txs[i].data.Payment? ==> txs[i].price + txs[i].fee < U64
  }

  lemma {:induction false} NoOverflows(txs: seq<Tx>)
    requires AmountsFit(txs)
    ensures Overflows(txs) == 0
  {
    if txs != [] {
      assert forall i :: 0 <= i < |txs[1..]| ==> txs[1..][i] == txs[i + 1];
      NoOverflows(txs[1..]);
    }
  }

  lemma CarriedNothingIff(states: States, txs: seq<Tx>)
    requires Named(txs, states.Keys) && ApplyAll(states, txs).Ok?
    ensures Carried(states, txs) == 0 <==> forall a :: a in states ==> Closing(states, a, txs) < U64
  {
    hide Sum, Closing, ApplyAll;
    SumIsZeroIff(states.Keys, CarriesOf(states, txs));
    forall a | a in states ensures CarriesOf(states, txs)(a) == 0 <==> Closing(states, a, txs) < U64 {
      AccountAfter(states, txs, a);
    }
  }

  /** A block lowers the total free balance by exactly the fees of its payments if and only if its sums of
      price and fee wrap around as often as its balances do; where no such sum does, if and only if every
      account's closing balance is below 2^64. */
  lemma BlockConservesIff(states: States, txs: seq<Tx>)
    requires Named(txs, states.Keys) && ApplyAll(states, txs).Ok?
    ensures Total(ApplyAll(states, txs).value) == Total(states) - Fees(txs) <==> Overflows(txs) == Carried(states, txs)
    ensures AmountsFit(txs) ==>
      (Total(ApplyAll(states, txs).value) == Total(states) - Fees(txs)
       <==> forall a :: a in states ==> Closing(states, a, txs) < U64)
  {
    hide Total, ApplyAll, Carried, Closing;
    BlockTotal(states, txs);
    CarriedNothingIff(states, txs);
    if AmountsFit(txs) {
      NoOverflows(txs);
    }
  }

  /** So it does when all balances together are below 2^64. */
  lemma BlockConserves(states: States, txs: seq<Tx>)
    requires Named(txs, states.Keys) && ApplyAll(states, txs).Ok?
    requires Total(states) < U64 && AmountsFit(txs)
    ensures Total(ApplyAll(states, txs).value) == Total(states) - Fees(txs)
  {
    hide Total, ApplyAll, Carried;
    BlockTotal(states, txs);
    NoOverflows(txs);
  }

  /** Without any condition, a block lowers the total by its fees up to a multiple of 2^64. */
  lemma BlockConservesModulo(states: States, txs: seq<Tx>)
    requires Named(txs, states.Keys) && ApplyAll(states, txs).Ok?
    ensures Wrap(Total(ApplyAll(states, txs).value) + Fees(txs)) == Wrap(Total(states))
  {
    hide Total, ApplyAll, Carried;
    BlockTotal(states, txs);
    WrapMultiple(Total(ApplyAll(states, txs).value) + Fees(txs), Total(states), Overflows(txs) - Carried(states, txs));
  }

  lemma WrapMultiple(a: nat, b: nat, k: int)
    requires a == b + U64 * k
    ensures Wrap(a) == Wrap(b)
  {
  }

  /** Two accounts with the given free balances. */
  ghost function TwoAccounts(a: Address, b: Address, free: u64, free': u64): States {
    map[a := NEW_ACCOUNT.(free := free), b := NEW_ACCOUNT.(free := free')]
  }

  lemma TotalOfTwo(a: Address, b: Address, free: u64, free': u64)
    requires a != b
    ensures Total(TwoAccounts(a, b, free, free')) == free + free'
  {
    var s := TwoAccounts(a, b, free, free');
    SumWithout(s.Keys, FreeOf(s), a);
    SumWithout(s.Keys - {a}, FreeOf(s), b);
    assert s.Keys - {a} - {b} == {};
  }

  /** A price whose sum with the fee wraps around is paid out of nothing. */
  lemma PaidFromNothing(a: Address, b: Address)
    requires a != b
    ensures var before, tx := TwoAccounts(a, b, 0, 0), Tx(a, 1, U64 - 1, 1, Payment(b), 0);
      ApplyTx(before, tx).Ok? && Total(before) == 0 && Total(ApplyTx(before, tx).value) == U64 - 1
  {
    var before, tx := TwoAccounts(a, b, 0, 0), Tx(a, 1, U64 - 1, 1, Payment(b), 0);
    hide Total;
    TotalOfTwo(a, b, 0, 0);
    ApplyTxEffect(before, tx);
    TxTotal(before, tx);
  }

  /** A recipient's balance that wraps around loses everything, without a fee. */
  lemma PaidIntoNothing(a: Address, b: Address)
    requires a != b
    ensures var before, tx := TwoAccounts(a, b, U64 - 1, 1), Tx(a, 1, U64 - 1, 0, Payment(b), 0);
      ApplyTx(before, tx).Ok? && Fee(tx) == 0 && Total(before) == U64 && Total(ApplyTx(before, tx).value) == 0
  {
    var before, tx := TwoAccounts(a, b, U64 - 1, 1), Tx(a, 1, U64 - 1, 0, Payment(b), 0);
    hide Total;
    TotalOfTwo(a, b, U64 - 1, 1);
    ApplyTxEffect(before, tx);
    TxTotal(before, tx);
  }

  /** A run neither adds nor removes accounts. */
  lemma {:induction false} BlockKeepsKeys(states: States, txs: seq<Tx>)
    requires Named(txs, states.Keys) && ApplyAll(states, txs).Ok?
    ensures ApplyAll(states, txs).value.Keys == states.Keys
    decreases |txs|
  {
    hide ApplyTx;
    if txs != [] {
      ApplyTxEffect(states, txs[0]);
      BlockKeepsKeys(ApplyTx(states, txs[0]).value, txs[1..]);
    }
  }

  lemma NonceWithoutWrap(tx: u64, account: u64)
    ensures tx < U64 - 1 && account < U64 - 1 ==> NextNonce(tx, account) == (if tx > account then tx + 1 else account + 1)
  {
  }

  /** How many of the transactions an account sent. */
  ghost function SentBy(a: Address, txs: seq<Tx>): nat {
    if txs == [] then 0 else (if txs[0].from == a then 1 else 0) + SentBy(a, txs[1..])
  }

  /** Over a block an account's nonce rises by at least one for each transaction it sent and ends above
      their nonces, unless 64 bits run out; without any it stays. */
  lemma {:induction false} BlockNonces(states: States, txs: seq<Tx>, a: Address, bound: nat)
    requires Named(txs, states.Keys) && ApplyAll(states, txs).Ok? && a in states
    requires states[a].nonce + |txs| <= bound < U64 && forall i :: 0 <= i < |txs| ==> txs[i].nonce + |txs| <= bound
    ensures ApplyAll(states, txs).value.Keys == states.Keys
    ensures states[a].nonce + SentBy(a, txs) <= ApplyAll(states, txs).value[a].nonce <= bound
    ensures SentBy(a, txs) == 0 ==> ApplyAll(states, txs).value[a].nonce == states[a].nonce
    ensures forall i :: 0 <= i < |txs| && txs[i].from == a ==> txs[i].nonce < ApplyAll(states, txs).value[a].nonce
    decreases |txs|
  {
    hide ApplyTx, NextNonce;
    if txs != [] {
      ApplyTxEffect(states, txs[0]);
      NonceWithoutWrap(txs[0].nonce, states[txs[0].from].nonce);
      var next := ApplyTx(states, txs[0]).value;
      BlockNonces(next, txs[1..], a, bound);
      assert forall i :: 0 < i < |txs| ==> txs[i] == txs[1..][i - 1];
    }
  }

  // ---------------------------------------------------------------- an account left as it was

  lemma {:induction false} NothingSentBy(nonce: u64, txs: seq<Tx>, a: Address)
    requires SentBy(a, txs) == 0
    ensures Spent(a, txs) == 0 && NonceAfter(nonce, a, txs) == nonce
  {
    if txs != [] {
      NothingSentBy(nonce, txs[1..], a);
    }
  }

  /** Nonces do not run out of 64 bits within so many transactions. */
  ghost predicate NoncesFit(nonce: u64, txs: seq<Tx>) {
    nonce + |txs| < U64 && forall i :: 0 <= i < |txs| ==> txs[i].nonce + |txs| < U64
  }

  lemma NonceComesBackIff(states: States, txs: seq<Tx>, a: Address)
    requires Named(txs, states.Keys) && ApplyAll(states, txs).Ok? && a in states && NoncesFit(states[a].nonce, txs)
    ensures states[a].nonce + SentBy(a, txs) <= NonceAfter(states[a].nonce, a, txs)
    ensures NonceAfter(states[a].nonce, a, txs) == states[a].nonce <==> SentBy(a, txs) == 0
  {
    hide ApplyAll, Wrap;
    BlockNonces(states, txs, a, U64 - 1);
    AccountAfter(states, txs, a);
  }

  lemma WrapBack(free: u64, x: int)
    requires 0 <= free + x
    ensures Wrap(free + x) == free <==> x % U64 == 0
  {
  }

  /** A run leaves an account as it was if and only if its own transactions bring its nonce back and it is
      paid as much as it spends, up to a multiple of 2^64. While nonces stay inside 64 bits that is to send
      nothing and to be paid a multiple of 2^64. */
  lemma UnchangedIff(states: States, txs: seq<Tx>, a: Address)
    requires Named(txs, states.Keys) && ApplyAll(states, txs).Ok? && a in states
    ensures a in ApplyAll(states, txs).value
    ensures ApplyAll(states, txs).value[a] == states[a]
      <==> NonceAfter(states[a].nonce, a, txs) == states[a].nonce && (Received(a, txs) - Spent(a, txs)) % U64 == 0
    ensures NoncesFit(states[a].nonce, txs) ==>
      (ApplyAll(states, txs).value[a] == states[a] <==> SentBy(a, txs) == 0 && Received(a, txs) % U64 == 0)
  {
    hide ApplyAll, Wrap, NonceAfter;
    AccountAfter(states, txs, a);
    WrapBack(states[a].free, Received(a, txs) - Spent(a, txs));
    if SentBy(a, txs) == 0 {
      NothingSentBy(states[a].nonce, txs, a);
    }
    if NoncesFit(states[a].nonce, txs) {
      NonceComesBackIff(states, txs, a);
    }
  }

  lemma {:induction false} NotNamed(nonce: u64, txs: seq<Tx>, a: Address)
    requires forall i :: 0 <= i < |txs| ==> txs[i].from != a && txs[i].To() != a
    ensures SentBy(a, txs) == 0 && Received(a, txs) == Spent(a, txs) == 0 && NonceAfter(nonce, a, txs) == nonce
  {
    if txs != [] {
      assert forall i :: 0 <= i < |txs[1..]| ==> txs[1..][i] == txs[i + 1];
      NotNamed(nonce, txs[1..], a);
    }
  }

  lemma {:induction false} ScheduleIsNoLonger(txs: seq<Tx>)
    ensures |Schedule(txs)| <= |txs|
  {
    if txs != [] {
      ScheduleIsNoLonger(txs[..|txs| - 1]);
      EnqueueAddsOne(Schedule(txs[..|txs| - 1]), txs[|txs| - 1]);
    }
  }

  lemma {:induction false} EnqueueAddsOne(s: seq<Tx>, t: Tx)
    ensures |Enqueue(s, t)| <= |s| + 1
  {
    if s != [] {
      EnqueueAddsOne(s[1..], t);
    }
  }
}
