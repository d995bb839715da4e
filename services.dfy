/** The ledger transaction service (ledger/services.py): `deposit` and
    `withdraw`, each one all-or-nothing unit of work over the wallet table and
    the transaction log, made safe to retry by a caller-supplied idempotency
    key.

    `DepositStep` and `WithdrawStep` state what one call does to the two
    tables and what it returns; the class `Ledger` performs the same calls
    step by step, as the source does, and is proved to agree with them. The
    lemmas after them state the service's guarantees: a key goes from unseen
    to exactly one record and never changes again, a retry returns that record
    without touching the balance, the balance always equals the sum of the
    user's successful records and never goes negative, and no other user is
    affected. */
module Services {
  import opened Wrappers
  import opened Models

  /** `ValueError("Missing Idempotency-Key")` and `InsufficientFunds`. */
  datatype LedgerError = MissingIdempotencyKey | InsufficientFunds

  /** A call either returns a transaction record or raises. */
  type Outcome = Result<Transaction, LedgerError>

  /** The persisted state: each user's wallet balance in units (at most one
      wallet per user) and the transaction log in insertion order. */
  datatype Store = Store(balances: map<UserId, int>, log: seq<Transaction>)

  /** What becomes of the FAILED record a withdraw inserts when funds are
      short. `RolledBack` is the code as written: `InsufficientFunds` is
      raised inside the atomic unit of work, which undoes the insert.
      `Persisted` is the behaviour the code's comment describes, where the
      failed record is kept so that a retry returns it. */
  datatype FailurePolicy = RolledBack | Persisted

  /** The row `Transaction.objects.create` adds next. */
  function NewRecord(log: seq<Transaction>, user: UserId, kind: Kind, status: Status,
                     amount: int, key: string): Transaction
  {
    Transaction(|log| + 1, user, kind, status, amount, key)
  }

  /** `deposit(user=user, amount=amount, idem_key=key)`. */
  function DepositStep(s: Store, user: UserId, amount: int, key: string): (Store, Outcome)
    requires user in s.balances
  {
    if key == "" then (s, Err(MissingIdempotencyKey))
    else
      match Find(s.log, user, key)
      case Some(existing) => (s, Ok(existing))
      case None =>
        var tx := NewRecord(s.log, user, Deposit, Success, amount, key);
        (Store(s.balances[user := s.balances[user] + amount], s.log + [tx]), Ok(tx))
  }

  /** `withdraw(user=user, amount=amount, idem_key=key)`. */
  function WithdrawStep(s: Store, user: UserId, amount: int, key: string,
                        policy: FailurePolicy): (Store, Outcome)
    requires user in s.balances
  {
    if key == "" then (s, Err(MissingIdempotencyKey))
    else
      match Find(s.log, user, key)
      case Some(existing) => (s, Ok(existing))
      case None =>
        var balance := s.balances[user];
        if balance < amount then
          var failed := NewRecord(s.log, user, Withdraw, Failed, amount, key);
          var after := if policy == RolledBack then s else Store(s.balances, s.log + [failed]);
          (after, Err(InsufficientFunds))
        else
          var tx := NewRecord(s.log, user, Withdraw, Success, amount, key);
          (Store(s.balances[user := balance - amount], s.log + [tx]), Ok(tx))
  }

  /** Creating a user's wallet (`Wallet.objects.create(user=user)`): the
      balance starts at its default, and a second wallet for the same user is
      refused by the one-to-one constraint. */
  function OpenWalletStep(s: Store, user: UserId): (r: (Store, bool))
    ensures r.1 <==> user !in s.balances
    ensures r.1 ==> r.0 == Store(s.balances[user := NewWalletBalance], s.log)
    ensures !r.1 ==> r.0 == s
  {
    if user in s.balances then (s, false)
    else (Store(s.balances[user := NewWalletBalance], s.log), true)
  }

  /** A call of the service, as a value. */
  datatype Call =
    | DepositCall(user: UserId, amount: int, key: string)
    | WithdrawCall(user: UserId, amount: int, key: string)

  function Apply(s: Store, c: Call, policy: FailurePolicy): (r: (Store, Outcome))
    requires c.user in s.balances
    ensures r.0.balances.Keys == s.balances.Keys
  {
    match c
    case DepositCall(user, amount, key) => DepositStep(s, user, amount, key)
    case WithdrawCall(user, amount, key) => WithdrawStep(s, user, amount, key, policy)
  }

  /** Every call is made by a user who has a wallet. */
  predicate CallersHaveWallets(s: Store, calls: seq<Call>)
  {
    forall i | 0 <= i < |calls| :: calls[i].user in s.balances
  }

  /** The state after a sequence of calls, one after the other. */
  function Run(s: Store, calls: seq<Call>, policy: FailurePolicy): (r: Store)
    requires CallersHaveWallets(s, calls)
    ensures r.balances.Keys == s.balances.Keys
    decreases |calls|
  {
    if calls == [] then s
    else Run(Apply(s, calls[0], policy).0, calls[1..], policy)
  }

  /** The store invariant: the uniqueness constraint and the primary keys of
      the log hold, every record belongs to a user with a wallet, and each
      balance is the net effect of its owner's successful records. */
  ghost predicate Consistent(s: Store)
  {
    && UniqueKeys(s.log)
    && IdsArePositions(s.log)
    && (forall i | 0 <= i < |s.log| :: s.log[i].user in s.balances)
    && (forall u | u in s.balances :: s.balances[u] == Net(s.log, u))
  }

  ghost predicate NonNegative(balances: map<UserId, int>)
  {
    forall u | u in balances :: balances[u] >= 0
  }

  predicate PositiveAmounts(calls: seq<Call>)
  {
    forall i | 0 <= i < |calls| :: calls[i].amount > 0
  }

  // ----- one call -----

  /** An empty key is refused by both operations and changes nothing. */
  lemma MissingKeyRejected(s: Store, user: UserId, amount: int, policy: FailurePolicy)
    requires user in s.balances
    ensures DepositStep(s, user, amount, "") == (s, Err(MissingIdempotencyKey))
    ensures WithdrawStep(s, user, amount, "", policy) == (s, Err(MissingIdempotencyKey))
  {
  }

  /** A key that already has a record returns that record, whatever the
      operation, amount or balance, and changes nothing. */
  lemma ExistingKeyReturned(s: Store, c: Call, policy: FailurePolicy)
    requires c.user in s.balances && c.key != ""
    requires Find(s.log, c.user, c.key).Some?
    ensures Apply(s, c, policy) == (s, Ok(Find(s.log, c.user, c.key).value))
  {
  }

  /** A deposit under a fresh key adds exactly `amount` to the balance and
      appends exactly one successful deposit record, which it returns. */
  lemma DepositFreshKey(s: Store, user: UserId, amount: int, key: string)
    requires user in s.balances && key != ""
    requires Find(s.log, user, key).None?
    ensures var (s', r) := DepositStep(s, user, amount, key);
      && r.Ok?
      && r.value == Transaction(|s.log| + 1, user, Deposit, Success, amount, key)
      && s'.balances == s.balances[user := s.balances[user] + amount]
      && s'.log == s.log + [r.value]
      && Find(s'.log, user, key) == Some(r.value)
  {
    var tx := NewRecord(s.log, user, Deposit, Success, amount, key);
    FindExtend(s.log, [tx], user, key);
  }

  /** A withdraw under a fresh key with enough funds takes exactly `amount`
      off the balance and appends one successful withdraw record. */
  lemma WithdrawSufficient(s: Store, user: UserId, amount: int, key: string, policy: FailurePolicy)
    requires user in s.balances && key != ""
    requires Find(s.log, user, key).None? && s.balances[user] >= amount
    ensures var (s', r) := WithdrawStep(s, user, amount, key, policy);
      && r.Ok?
      && r.value == Transaction(|s.log| + 1, user, Withdraw, Success, amount, key)
      && s'.balances == s.balances[user := s.balances[user] - amount]
      && s'.log == s.log + [r.value]
      && Find(s'.log, user, key) == Some(r.value)
  {
    var tx := NewRecord(s.log, user, Withdraw, Success, amount, key);
    FindExtend(s.log, [tx], user, key);
  }

  /** A withdraw under a fresh key without enough funds raises
      `InsufficientFunds` and leaves every balance as it was. As written the
      whole unit of work is undone, so the log is unchanged too; under the
      intended policy exactly one failed record is kept. */
  lemma WithdrawInsufficient(s: Store, user: UserId, amount: int, key: string, policy: FailurePolicy)
    requires user in s.balances && key != ""
    requires Find(s.log, user, key).None? && s.balances[user] < amount
    ensures var (s', r) := WithdrawStep(s, user, amount, key, policy);
      && r == Err(InsufficientFunds)
      && s'.balances == s.balances
      && (policy == RolledBack ==> s'.log == s.log)
      && (policy == Persisted ==>
            s'.log == s.log + [Transaction(|s.log| + 1, user, Withdraw, Failed, amount, key)])
  {
  }

  /** A call either changes nothing, or it appends one record under a key the
      caller had not used, carrying the call's user, key and amount and the
      next id, and moves the caller's balance by that record's effect; no
      earlier record and no other balance changes. */
  lemma StepAppendsAtMostOne(s: Store, c: Call, policy: FailurePolicy)
    requires c.user in s.balances
    ensures var s' := Apply(s, c, policy).0;
      || s' == s
      || (&& c.key != "" && Find(s.log, c.user, c.key).None?
          && |s'.log| == |s.log| + 1 && s'.log == s.log + [s'.log[|s.log|]]
          && s'.log[|s.log|].id == |s.log| + 1
          && s'.log[|s.log|].user == c.user && s'.log[|s.log|].key == c.key
          && s'.log[|s.log|].amount == c.amount
          && s'.balances == s.balances[c.user := s.balances[c.user] + Effect(s'.log[|s.log|])])
  {
    if c.key != "" && Find(s.log, c.user, c.key).None? {
      match c
      case DepositCall(user, amount, key) =>
        var tx := NewRecord(s.log, user, Deposit, Success, amount, key);
        assert Apply(s, c, policy).0 == Store(s.balances[user := s.balances[user] + amount], s.log + [tx]);
      case WithdrawCall(user, amount, key) =>
        var balance := s.balances[user];
        if balance >= amount {
          var tx := NewRecord(s.log, user, Withdraw, Success, amount, key);
          assert Apply(s, c, policy).0 == Store(s.balances[user := balance - amount], s.log + [tx]);
        } else if policy == Persisted {
          var failed := NewRecord(s.log, user, Withdraw, Failed, amount, key);
          assert Apply(s, c, policy).0 == Store(s.balances, s.log + [failed]);
          assert s.balances[user := balance + Effect(failed)] == s.balances;
        }
    }
  }

  /** A call touches neither another user's balance nor another user's
      records. */
  lemma StepIsolation(s: Store, c: Call, policy: FailurePolicy, other: UserId)
    requires c.user in s.balances && other != c.user
    ensures var s' := Apply(s, c, policy).0;
      && (other in s.balances ==> s'.balances[other] == s.balances[other])
      && History(s'.log, other) == History(s.log, other)
  {
    var s' := Apply(s, c, policy).0;
    StepAppendsAtMostOne(s, c, policy);
    if s' != s {
      HistoryAppend(s.log, s'.log[|s.log|], other);
    }
  }

  /** Once a call returns a record, calling again with the same user and key,
      with any operation and amount, returns the same record and changes
      nothing: the balance change is applied once. */
  lemma RetryReturnsSameRecord(s: Store, c: Call, retry: Call, policy: FailurePolicy)
    requires c.user in s.balances
    requires retry.user == c.user && retry.key == c.key
    requires Apply(s, c, policy).1.Ok?
    ensures var (s', r) := Apply(s, c, policy);
      Apply(s', retry, policy) == (s', r)
  {
    var (s', r) := Apply(s, c, policy);
    if Find(s.log, c.user, c.key).None? {
      FindExtend(s.log, [r.value], c.user, c.key);
    }
  }

  /** The service applied to its own result state: a second identical call
      leaves the state where the first one put it. */
  lemma StepIdempotent(s: Store, c: Call, policy: FailurePolicy)
    requires c.user in s.balances
    ensures var s' := Apply(s, c, policy).0;
      Apply(s', c, policy).0 == s'
  {
    var (s', r) := Apply(s, c, policy);
    if r.Ok? {
      RetryReturnsSameRecord(s, c, c, policy);
    } else if s' != s {
      var failed := NewRecord(s.log, c.user, Withdraw, Failed, c.amount, c.key);
      assert s'.log == s.log + [failed];
      FindExtend(s.log, [failed], c.user, c.key);
    }
  }

  /** As written, a withdraw that ran short of funds leaves no trace, so a
      retry with the same key is judged afresh against the balance of the
      moment: after the user has deposited enough under another key, the
      same request succeeds. */
  lemma AsWrittenShortWithdrawIsForgotten()
    ensures var s0 := Store(map[7 := 0], []);
      var (s1, r1) := WithdrawStep(s0, 7, 100, "wd-1", RolledBack);
      var (s2, _) := DepositStep(s1, 7, 200, "dep-1");
      var (s3, r3) := WithdrawStep(s2, 7, 100, "wd-1", RolledBack);
      && r1 == Err(InsufficientFunds) && s1 == s0
      && r3.Ok? && r3.value.status == Success && s3.balances[7] == 100
  {
    var s0 := Store(map[7 := 0], []);
    var (s2, _) := DepositStep(s0, 7, 200, "dep-1");
    assert s2.log[0].key == "dep-1";
    assert Find(s2.log, 7, "wd-1").None?;
  }

  /** Under the intended policy the failed record closes the key: a retry
      returns it instead of looking at the balance again, even after the
      balance has grown. */
  lemma PersistedFailureIsTerminal(s: Store, user: UserId, amount: int, key: string,
                                   later: seq<Call>, retry: Call)
    requires user in s.balances && key != "" && Consistent(s)
    requires Find(s.log, user, key).None? && s.balances[user] < amount
    requires var s1 := WithdrawStep(s, user, amount, key, Persisted).0;
      CallersHaveWallets(s1, later) && retry.user == user && retry.key == key
    ensures var s1 := WithdrawStep(s, user, amount, key, Persisted).0;
      var s2 := Run(s1, later, Persisted);
      Apply(s2, retry, Persisted)
        == (s2, Ok(Transaction(|s.log| + 1, user, Withdraw, Failed, amount, key)))
  {
    var failed := NewRecord(s.log, user, Withdraw, Failed, amount, key);
    var s1 := WithdrawStep(s, user, amount, key, Persisted).0;
    FindExtend(s.log, [failed], user, key);
    RunKeepsRecords(s1, later, Persisted, user, key);
  }

  /** Opening a wallet keeps the invariant, and a new wallet starts empty. */
  lemma OpenWalletKeepsConsistent(s: Store, user: UserId)
    requires Consistent(s)
    ensures Consistent(OpenWalletStep(s, user).0)
    ensures OpenWalletStep(s, user).0.balances[user] == (if user in s.balances then s.balances[user] else 0)
  {
    if user !in s.balances {
      assert Net(s.log, user) == 0 by {
        NetOfStranger(s.log, user);
      }
    }
  }

  /** A user with no records has a net effect of zero. */
  lemma {:induction false} NetOfStranger(log: seq<Transaction>, user: UserId)
    requires forall i | 0 <= i < |log| :: log[i].user != user
    ensures Net(log, user) == 0
  {
    if log != [] {
      NetOfStranger(log[..|log| - 1], user);
    }
  }

  /** Every call keeps the store invariant. */
  lemma StepKeepsConsistent(s: Store, c: Call, policy: FailurePolicy)
    requires c.user in s.balances && Consistent(s)
    ensures Consistent(Apply(s, c, policy).0)
  {
    var s' := Apply(s, c, policy).0;
    StepAppendsAtMostOne(s, c, policy);
    if s' != s {
      var tx := s'.log[|s.log|];
      assert forall i | 0 <= i < |s.log| :: !Matches(s.log[i], c.user, c.key);
      assert UniqueKeys(s'.log);
      assert IdsArePositions(s'.log);
      forall u | u in s'.balances
        ensures s'.balances[u] == Net(s'.log, u)
      {
        NetAppend(s.log, tx, u);
      }
    }
  }

  /** With a positive amount, no call makes a balance negative. */
  lemma StepKeepsNonNegative(s: Store, c: Call, policy: FailurePolicy)
    requires c.user in s.balances && NonNegative(s.balances) && c.amount > 0
    ensures NonNegative(Apply(s, c, policy).0.balances)
  {
  }

  // ----- sequences of calls -----

  function Repeat(c: Call, n: nat): (calls: seq<Call>)
    ensures |calls| == n && forall i | 0 <= i < n :: calls[i] == c
  {
    if n == 0 then [] else [c] + Repeat(c, n - 1)
  }

  /** The invariant holds after any sequence of calls. */
  lemma {:induction false} RunKeepsConsistent(s: Store, calls: seq<Call>, policy: FailurePolicy)
    requires CallersHaveWallets(s, calls) && Consistent(s)
    ensures Consistent(Run(s, calls, policy))
    decreases |calls|
  {
    if calls != [] {
      StepKeepsConsistent(s, calls[0], policy);
      RunKeepsConsistent(Apply(s, calls[0], policy).0, calls[1..], policy);
    }
  }

  /** From non-negative balances, positive amounts keep every balance
      non-negative through any sequence of calls. */
  lemma {:induction false} RunKeepsNonNegative(s: Store, calls: seq<Call>, policy: FailurePolicy)
    requires CallersHaveWallets(s, calls) && NonNegative(s.balances) && PositiveAmounts(calls)
    ensures NonNegative(Run(s, calls, policy).balances)
    decreases |calls|
  {
    if calls != [] {
      StepKeepsNonNegative(s, calls[0], policy);
      assert PositiveAmounts(calls[1..]);
      RunKeepsNonNegative(Apply(s, calls[0], policy).0, calls[1..], policy);
    }
  }

  /** Records are never changed or removed: the log only grows, and a key
      that has a record keeps that same record through any later calls. */
  lemma {:induction false} RunKeepsRecords(s: Store, calls: seq<Call>, policy: FailurePolicy,
                                          user: UserId, key: string)
    requires CallersHaveWallets(s, calls)
    ensures var s' := Run(s, calls, policy);
      && |s.log| <= |s'.log| && s'.log[..|s.log|] == s.log
      && (Find(s.log, user, key).Some? ==> Find(s'.log, user, key) == Find(s.log, user, key))
    decreases |calls|
  {
    if calls == [] {
      assert s.log[..|s.log|] == s.log;
    } else {
      var s1 := Apply(s, calls[0], policy).0;
      StepKeepsPrefix(s, calls[0], policy);
      assert CallersHaveWallets(s1, calls[1..]);
      RunKeepsRecords(s1, calls[1..], policy, user, key);
      var s' := Run(s1, calls[1..], policy);
      PrefixOfPrefix(s.log, s1.log, s'.log);
      FindExtend(s.log, s'.log[|s.log|..], user, key);
      assert s.log + s'.log[|s.log|..] == s'.log;
    }
  }

  /** One call keeps the log as a prefix of the new log. */
  lemma StepKeepsPrefix(s: Store, c: Call, policy: FailurePolicy)
    requires c.user in s.balances
    ensures var s' := Apply(s, c, policy).0;
      |s.log| <= |s'.log| && s'.log[..|s.log|] == s.log
  {
    StepAppendsAtMostOne(s, c, policy);
    assert s.log[..|s.log|] == s.log;
  }

  lemma PrefixOfPrefix(a: seq<Transaction>, b: seq<Transaction>, c: seq<Transaction>)
    requires |a| <= |b| <= |c| && b[..|a|] == a && c[..|b|] == b
    ensures c[..|a|] == a
  {
    assert c[..|a|] == c[..|b|][..|a|];
  }

  /** Sending the same call any number of times has the effect of sending it
      once. */
  lemma {:induction false} RepeatedCallAppliesOnce(s: Store, c: Call, n: nat, policy: FailurePolicy)
    requires c.user in s.balances && n >= 1
    ensures CallersHaveWallets(s, Repeat(c, n))
    ensures Run(s, Repeat(c, n), policy) == Apply(s, c, policy).0
    decreases n
  {
    var s1 := Apply(s, c, policy).0;
    assert Repeat(c, n)[1..] == Repeat(c, n - 1);
    if n > 1 {
      RepeatedCallAppliesOnce(s1, c, n - 1, policy);
      var s2 := Apply(s1, c, policy).0;
      StepIdempotent(s, c, policy);
      assert s2 == s1;
    }
  }

  /** A deposit of 5 and then a withdraw of 2 under distinct keys leave a
      balance of 3 and two successful records, listed newest first. */
  lemma DepositThenWithdrawScenario()
    ensures var s0 := Store(map[1 := 0], []);
      var s2 := Run(s0, [DepositCall(1, 5 * UnitsPerWhole, "dep-1"),
                         WithdrawCall(1, 2 * UnitsPerWhole, "wd-1")], RolledBack);
      && s2.balances[1] == 3 * UnitsPerWhole
      && |History(s2.log, 1)| == 2
      && History(s2.log, 1)[0].kind == Withdraw && History(s2.log, 1)[0].status == Success
      && History(s2.log, 1)[1].kind == Deposit && History(s2.log, 1)[1].status == Success
  {
    var s0 := Store(map[1 := 0], []);
    var calls := [DepositCall(1, 5 * UnitsPerWhole, "dep-1"), WithdrawCall(1, 2 * UnitsPerWhole, "wd-1")];
    var s1 := Apply(s0, calls[0], RolledBack).0;
    assert s1.log == [Transaction(1, 1, Deposit, Success, 5 * UnitsPerWhole, "dep-1")];
    assert Find(s1.log, 1, "wd-1").None?;
    var s2 := Apply(s1, calls[1], RolledBack).0;
    assert calls[1..][0] == calls[1] && calls[1..][1..] == [];
    assert Run(s1, calls[1..], RolledBack) == Run(s2, [], RolledBack) == s2;
    assert Run(s0, calls, RolledBack) == s2;
    assert s2.log == s1.log + [Transaction(2, 1, Withdraw, Success, 2 * UnitsPerWhole, "wd-1")];
    assert s2.log[..1] == s1.log;
  }

  /** The two tables, updated in place by `deposit` and `withdraw`. */
  class Ledger {
    /** The wallet table: each user's balance, in units. */
    var balances: map<UserId, int>
    /** The transaction table, in insertion order. */
    var transactions: seq<Transaction>

    function State(): Store
      reads this
    {
      Store(balances, transactions)
    }

    ghost predicate Valid()
      reads this
    {
      Consistent(State())
    }

    constructor ()
      ensures Valid() && balances == map[] && transactions == []
    {
      balances := map[];
      transactions := [];
    }

    /** `Wallet.objects.create(user=user)`. */
    method OpenWallet(user: UserId) returns (created: bool)
      requires Valid()
      modifies this
      ensures Valid()
      ensures (State(), created) == OpenWalletStep(old(State()), user)
    {
      OpenWalletKeepsConsistent(State(), user);
      if user in balances {
        return false;
      }
      balances := balances[user := NewWalletBalance];
      created := true;
    }

    /** `Transaction.objects.create(...)`: the uniqueness constraint on
        (user, idempotency key) turns a second row for the same key into an
        `IntegrityError` (`Duplicate`, holding the row already there). */
    method Create(user: UserId, kind: Kind, status: Status, amount: int, key: string)
      returns (c: Insertion)
      modifies this
      ensures balances == old(balances)
      ensures Find(old(transactions), user, key).Some? ==>
        c == Duplicate(Find(old(transactions), user, key).value) && transactions == old(transactions)
      ensures Find(old(transactions), user, key).None? ==>
        c == Inserted(NewRecord(old(transactions), user, kind, status, amount, key))
        && transactions == old(transactions) + [c.record]
    {
      match Find(transactions, user, key)
      case Some(existing) =>
        c := Duplicate(existing);
      case None =>
        var tx := NewRecord(transactions, user, kind, status, amount, key);
        transactions := transactions + [tx];
        c := Inserted(tx);
    }

    /** `deposit`. */
    method Deposit(user: UserId, amount: int, key: string) returns (r: Outcome)
      requires Valid() && user in balances
      modifies this
      ensures Valid()
      ensures (State(), r) == DepositStep(old(State()), user, amount, key)
    {
      StepKeepsConsistent(State(), DepositCall(user, amount, key), RolledBack);
      if key == "" {
        return Err(MissingIdempotencyKey);
      }
      // idempotency fast path
      var existing := Find(transactions, user, key);
      if existing.Some? {
        return Ok(existing.value);
      }
      var balance := balances[user];
      balances := balances[user := balance + amount];
      var c := Create(user, Kind.Deposit, Success, amount, key);
      match c
      case Duplicate(other) =>
        // another request committed this key: return its record
        r := Ok(other);
      case Inserted(tx) =>
        r := Ok(tx);
    }

    /** `withdraw`, whose unit of work is rolled back when `InsufficientFunds`
        is raised. */
    method Withdraw(user: UserId, amount: int, key: string) returns (r: Outcome)
      requires Valid() && user in balances
      modifies this
      ensures Valid()
      ensures (State(), r) == WithdrawStep(old(State()), user, amount, key, RolledBack)
    {
      ghost var s0 := State();
      StepKeepsConsistent(s0, WithdrawCall(user, amount, key), RolledBack);
      if key == "" {
        return Err(MissingIdempotencyKey);
      }
      var existing := Find(transactions, user, key);
      if existing.Some? {
        return Ok(existing.value);
      }
      // the state the atomic block rolls back to
      var savedBalances, savedTransactions := balances, transactions;
      var balance := balances[user];
      if balance < amount {
        var c := Create(user, Kind.Withdraw, Failed, amount, key);
        match c
        case Duplicate(other) =>
          return Ok(other);
        case Inserted(_) =>
          // InsufficientFunds leaves the atomic block, which undoes its writes
          balances, transactions := savedBalances, savedTransactions;
          assert State() == s0;
          return Err(InsufficientFunds);
      }
      balances := balances[user := balance - amount];
      var c := Create(user, Kind.Withdraw, Success, amount, key);
      match c
      case Duplicate(other) =>
        r := Ok(other);
      case Inserted(tx) =>
        assert tx == NewRecord(s0.log, user, Kind.Withdraw, Success, amount, key);
        r := Ok(tx);
    }
  }

  /** The result of an insert into the transaction table. */
  datatype Insertion = Inserted(record: Transaction) | Duplicate(existing: Transaction)
}
