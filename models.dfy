/** The two tables of the ledger (ledger/models.py): the wallet table, one row
    per user holding a balance, and the transaction table, an append-only log
    of deposit and withdraw records unique per (user, idempotency key).
    Monetary values are fixed-point decimals with 8 fractional digits; the
    model keeps them as integer counts of 10^-8 ("units"). */
module Models {
  import opened Wrappers
  import opened Decimals

  /** The primary key of the user a wallet or a record belongs to. */
  type UserId = nat

  /** `Transaction.Type`. */
  datatype Kind = Deposit | Withdraw

  /** `Transaction.Status`. */
  datatype Status = Success | Failed

  /** The value stored in the `type` column. */
  function KindLabel(k: Kind): (s: string)
    ensures s == "deposit" <==> k == Deposit
    ensures s == "withdraw" <==> k == Withdraw
  {
    match k
    case Deposit => "deposit"
    case Withdraw => "withdraw"
  }

  /** The value stored in the `status` column. */
  function StatusLabel(st: Status): (s: string)
    ensures s == "success" <==> st == Success
    ensures s == "failed" <==> st == Failed
  {
    match st
    case Success => "success"
    case Failed => "failed"
  }

  /** A row of the transaction table. `id` is the auto-increment primary key;
      `amount` is in units. The wallet foreign key is left implicit: a user owns
      exactly one wallet, so `user` determines it. */
  datatype Transaction = Transaction(
    id: nat,
    user: UserId,
    kind: Kind,
    status: Status,
    amount: int,
    key: string)

  /** `decimal_places=8` of the balance and amount columns. */
  const DecimalPlaces: nat := 8

  /** `max_digits=20` of the balance and amount columns. */
  const MaxDigits: nat := 20

  /** `max_length=128` of the idempotency key column. */
  const KeyMaxLength: nat := 128

  /** Units in one whole currency unit. */
  const UnitsPerWhole: nat := 100_000_000

  /** `default=Decimal("0")` of the balance column. */
  const NewWalletBalance: int := 0

  lemma UnitsPerWholeIsPow10()
    ensures Pow10(DecimalPlaces) == UnitsPerWhole
  {
    assert Pow10(2) == 100;
    assert Pow10(4) == 10_000 by { Pow10Add(2, 2); }
    assert Pow10(8) == 100_000_000 by { Pow10Add(4, 4); }
  }

  /** A value in units fits a column of at most 20 digits, 8 of them fractional. */
  predicate FitsDecimalColumn(units: int)
  {
    var limit: int := Pow10(MaxDigits);
    -limit < units < limit
  }

  /** An idempotency key fits its column. */
  predicate FitsKeyColumn(key: string)
  {
    |key| <= KeyMaxLength
  }

  /** The value a Decimal takes in a column with 8 decimal places, in units.
      Defined when the Decimal has at most 8 fractional digits, so no rounding
      takes place. */
  function ToUnits(d: Decimal): (r: Option<int>)
    ensures r.Some? <==> d.scale <= DecimalPlaces
    ensures r.Some? ==> r.value * Pow10(d.scale) == d.coefficient * UnitsPerWhole
    ensures r.Some? ==> (r.value > 0 <==> IsPositive(d))
  {
    if d.scale <= DecimalPlaces then
      var factor := Pow10(DecimalPlaces - d.scale);
      Pow10Add(DecimalPlaces - d.scale, d.scale);
      UnitsPerWholeIsPow10();
      assert d.coefficient * factor * Pow10(d.scale) == d.coefficient * (factor * Pow10(d.scale));
      Some(d.coefficient * factor)
    else
      None
  }

  predicate Matches(t: Transaction, user: UserId, key: string)
  {
    t.user == user && t.key == key
  }

  /** The position of the first record for (user, key), or `|log|` when there
      is none. */
  function FindIndex(log: seq<Transaction>, user: UserId, key: string): (k: nat)
    ensures k <= |log|
    ensures k < |log| ==> Matches(log[k], user, key)
    ensures forall j | 0 <= j < k :: !Matches(log[j], user, key)
  {
    if log == [] then 0
    else if Matches(log[0], user, key) then 0
    else 1 + FindIndex(log[1..], user, key)
  }

  /** `Transaction.objects.filter(user=user, idempotency_key=key).first()`:
      the earliest record for (user, key), if any (`first()` on an unordered
      query orders by primary key, which follows insertion order). */
  function Find(log: seq<Transaction>, user: UserId, key: string): (r: Option<Transaction>)
    ensures r.None? <==> forall j | 0 <= j < |log| :: !Matches(log[j], user, key)
    ensures r.Some? ==> r.value in log && Matches(r.value, user, key)
  {
    var k := FindIndex(log, user, key);
    if k < |log| then Some(log[k]) else None
  }

  /** (user, idempotency_key) is unique over the transaction table. */
  ghost predicate UniqueKeys(log: seq<Transaction>)
  {
    forall i, j | 0 <= i < j < |log| :: !Matches(log[j], log[i].user, log[i].key)
  }

  /** Records are numbered 1, 2, ... in insertion order and none is removed. */
  ghost predicate IdsArePositions(log: seq<Transaction>)
  {
    forall i | 0 <= i < |log| :: log[i].id == i + 1
  }

  /** Under the uniqueness constraint, looking a record up by its own
      (user, key) yields that record. */
  lemma FindUnique(log: seq<Transaction>, i: nat)
    requires UniqueKeys(log) && i < |log|
    ensures Find(log, log[i].user, log[i].key) == Some(log[i])
  {
    var k := FindIndex(log, log[i].user, log[i].key);
    assert k <= i;
    if k < i {
      assert Matches(log[i], log[k].user, log[k].key);
    }
  }

  /** A lookup in a longer log finds the same record when the shorter log
      already had one, and otherwise finds the first match among the new
      records. */
  lemma FindExtend(log: seq<Transaction>, more: seq<Transaction>, user: UserId, key: string)
    ensures Find(log, user, key).Some? ==> Find(log + more, user, key) == Find(log, user, key)
    ensures Find(log, user, key).None? ==> Find(log + more, user, key) == Find(more, user, key)
  {
    var all := log + more;
    var k := FindIndex(log, user, key);
    var k' := FindIndex(all, user, key);
    if k < |log| {
      assert all[k] == log[k];
      assert k' == k;
    } else {
      var m := FindIndex(more, user, key);
      assert forall j | 0 <= j < |log| :: all[j] == log[j];
      assert k' >= |log|;
      if m < |more| {
        assert all[|log| + m] == more[m];
        assert k' <= |log| + m;
        assert forall j | |log| <= j < k' :: all[j] == more[j - |log|];
        assert k' == |log| + m;
      } else {
        assert forall j | |log| <= j < |all| :: all[j] == more[j - |log|];
        assert k' == |all|;
      }
    }
  }

  /** `Transaction.objects.filter(user=user).order_by("-created_at")`: the
      user's records, newest first. `created_at` is modelled by the position
      in the log. */
  function History(log: seq<Transaction>, user: UserId): (h: seq<Transaction>)
    ensures forall t :: t in h <==> t in log && t.user == user
    ensures |h| <= |log|
  {
    if log == [] then []
    else
      var last := log[|log| - 1];
      var earlier := log[..|log| - 1];
      assert log == earlier + [last];
      (if last.user == user then [last] else []) + History(earlier, user)
  }

  lemma HistoryAppend(log: seq<Transaction>, t: Transaction, user: UserId)
    ensures History(log + [t], user) == (if t.user == user then [t] else []) + History(log, user)
  {
    assert (log + [t])[..|log|] == log;
  }

  /** Every record in a user's history has a smaller id than the ones listed
      before it. */
  lemma {:induction false} HistoryNewestFirst(log: seq<Transaction>, user: UserId)
    requires IdsArePositions(log)
    ensures forall i, j | 0 <= i < j < |History(log, user)| ::
      History(log, user)[i].id > History(log, user)[j].id
  {
    if log != [] {
      var last := log[|log| - 1];
      var earlier := log[..|log| - 1];
      assert IdsArePositions(earlier);
      HistoryNewestFirst(earlier, user);
      var rest := History(earlier, user);
      forall t | t in rest ensures t.id < last.id {
        assert t in earlier;
        var i :| 0 <= i < |earlier| && earlier[i] == t;
      }
    }
  }

  /** The change a record makes to its owner's balance: only successful
      records move money. */
  function Effect(t: Transaction): int
  {
    if t.status == Failed then 0
    else if t.kind == Deposit then t.amount
    else -t.amount
  }

  /** The total effect of the user's records in the log. */
  function Net(log: seq<Transaction>, user: UserId): int
  {
    if log == [] then 0
    else
      var last := log[|log| - 1];
      Net(log[..|log| - 1], user) + (if last.user == user then Effect(last) else 0)
  }

  lemma NetAppend(log: seq<Transaction>, t: Transaction, user: UserId)
    ensures Net(log + [t], user) == Net(log, user) + (if t.user == user then Effect(t) else 0)
  {
    assert (log + [t])[..|log|] == log;
  }
}
