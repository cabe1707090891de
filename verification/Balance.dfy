/** The snapshot store and the write-through cache over it, refining the plain ledger. */
module Balance {
  import opened Common
  import opened Ledger
  import opened Paging

  class MemoryStorage {
    var balances: Amounts
    var lockedBalances: Amounts
    var nonces: Amounts
    var backup: Option<(Amounts, Amounts)>
    var history: seq<TransactionRecord>

    function Contents(): Ledger
      reads this
    {
      Ledger(balances, lockedBalances, nonces)
    }

    constructor ()
      ensures Contents() == Ledger(map[], map[], map[]) && backup == None && history == []
    {
      balances, lockedBalances, nonces := map[], map[], map[];
      backup, history := None, [];
    }

    method SetBalance(a: Address, v: U64)
      modifies this`balances
      ensures Contents() == old(Contents()).SetBalance(a, v)
    {
      if v == 0 {
        balances := balances - {a};
      } else {
        balances := balances[a := v];
      }
    }

    method SetLockedBalance(a: Address, v: U64)
      modifies this`lockedBalances
      ensures Contents() == old(Contents()).SetLocked(a, v)
    {
      if v == 0 {
        lockedBalances := lockedBalances - {a};
      } else {
        lockedBalances := lockedBalances[a := v];
      }
    }

    method SetNonce(a: Address, v: U64)
      modifies this`nonces
      ensures Contents() == old(Contents()).SetNonce(a, v)
    {
      if v == 0 {
        nonces := nonces - {a};
      } else {
        nonces := nonces[a := v];
      }
    }

    /** The snapshot covers balances and locks, not nonces. */
    method BeginTransaction()
      modifies this`backup
      ensures backup == Some((balances, lockedBalances))
    {
      backup := Some((balances, lockedBalances));
    }

    method CommitTransaction()
      modifies this`backup
      ensures backup == None
    {
      backup := None;
    }

    method RollbackTransaction()
      modifies this`backup, this`balances, this`lockedBalances
      ensures backup == None
      ensures old(backup).Some? ==> balances == old(backup).value.0 && lockedBalances == old(backup).value.1
      ensures old(backup).None? ==> balances == old(balances) && lockedBalances == old(lockedBalances)
    {
      if backup.Some? {
        balances, lockedBalances := backup.value.0, backup.value.1;
      }
      backup := None;
    }

    method RecordTransaction(tx: TransactionRecord)
      modifies this`history
      ensures history == old(history) + [tx]
    {
      history := history + [tx];
    }

    method GetTransactionHistoryPaginated(a: Address, limit: nat, cursor: Option<string>)
        returns (page: Records, next: Option<string>)
      ensures var txs := SortNewest(OfAccount(history, a));
              page == Take(txs, Start(txs, cursor), limit) && next == NextCursor(page, limit)
      ensures forall x :: x in page ==> x in history && (x.from == a || x.to == a)
    {
      forall x: TransactionRecord {
        ListingExactly(history, a, x);
      }
      TakenFrom(SortNewest(OfAccount(history, a)), Start(SortNewest(OfAccount(history, a)), cursor), limit);
      hide SortNewest, OfAccount, Start;
      assert forall x :: x in SortNewest(OfAccount(history, a)) <==> x in multiset(SortNewest(OfAccount(history, a)));
      assert forall x :: x in history <==> x in multiset(history);
      page, next := GetPage(history, a, limit, cursor);
    }
  }

  type Cache = map<Address, Account>

  /** Cached entries equal the stored account, and only accounts with nothing stored may be missing. */
  ghost predicate Coherent(cache: Cache, l: Ledger) {
    forall a: Address :: if a in cache then cache[a] == l.Of(a) else l.Of(a) == EMPTY
  }

  lemma CoherentUpdate(cache: Cache, l: Ledger, l': Ledger, a: Address)
    requires Coherent(cache, l) && forall b :: b != a ==> l'.Of(b) == l.Of(b)
    ensures Coherent(cache[a := l'.Of(a)], l')
  {
  }

  lemma CoherentRead(cache: Cache, l: Ledger, a: Address)
    requires Coherent(cache, l)
    ensures if a in cache then cache[a] == l.Of(a) else l.Of(a) == EMPTY
  {
  }

  lemma UnknownUnlock(cache: Cache, l: Ledger, a: Address, amount: U64)
    requires Coherent(cache, l) && l.Normal() && a !in cache
    ensures After(l, Op.Unlock(a, amount)) == l
  {
    assert l.Of(a) == EMPTY;
    assert a !in l.locked;
  }

  /** The outcome is the plain ledger's: same success, same error. */
  ghost predicate Matches<T>(r: Result<T, LedgerError>, l: Ledger, op: Op) {
    match Step(l, op)
    case Ok(_) => r.Ok?
    case Err(e) => r == Err(e)
  }

  class BalanceManager {
    const storage: MemoryStorage
    var cache: Cache

    ghost predicate Valid()
      reads this, storage
    {
      Coherent(cache, storage.Contents()) && storage.Contents().Normal() && storage.backup.None?
    }

    /** A manager over an empty store. */
    constructor (storage: MemoryStorage)
      requires storage.Contents() == Ledger(map[], map[], map[]) && storage.backup.None?
      ensures Valid() && this.storage == storage && cache == map[]
    {
      this.storage, cache := storage, map[];
    }

    /** `clear_cache`: the cache still stands for the store exactly when nothing is stored. */
    method ClearCache()
      requires Valid()
      modifies this`cache
      ensures cache == map[]
      ensures Valid() <==> forall a: Address :: storage.Contents().Of(a) == EMPTY
    {
      cache := map[];
    }

    /** Fills the cache with zero lock and nonce; under coherence those are the stored values. */
    method GetBalance(a: Address) returns (balance: U64)
      requires Valid()
      modifies this`cache
      ensures Valid() && balance == storage.Contents().Of(a).balance
      ensures cache.Keys == old(cache).Keys + {a}
    {
      if a in cache {
        assert cache.Keys == cache.Keys + {a};
        return cache[a].balance;
      }
      balance := Read(storage.balances, a);
      cache := cache[a := Account(balance, 0, 0)];
    }

    method GetLockedBalance(a: Address) returns (locked: U64)
      requires Valid()
      ensures locked == storage.Contents().Of(a).locked
    {
      locked := if a in cache then cache[a].locked else Read(storage.lockedBalances, a);
    }

    method GetUnlockedBalance(a: Address) returns (unlocked: U64)
      requires Valid()
      modifies this`cache
      ensures Valid() && a in cache
      ensures old(cache).Keys <= cache.Keys
      ensures unlocked == SaturatingSub(storage.Contents().Of(a).balance, storage.Contents().Of(a).locked)
    {
      var balance := GetBalance(a);
      var locked := GetLockedBalance(a);
      unlocked := SaturatingSub(balance, locked);
    }

    method GetNonce(a: Address) returns (nonce: U64)
      requires Valid()
      ensures nonce == storage.Contents().Of(a).nonce
    {
      nonce := if a in cache then cache[a].nonce else Read(storage.nonces, a);
    }

    /** Writes a balance through to the store and the cache; a missing entry is created with zero lock and nonce. */
    method WriteThrough(a: Address, v: U64)
      requires Coherent(cache, storage.Contents()) && storage.Contents().Normal()
      modifies this`cache, storage`balances
      ensures Coherent(cache, storage.Contents()) && storage.Contents().Normal()
      ensures old(cache).Keys <= cache.Keys
      ensures storage.Contents() == old(storage.Contents()).SetBalance(a, v)
    {
      ghost var l := storage.Contents();
      NormalAfterWrite(l, a, v);
      WriteReads(l, a, v);
      CoherentRead(cache, l, a);
      CoherentUpdate(cache, l, l.SetBalance(a, v), a);
      hide Coherent, Ledger.Normal, Ledger.Of, Ledger.SetBalance;
      storage.SetBalance(a, v);
      if a in cache {
        cache := cache[a := cache[a].(balance := v)];
      } else {
        cache := cache[a := Account(v, 0, 0)];
      }
    }

    method Credit(a: Address, amount: U64) returns (r: Result<(), LedgerError>)
      requires Valid()
      modifies this`cache, storage`balances
      ensures Valid() && storage.Contents() == After(old(storage.Contents()), Op.Credit(a, amount))
      ensures old(cache).Keys <= cache.Keys
      ensures Matches(r, old(storage.Contents()), Op.Credit(a, amount))
    {
      hide Coherent, Ledger.Normal, Ledger.SetBalance;
      if amount == 0 {
        return Ok(());
      }
      var current := GetBalance(a);
      if current + amount >= U64_LIMIT {
        return Err(BalanceOverflow);
      }
      if current + amount > MAX_SUPPLY {
        return Err(ExceedsMaxSupply);
      }
      WriteThrough(a, current + amount);
      return Ok(());
    }

    method Debit(a: Address, amount: U64) returns (r: Result<(), LedgerError>)
      requires Valid()
      modifies this`cache, storage`balances
      ensures Valid() && storage.Contents() == After(old(storage.Contents()), Op.Debit(a, amount))
      ensures old(cache).Keys <= cache.Keys
      ensures Matches(r, old(storage.Contents()), Op.Debit(a, amount))
    {
      hide Coherent, Ledger.Normal, Ledger.SetBalance;
      if amount == 0 {
        return Ok(());
      }
      var current := GetBalance(a);
      if current < amount {
        return Err(InsufficientBalance);
      }
      WriteThrough(a, current - amount);
      return Ok(());
    }

    /** The body of a transfer: all checks come before the first write. */
    method TransferInternal(from: Address, to: Address, amount: U64) returns (r: Result<(), LedgerError>)
      requires Coherent(cache, storage.Contents()) && storage.Contents().Normal() && from != to
      modifies this`cache, storage`balances
      ensures Coherent(cache, storage.Contents()) && storage.Contents().Normal()
      ensures old(cache).Keys <= cache.Keys
      ensures match Move(old(storage.Contents()), from, to, amount)
              case Ok(l) => r.Ok? && storage.Contents() == l
              case Err(e) => r == Err(e) && storage.Contents() == old(storage.Contents())
    {
      hide Coherent, Ledger.Normal, Ledger.SetBalance;
      var fromBalance := Read(storage.balances, from);
      if fromBalance < amount {
        return Err(InsufficientBalance);
      }
      var toBalance := Read(storage.balances, to);
      if toBalance + amount >= U64_LIMIT {
        return Err(BalanceOverflow);
      }
      WriteThrough(from, SaturatingSub(fromBalance, amount));
      WriteThrough(to, toBalance + amount);
      return Ok(());
    }

    /** `transfer`: one snapshot, then commit and record, or roll back. */
    method Transfer(from: Address, to: Address, amount: U64, now: int, txHash: string)
        returns (r: Result<string, LedgerError>)
      requires Valid()
      modifies this`cache, storage
      ensures Valid() && storage.Contents() == After(old(storage.Contents()), Op.Transfer(from, to, amount))
      ensures old(cache).Keys <= cache.Keys
      ensures Matches(r, old(storage.Contents()), Op.Transfer(from, to, amount))
      ensures var tx := TransactionRecord(from, to, amount, now, txHash);
              storage.history == old(storage.history) + if r.Ok? && amount > 0 then [tx] else []
    {
      hide Coherent, Ledger.Normal, Ledger.SetBalance;
      if amount == 0 {
        return Ok("");
      }
      if from == to {
        return Err(SameAddress);
      }
      storage.BeginTransaction();
      var moved := TransferInternal(from, to, amount);
      if moved.Err? {
        storage.RollbackTransaction();
        return Err(moved.error);
      }
      storage.CommitTransaction();
      storage.RecordTransaction(TransactionRecord(from, to, amount, now, txHash));
      return Ok(txHash);
    }

    method WriteLock(a: Address, v: U64)
      requires Valid() && a in cache
      modifies this`cache, storage`lockedBalances
      ensures old(cache).Keys <= cache.Keys
      ensures Valid() && a in cache && storage.Contents() == old(storage.Contents()).SetLocked(a, v)
    {
      ghost var l := storage.Contents();
      NormalAfterWrite(l, a, v);
      WriteReads(l, a, v);
      CoherentRead(cache, l, a);
      CoherentUpdate(cache, l, l.SetLocked(a, v), a);
      hide Coherent, Ledger.Normal, Ledger.Of, Ledger.SetLocked;
      cache := cache[a := cache[a].(locked := v)];
      storage.SetLockedBalance(a, v);
    }

    method Lock(a: Address, amount: U64) returns (r: Result<(), LedgerError>)
      requires Valid()
      modifies this`cache, storage`lockedBalances
      ensures Valid() && a in cache && storage.Contents() == After(old(storage.Contents()), Op.Lock(a, amount))
      ensures old(cache).Keys <= cache.Keys
      ensures Matches(r, old(storage.Contents()), Op.Lock(a, amount))
    {
      if a !in cache {
        cache := cache[a := EMPTY];
      }
      var info := cache[a];
      if SaturatingSub(info.balance, info.locked) < amount {
        return Err(InsufficientUnlocked);
      }
      WriteLock(a, SaturatingAdd(info.locked, amount));
      return Ok(());
    }

    /** `unlock`: an account the cache has never seen is refused, even for amount zero. */
    method Unlock(a: Address, amount: U64) returns (r: Result<(), LedgerError>)
      requires Valid()
      modifies this`cache, storage`lockedBalances
      ensures Valid() && storage.Contents() == After(old(storage.Contents()), Op.Unlock(a, amount))
      ensures old(cache).Keys <= cache.Keys
      ensures a in old(cache) ==> Matches(r, old(storage.Contents()), Op.Unlock(a, amount))
      ensures a !in old(cache) ==> r == Err(AccountNotFound)
    {
      if a !in cache {
        UnknownUnlock(cache, storage.Contents(), a, amount);
        return Err(AccountNotFound);
      }
      var info := cache[a];
      if info.locked < amount {
        return Err(InsufficientLocked);
      }
      WriteLock(a, SaturatingSub(info.locked, amount));
      return Ok(());
    }

    method IncrementNonce(a: Address, ghost next: U64)
      requires Coherent(cache, storage.Contents()) && storage.Contents().Normal()
      requires next == storage.Contents().Of(a).nonce + 1
      modifies this`cache, storage`nonces
      ensures Coherent(cache, storage.Contents()) && storage.Contents().Normal()
      ensures old(cache).Keys <= cache.Keys
      ensures storage.Contents() == old(storage.Contents()).SetNonce(a, next)
    {
      ghost var l := storage.Contents();
      NormalAfterWrite(l, a, next);
      WriteReads(l, a, next);
      CoherentRead(cache, l, a);
      CoherentUpdate(cache, l, l.SetNonce(a, next), a);
      assert l.Of(a).nonce == Read(storage.nonces, a) && l.Of(a).balance == Read(storage.balances, a);
      hide *;
      ghost var target := cache[a := l.SetNonce(a, next).Of(a)];
      if a in cache {
        var nonce: U64 := cache[a].nonce + 1;
        cache := cache[a := cache[a].(nonce := nonce)];
        assert cache == target;
        storage.SetNonce(a, nonce);
      } else {
        var nonce: U64 := Read(storage.nonces, a) + 1;
        storage.SetNonce(a, nonce);
        cache := cache[a := Account(Read(storage.balances, a), 0, nonce)];
        assert cache == target;
      }
    }

    /** `validate_transfer`: reads only; it may fill the cache. */
    method ValidateTransfer(fromBytes: seq<Byte>, toBytes: seq<Byte>, amount: U64, nonce: U64)
        returns (r: Result<(), LedgerError>)
      requires Valid()
      modifies this`cache
      ensures Valid()
      ensures old(cache).Keys <= cache.Keys
      ensures match CheckMessage(storage.Contents(), fromBytes, toBytes, amount, nonce)
              case None => r == Ok(())
              case Some(e) => r == Err(e)
      ensures r.Ok? <==>
                && |fromBytes| == 32 && |toBytes| == 32 && fromBytes != toBytes
                && 0 < amount <= storage.Contents().Of(Address(fromBytes)).balance
                && nonce == storage.Contents().Of(Address(fromBytes)).nonce + 1
    {
      hide Coherent, Ledger.Normal;
      if |fromBytes| != 32 || |toBytes| != 32 {
        return Err(InvalidAddressLength);
      }
      var from, to := Address(fromBytes), Address(toBytes);
      if from == to {
        return Err(SameAddress);
      }
      if amount == 0 {
        return Err(ZeroAmount);
      }
      var balance := GetBalance(from);
      if balance < amount {
        return Err(InsufficientBalance);
      }
      var current := GetNonce(from);
      if nonce != (current as int) + 1 {
        return Err(InvalidNonce);
      }
      return Ok(());
    }

    /** The move of a validated message transfer and the nonce it consumes, under one snapshot. */
    method MoveAndCount(from: Address, to: Address, amount: U64, nonce: U64) returns (r: Result<(), LedgerError>)
      requires Valid() && from != to && nonce == storage.Contents().Of(from).nonce + 1
      modifies this`cache, storage`balances, storage`lockedBalances, storage`nonces, storage`backup
      ensures Valid() && old(cache).Keys <= cache.Keys
      ensures match Move(old(storage.Contents()), from, to, amount)
              case Ok(l) => r.Ok? && storage.Contents() == l.SetNonce(from, nonce)
              case Err(e) => r == Err(e) && storage.Contents() == old(storage.Contents())
    {
      hide Coherent, Ledger.Normal, Ledger.SetBalance, Ledger.SetNonce;
      ghost var l := storage.Contents();
      storage.BeginTransaction();
      var moved := TransferInternal(from, to, amount);
      if moved.Err? {
        storage.RollbackTransaction();
        return Err(moved.error);
      }
      MoveReads(l, from, to, amount, from);
      IncrementNonce(from, nonce);
      storage.CommitTransaction();
      return Ok(());
    }

    /** `process_message_transfer`: validate, move under a snapshot, then consume the nonce. */
    method ProcessMessageTransfer(fromBytes: seq<Byte>, toBytes: seq<Byte>, amount: U64, nonce: U64, now: int,
                                  txHash: string)
        returns (r: Result<string, LedgerError>)
      requires Valid()
      modifies this`cache, storage
      ensures Valid()
      ensures storage.Contents() == After(old(storage.Contents()),
                                          Op.MessageTransfer(fromBytes, toBytes, amount, nonce))
      ensures old(cache).Keys <= cache.Keys
      ensures Matches(r, old(storage.Contents()), Op.MessageTransfer(fromBytes, toBytes, amount, nonce))
      ensures r.Ok? ==>
                storage.history
                == old(storage.history) + [TransactionRecord(Address(fromBytes), Address(toBytes), amount, now, txHash)]
      ensures r.Err? ==> storage.history == old(storage.history)
      ensures MessageOutcome(old(storage.Contents()), fromBytes, toBytes, amount, nonce,
                             match r case Ok(_) => Ok(storage.Contents()) case Err(e) => Err(e))
    {
      MessageTransferExactly(storage.Contents(), fromBytes, toBytes, amount, nonce);
      hide Coherent, Ledger.Normal, Ledger.SetBalance, Ledger.SetNonce, MessageOutcome, Move;
      if |fromBytes| != 32 || |toBytes| != 32 {
        return Err(InvalidAddressLength);
      }
      var from, to := Address(fromBytes), Address(toBytes);
      var checked := ValidateTransfer(fromBytes, toBytes, amount, nonce);
      if checked.Err? {
        return Err(checked.error);
      }
      var moved := MoveAndCount(from, to, amount, nonce);
      if moved.Err? {
        return Err(moved.error);
      }
      storage.RecordTransaction(TransactionRecord(from, to, amount, now, txHash));
      return Ok(txHash);
    }
  }

  /** Any run of operations on a manager leaves the store where the plain ledger's run ends, cache coherent
      throughout. */
  method Replay(manager: BalanceManager, ops: seq<Op>)
    requires manager.Valid()
    modifies manager`cache, manager.storage
    ensures old(manager.cache).Keys <= manager.cache.Keys
    ensures manager.Valid() && manager.storage.Contents() == Run(old(manager.storage.Contents()), ops)
  {
    for i := 0 to |ops|
      invariant old(manager.cache).Keys <= manager.cache.Keys
      invariant manager.Valid() && manager.storage.Contents() == Run(old(manager.storage.Contents()), ops[..i])
    {
      assert ops[..i + 1][..i] == ops[..i];
      match ops[i]
      case Credit(to, amount) => var _ := manager.Credit(to, amount);
      case Debit(from, amount) => var _ := manager.Debit(from, amount);
      case Transfer(from, to, amount) => var _ := manager.Transfer(from, to, amount, 0, "");
      case Lock(owner, amount) => var _ := manager.Lock(owner, amount);
      case Unlock(owner, amount) => var _ := manager.Unlock(owner, amount);
      case MessageTransfer(f, t, amount, nonce) => var _ := manager.ProcessMessageTransfer(f, t, amount, nonce, 0, "");
    }
    assert ops[..|ops|] == ops;
  }
}
