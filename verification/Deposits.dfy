/** Anti-spam deposits: escrow locks a balance, refund releases it, slash moves it to the treasury. */
module Deposits {
  import opened Common
  import opened Sums
  import opened Ledger
  import opened Balance

  datatype Status = Escrowed | Refunded | Slashed

  /** The 32 bytes of a verifying key. */
  type PublicKey = Bytes32

  /** `from_public_key`: an address is the hash of a key. */
  function AddressOf(hash: HashFn, key: PublicKey): Address {
    Address(hash(key))
  }

  /** The treasury's address, not made from a key: 32 bytes of `0xFF`. */
  function Treasury(): Address {
    Address(seq(32, _ => 255))
  }

  /** A deposit by the owner of `key`, whose address is `proposer`. */
  datatype Deposit = Deposit(key: PublicKey, proposer: Address, amount: U64, status: Status, timestamp: int)

  datatype DepositError = InsufficientBalance | LockFailed | NotEscrowed | NoDeposit | UnlockFailed | TransferFailed

  type DepositMap = map<MessageId, Deposit>

  predicate IsEscrowed(deposits: DepositMap, id: MessageId) {
    id in deposits && deposits[id].status == Escrowed
  }

  /** The amounts account `a` has in escrow, by message. */
  ghost function EscrowsOf(deposits: DepositMap, a: Address): map<MessageId, int> {
    map id | id in deposits && deposits[id].status == Escrowed && deposits[id].proposer == a :: deposits[id].amount
  }

  ghost function EscrowedBy(deposits: DepositMap, a: Address): int {
    Sum(EscrowsOf(deposits, a))
  }

  /** What the entry under `id` contributes to `a`'s escrow. */
  ghost function Share(deposits: DepositMap, id: MessageId, a: Address): int {
    if IsEscrowed(deposits, id) && deposits[id].proposer == a then deposits[id].amount else 0
  }

  lemma EscrowAfterPut(deposits: DepositMap, id: MessageId, d: Deposit, a: Address)
    ensures EscrowedBy(deposits[id := d], a)
         == EscrowedBy(deposits, a) - Share(deposits, id, a) + Share(deposits[id := d], id, a)
  {
    var before, after := EscrowsOf(deposits, a), EscrowsOf(deposits[id := d], a);
    if d.status == Escrowed && d.proposer == a {
      assert after == before[id := d.amount];
      SumUpdate(before, id, d.amount);
    } else {
      assert after == before - {id};
      SumRemove(before, id);
    }
  }

  lemma ShareBelowEscrow(deposits: DepositMap, id: MessageId, a: Address)
    ensures 0 <= Share(deposits, id, a) <= EscrowedBy(deposits, a)
  {
    EntryBelowSum(EscrowsOf(deposits, a), id);
  }

  /** Locks are covered by balances, and no account can hold more than the maximal supply. */
  ghost predicate Covered(l: Ledger) {
    l.Total() <= MAX_SUPPLY && forall a: Address :: l.Of(a).locked <= l.Of(a).balance
  }

  /** Each account's lock is exactly the sum of its escrowed deposits. */
  ghost predicate Accounts(deposits: DepositMap, l: Ledger) {
    forall a: Address :: l.Of(a).locked == EscrowedBy(deposits, a)
  }

  lemma LockNeverCapped(l: Ledger, a: Address, amount: U64)
    requires Covered(l) && Step(l, Op.Lock(a, amount)).Ok?
    ensures After(l, Op.Lock(a, amount)) == l.SetLocked(a, l.Of(a).locked + amount)
    ensures Covered(After(l, Op.Lock(a, amount)))
  {
    EntryBelowSum(l.balances, a);
    assert l.Of(a).locked <= l.Of(a).balance;
    WriteReads(l, a, l.Of(a).locked + amount);
  }

  lemma UnlockCovered(l: Ledger, a: Address, amount: U64)
    requires Covered(l) && amount <= l.Of(a).locked
    ensures After(l, Op.Unlock(a, amount)) == l.SetLocked(a, l.Of(a).locked - amount)
    ensures Covered(After(l, Op.Unlock(a, amount)))
  {
    WriteReads(l, a, l.Of(a).locked - amount);
  }

  /** A transfer ignores locks: it keeps them covered exactly when it stays within the unlocked balance. */
  lemma TransferKeepsCover(l: Ledger, from: Address, to: Address, amount: U64)
    requires Covered(l) && from != to && amount > 0 && Step(l, Op.Transfer(from, to, amount)).Ok?
    ensures Covered(After(l, Op.Transfer(from, to, amount))) <==> amount <= l.Of(from).balance - l.Of(from).locked
  {
    MoveConserves(l, from, to, amount);
    forall a ensures After(l, Op.Transfer(from, to, amount)).Of(a)
      == l.Of(a).(balance := l.Of(a).balance - (if a == from then amount else 0) + (if a == to then amount else 0))
    {
      MoveReads(l, from, to, amount, a);
    }
  }

  /** Releasing `amount` of `a`'s lock together with the deposit that held it keeps the books. */
  lemma ReleaseAccounts(deposits: DepositMap, l: Ledger, id: MessageId, status: Status)
    requires Accounts(deposits, l) && IsEscrowed(deposits, id) && status != Escrowed
    ensures deposits[id].amount <= l.Of(deposits[id].proposer).locked
    ensures Accounts(deposits[id := deposits[id].(status := status)],
                     l.SetLocked(deposits[id].proposer, l.Of(deposits[id].proposer).locked - deposits[id].amount))
  {
    var d := deposits[id];
    ShareBelowEscrow(deposits, id, d.proposer);
    assert l.Of(d.proposer).locked == EscrowedBy(deposits, d.proposer);
    WriteReads(l, d.proposer, l.Of(d.proposer).locked - d.amount);
    hide EscrowedBy, Ledger.Of, Ledger.SetLocked;
    forall a: Address {
      EscrowAfterPut(deposits, id, d.(status := status), a);
    }
  }

  lemma EscrowAccounts(deposits: DepositMap, l: Ledger, id: MessageId, d: Deposit)
    requires Accounts(deposits, l) && d.status == Escrowed && l.Of(d.proposer).locked + d.amount < U64_LIMIT
    ensures Accounts(deposits[id := d], l.SetLocked(d.proposer, l.Of(d.proposer).locked + d.amount))
            <==> !IsEscrowed(deposits, id) || deposits[id].amount == 0
  {
    var l' := l.SetLocked(d.proposer, l.Of(d.proposer).locked + d.amount);
    WriteReads(l, d.proposer, l.Of(d.proposer).locked + d.amount);
    hide EscrowedBy, Ledger.Of, Ledger.SetLocked;
    forall a: Address ensures l'.Of(a).locked == EscrowedBy(deposits[id := d], a) + Share(deposits, id, a) {
      EscrowAfterPut(deposits, id, d, a);
    }
    if IsEscrowed(deposits, id) && deposits[id].amount != 0 {
      assert Share(deposits, id, deposits[id].proposer) != 0;
    }
  }

  /** The owner of every live deposit has a cache entry, so its lock can be released. */
  ghost predicate Known(deposits: DepositMap, cached: set<Address>) {
    forall id :: IsEscrowed(deposits, id) ==> deposits[id].proposer in cached
  }

  lemma KnownPut(deposits: DepositMap, cached: set<Address>, cached': set<Address>, id: MessageId, d: Deposit)
    requires Known(deposits, cached) && cached <= cached' && (d.status == Escrowed ==> d.proposer in cached')
    ensures Known(deposits, cached') && Known(deposits[id := d], cached')
  {
  }

  /** Every proposer's address is that of its key. */
  ghost predicate Derived(hash: HashFn, deposits: DepositMap) {
    forall id :: id in deposits ==> deposits[id].proposer == AddressOf(hash, deposits[id].key)
  }

  lemma DerivedPut(hash: HashFn, deposits: DepositMap, id: MessageId, d: Deposit)
    requires Derived(hash, deposits) && d.proposer == AddressOf(hash, d.key)
    ensures Derived(hash, deposits[id := d])
  {
  }

  lemma DerivedRestatus(hash: HashFn, deposits: DepositMap, id: MessageId, status: Status)
    requires Derived(hash, deposits) && id in deposits
    ensures Derived(hash, deposits[id := deposits[id].(status := status)])
  {
  }

  ghost function KeysOf(deposits: DepositMap): set<PublicKey> {
    set id | id in deposits :: deposits[id].key
  }

  /** None of these keys hashes to the treasury address. */
  ghost predicate NoTreasuryKey(hash: HashFn, keys: set<PublicKey>) {
    forall key :: key in keys ==> AddressOf(hash, key) != Treasury()
  }

  /** Settled deposits never change again. */
  ghost predicate SettledKept(before: DepositMap, after: DepositMap) {
    forall id :: id in before && before[id].status != Escrowed && id in after ==> after[id] == before[id]
  }

  lemma SettledPut(deposits: DepositMap, id: MessageId, d: Deposit)
    requires IsEscrowed(deposits, id)
    ensures SettledKept(deposits, deposits) && SettledKept(deposits, deposits[id := d])
  {
  }

  ghost function Recent(deposits: DepositMap, cutoff: int): DepositMap {
    map id | id in deposits && (deposits[id].status == Escrowed || deposits[id].timestamp >= cutoff) :: deposits[id]
  }

  ghost function Settled(deposits: DepositMap, cutoff: int): set<MessageId> {
    set id | id in deposits && deposits[id].status != Escrowed && deposits[id].timestamp < cutoff
  }

  lemma CleanupKeeps(hash: HashFn, deposits: DepositMap, cutoff: int, l: Ledger, cached: set<Address>)
    requires Accounts(deposits, l) && Known(deposits, cached) && Derived(hash, deposits)
    ensures deposits - Settled(deposits, cutoff) == Recent(deposits, cutoff)
    ensures SettledKept(deposits, Recent(deposits, cutoff))
    ensures Accounts(Recent(deposits, cutoff), l) && Known(Recent(deposits, cutoff), cached)
    ensures Derived(hash, Recent(deposits, cutoff))
  {
    forall a: Address ensures EscrowedBy(Recent(deposits, cutoff), a) == EscrowedBy(deposits, a) {
      assert EscrowsOf(Recent(deposits, cutoff), a) == EscrowsOf(deposits, a);
    }
  }

  /** The escrowed amounts among `ids`. */
  ghost function Stakes(deposits: DepositMap, ids: set<MessageId>): map<MessageId, int> {
    map id | id in ids && id in deposits && deposits[id].status == Escrowed :: deposits[id].amount
  }

  ghost function CappedSum(m: map<MessageId, int>): U64 {
    if Sum(m) < 0 then 0 else if Sum(m) < MAX_SUPPLY then Sum(m) else MAX_SUPPLY
  }

  lemma StakesStep(deposits: DepositMap, ids: set<MessageId>, id: MessageId)
    requires id in deposits && id !in ids
    ensures CappedSum(Stakes(deposits, ids + {id}))
         == if deposits[id].status == Escrowed then SaturatingAdd(CappedSum(Stakes(deposits, ids)), deposits[id].amount)
            else CappedSum(Stakes(deposits, ids))
  {
    if deposits[id].status == Escrowed {
      assert Stakes(deposits, ids + {id}) == Stakes(deposits, ids)[id := deposits[id].amount];
      SumUpdate(Stakes(deposits, ids), id, deposits[id].amount);
    } else {
      assert Stakes(deposits, ids + {id}) == Stakes(deposits, ids);
    }
    SumNonNegative(Stakes(deposits, ids));
  }

  lemma StakesWithout(deposits: DepositMap, id: MessageId)
    requires id in deposits
    ensures Sum(Stakes(deposits - {id}, (deposits - {id}).Keys))
         == Sum(Stakes(deposits, deposits.Keys)) - Share(deposits, id, deposits[id].proposer)
  {
    SumRemove(Stakes(deposits, deposits.Keys), id);
    assert Stakes(deposits - {id}, (deposits - {id}).Keys) == Stakes(deposits, deposits.Keys) - {id};
  }

  ghost predicate PerProposer(deposits: DepositMap, m: map<Address, int>) {
    forall a: Address :: Get(m, a) == EscrowedBy(deposits, a)
  }

  lemma EscrowWithout(deposits: DepositMap, id: MessageId, a: Address)
    ensures EscrowedBy(deposits - {id}, a) == EscrowedBy(deposits, a) - Share(deposits, id, a)
  {
    assert EscrowsOf(deposits - {id}, a) == EscrowsOf(deposits, a) - {id};
    SumRemove(EscrowsOf(deposits, a), id);
  }

  lemma PerProposerWithout(deposits: DepositMap, m: map<Address, int>, id: MessageId, p: Address)
    requires PerProposer(deposits, m) && id in deposits && deposits[id].proposer == p
    ensures PerProposer(deposits - {id}, m[p := Get(m, p) - Share(deposits, id, p)])
  {
    hide EscrowedBy;
    forall a: Address {
      EscrowWithout(deposits, id, a);
    }
  }

  lemma PerProposerEmpty(m: map<Address, int>)
    requires PerProposer(map[], m)
    ensures Sum(m) == 0 == Sum(Stakes(map[], {}))
  {
    forall a | a in m ensures m[a] == 0 {
      assert EscrowsOf(map[], a) == map[];
      assert Get(m, a) == EscrowedBy(map[], a);
    }
    SumOfZeros(m);
  }

  /** Grouping the escrowed amounts by proposer does not change their sum. */
  lemma {:induction false} SumByProposer(deposits: DepositMap, m: map<Address, int>)
    requires PerProposer(deposits, m)
    ensures Sum(m) == Sum(Stakes(deposits, deposits.Keys))
    decreases |deposits|
  {
    hide PerProposer, Sum, Stakes, Share;
    if deposits == map[] {
      PerProposerEmpty(m);
      assert deposits.Keys == {};
    } else {
      var id :| id in deposits;
      var p := deposits[id].proposer;
      PerProposerWithout(deposits, m, id, p);
      SumUpdate(m, p, Get(m, p) - Share(deposits, id, p));
      StakesWithout(deposits, id);
      SumByProposer(deposits - {id}, m[p := Get(m, p) - Share(deposits, id, p)]);
    }
  }

  lemma EscrowTotalIsLocked(deposits: DepositMap, l: Ledger)
    requires Covered(l) && Accounts(deposits, l)
    ensures CappedSum(Stakes(deposits, deposits.Keys)) == Sum(l.locked)
  {
    forall a: Address ensures Get(l.locked, a) == EscrowedBy(deposits, a) && Get(l.locked, a) <= Get(l.balances, a) {
      assert l.Of(a).locked == EscrowedBy(deposits, a) && l.Of(a).locked <= l.Of(a).balance;
    }
    SumByProposer(deposits, l.locked);
    SumNonNegative(l.locked);
    SumMonotone(l.locked, l.balances);
  }

  lemma OwnerKnown(deposits: DepositMap, cached: set<Address>, id: MessageId)
    requires Known(deposits, cached) && IsEscrowed(deposits, id)
    ensures deposits[id].proposer in cached
  {
  }

  lemma SettledSelf(deposits: DepositMap)
    ensures SettledKept(deposits, deposits)
  {
  }

  lemma LockOutcome(l: Ledger, a: Address, amount: U64)
    ensures Step(l, Op.Lock(a, amount)).Ok? <==> SaturatingSub(l.Of(a).balance, l.Of(a).locked) >= amount
    ensures Step(l, Op.Lock(a, amount)).Err? ==> After(l, Op.Lock(a, amount)) == l
  {
  }

  lemma EscrowOutcome(l: Ledger, deposits: DepositMap, id: MessageId, d: Deposit)
    requires Covered(l) && Accounts(deposits, l) && d.status == Escrowed
    ensures var op := Op.Lock(d.proposer, d.amount);
            if SaturatingSub(l.Of(d.proposer).balance, l.Of(d.proposer).locked) >= d.amount
            then Step(l, op).Ok? && Covered(After(l, op))
                 && (Accounts(deposits[id := d], After(l, op))
                     <==> !IsEscrowed(deposits, id) || deposits[id].amount == 0)
            else Step(l, op).Err? && After(l, op) == l
  {
    if SaturatingSub(l.Of(d.proposer).balance, l.Of(d.proposer).locked) >= d.amount {
      assert l.Of(d.proposer).locked <= l.Of(d.proposer).balance;
      LockNeverCapped(l, d.proposer, d.amount);
      EscrowAccounts(deposits, l, id, d);
    }
  }

  lemma RefundOutcome(l: Ledger, deposits: DepositMap, id: MessageId)
    requires Covered(l) && Accounts(deposits, l)
    ensures SettledKept(deposits, deposits)
    ensures IsEscrowed(deposits, id) ==>
              var d := deposits[id];
              var op := Op.Unlock(d.proposer, d.amount);
              && Step(l, op).Ok? && Covered(After(l, op))
              && Accounts(deposits[id := d.(status := Refunded)], After(l, op))
              && SettledKept(deposits, deposits[id := d.(status := Refunded)])
  {
    if IsEscrowed(deposits, id) {
      ReleaseAccounts(deposits, l, id, Refunded);
      UnlockCovered(l, deposits[id].proposer, deposits[id].amount);
    }
  }

  ghost function Released(l: Ledger, d: Deposit): Ledger {
    After(l, Op.Unlock(d.proposer, d.amount))
  }

  lemma SlashReleases(l: Ledger, deposits: DepositMap, id: MessageId)
    requires Covered(l) && Accounts(deposits, l) && IsEscrowed(deposits, id)
    ensures Step(l, Op.Unlock(deposits[id].proposer, deposits[id].amount)).Ok?
    ensures Covered(Released(l, deposits[id]))
  {
    ReleaseAccounts(deposits, l, id, Slashed);
    UnlockCovered(l, deposits[id].proposer, deposits[id].amount);
  }

  lemma SlashRefused(l: Ledger, deposits: DepositMap, id: MessageId, treasury: Address)
    requires Covered(l) && Accounts(deposits, l) && IsEscrowed(deposits, id)
    requires deposits[id].proposer == treasury && deposits[id].amount > 0
    ensures Step(Released(l, deposits[id]), Op.Transfer(treasury, treasury, deposits[id].amount)).Err?
    ensures After(Released(l, deposits[id]), Op.Transfer(treasury, treasury, deposits[id].amount))
            == Released(l, deposits[id])
    ensures !Accounts(deposits, Released(l, deposits[id]))
  {
    var d := deposits[id];
    ReleaseAccounts(deposits, l, id, Slashed);
    UnlockCovered(l, d.proposer, d.amount);
    WriteReads(l, d.proposer, l.Of(d.proposer).locked - d.amount);
    assert l.Of(treasury).locked == EscrowedBy(deposits, treasury);
    assert Released(l, d).Of(treasury).locked != EscrowedBy(deposits, treasury);
  }

  ghost predicate Slashable(l: Ledger, d: Deposit, treasury: Address) {
    d.amount <= l.Of(d.proposer).locked <= l.Of(d.proposer).balance && l.Of(treasury).balance + d.amount < U64_LIMIT
  }

  /** What a successful slash leaves of account `a`. */
  ghost function SlashedAccount(l: Ledger, d: Deposit, treasury: Address, a: Address): Account
    requires Slashable(l, d, treasury)
  {
    Account(l.Of(a).balance - (if a == d.proposer then d.amount else 0) + (if a == treasury then d.amount else 0),
            l.Of(a).locked - (if a == d.proposer then d.amount else 0),
            l.Of(a).nonce)
  }

  lemma CoveredAt(l: Ledger, a: Address)
    requires Covered(l)
    ensures l.Of(a).locked <= l.Of(a).balance
  {
  }

  lemma SlashTransfer(l: Ledger, d: Deposit, treasury: Address)
    requires Covered(l) && Slashable(l, d, treasury) && (d.proposer != treasury || d.amount == 0)
    requires Released(l, d) == l.SetLocked(d.proposer, l.Of(d.proposer).locked - d.amount) && Covered(Released(l, d))
    ensures var op := Op.Transfer(d.proposer, treasury, d.amount);
            && Step(Released(l, d), op).Ok? && Covered(After(Released(l, d), op))
            && (forall a :: After(Released(l, d), op).Of(a) == SlashedAccount(l, d, treasury, a))
            && (forall a :: After(Released(l, d), op).Of(a).locked == Released(l, d).Of(a).locked)
  {
    var op := Op.Transfer(d.proposer, treasury, d.amount);
    var l1 := Released(l, d);
    WriteReads(l, d.proposer, l.Of(d.proposer).locked - d.amount);
    hide Ledger.SetLocked, Released, Ledger.Of, Covered;
    if d.amount > 0 {
      CoveredAt(l1, d.proposer);
      TransferKeepsCover(l1, d.proposer, treasury, d.amount);
      forall a ensures After(l1, op).Of(a) == SlashedAccount(l, d, treasury, a)
        && After(l1, op).Of(a).locked == l1.Of(a).locked {
        MoveReads(l1, d.proposer, treasury, d.amount, a);
      }
    }
  }

  lemma SlashAffordable(l: Ledger, d: Deposit, treasury: Address)
    requires Covered(l) && d.amount <= l.Of(d.proposer).locked
    ensures Slashable(l, d, treasury)
  {
    EntryBelowSum(l.balances, d.proposer);
    EntryBelowSum(l.balances, treasury);
    assert l.Of(d.proposer).locked <= l.Of(d.proposer).balance;
  }

  lemma SlashMoves(l: Ledger, deposits: DepositMap, id: MessageId, treasury: Address)
    requires Covered(l) && Accounts(deposits, l) && IsEscrowed(deposits, id)
    requires deposits[id].proposer != treasury || deposits[id].amount == 0
    ensures Slashable(l, deposits[id], treasury)
    ensures var d := deposits[id];
            var op := Op.Transfer(d.proposer, treasury, d.amount);
            && Step(Released(l, d), op).Ok? && Covered(After(Released(l, d), op))
            && Accounts(deposits[id := d.(status := Slashed)], After(Released(l, d), op))
            && forall a :: After(Released(l, d), op).Of(a) == SlashedAccount(l, d, treasury, a)
  {
    var d := deposits[id];
    var op := Op.Transfer(d.proposer, treasury, d.amount);
    ReleaseAccounts(deposits, l, id, Slashed);
    UnlockCovered(l, d.proposer, d.amount);
    SlashAffordable(l, d, treasury);
    SlashTransfer(l, d, treasury);
    hide EscrowedBy, Step, After, Ledger.SetLocked, Covered;
    var deposits' := deposits[id := d.(status := Slashed)];
    forall a: Address ensures After(Released(l, d), op).Of(a).locked == EscrowedBy(deposits', a) {
      assert Released(l, d).Of(a).locked == EscrowedBy(deposits', a);
    }
  }

  /** What a slash comes to: either the whole move, or a lock released without its deposit. */
  lemma SlashOutcome(l: Ledger, deposits: DepositMap, id: MessageId, treasury: Address)
    requires Covered(l) && Accounts(deposits, l) && IsEscrowed(deposits, id)
    ensures var d := deposits[id];
            var op := Op.Transfer(d.proposer, treasury, d.amount);
            var l1 := Released(l, d);
            && Step(l, Op.Unlock(d.proposer, d.amount)).Ok? && Covered(After(l1, op))
            && After(l1, op).Total() == l.Total()
            && (Step(l1, op).Ok? <==> d.proposer != treasury || d.amount == 0)
            && (if Step(l1, op).Ok?
                then Accounts(deposits[id := d.(status := Slashed)], After(l1, op)) && Slashable(l, d, treasury)
                     && forall a :: After(l1, op).Of(a) == SlashedAccount(l, d, treasury, a)
                else !Accounts(deposits, After(l1, op)) && After(l1, op) == l1)
  {
    SlashReleases(l, deposits, id);
    StepAccounts(l, Op.Unlock(deposits[id].proposer, deposits[id].amount));
    StepAccounts(Released(l, deposits[id]), Op.Transfer(deposits[id].proposer, treasury, deposits[id].amount));
    hide Covered, Accounts, Released, Step, After, Ledger.Total, Ledger.Of, Slashable, SlashedAccount;
    if deposits[id].proposer == treasury && deposits[id].amount > 0 {
      SlashRefused(l, deposits, id, treasury);
    } else {
      SlashMoves(l, deposits, id, treasury);
    }
  }

  /** The manager's whole state, as plain values. */
  datatype Vault = Vault(ledger: Ledger, deposits: DepositMap, price: U64)

  class DepositManager {
    const balances: BalanceManager
    const hash: HashFn
    var depositAmount: U64
    var deposits: DepositMap

    constructor (balances: BalanceManager, hash: HashFn, depositAmount: U64)
      ensures this.balances == balances && this.hash == hash && this.depositAmount == depositAmount
      ensures deposits == map[]
    {
      this.balances, this.hash, this.depositAmount, deposits := balances, hash, depositAmount, map[];
    }

    ghost predicate Valid()
      reads this, balances, balances.storage
    {
      && balances.Valid() && Covered(balances.storage.Contents())
      && Known(deposits, balances.cache.Keys) && Derived(hash, deposits)
    }

    /** The deposit books balance: every lock is the sum of that account's escrowed deposits. */
    ghost predicate Balanced()
      reads this, balances, balances.storage
    {
      Accounts(deposits, balances.storage.Contents())
    }

    ghost function State(): Vault
      reads this, balances, balances.storage
    {
      Vault(balances.storage.Contents(), deposits, depositAmount)
    }

    /** `update_deposit_amount` changes what later deposits cost, nothing else. */
    method UpdateDepositAmount(amount: U64)
      modifies this`depositAmount
      ensures depositAmount == amount
    {
      depositAmount := amount;
    }

    /** The balance check and the lock of an escrow. */
    method LockFor(proposer: Address) returns (r: Result<(), DepositError>)
      requires balances.Valid() && Covered(balances.storage.Contents())
      modifies balances`cache, balances.storage`lockedBalances
      ensures balances.Valid() && proposer in balances.cache && old(balances.cache).Keys <= balances.cache.Keys
      ensures var op := Op.Lock(proposer, depositAmount);
              && (r.Ok? <==> Step(old(balances.storage.Contents()), op).Ok?)
              && balances.storage.Contents() == After(old(balances.storage.Contents()), op)
      ensures r.Err? ==> r.error == DepositError.InsufficientBalance
    {
      LockOutcome(balances.storage.Contents(), proposer, depositAmount);
      hide Covered, After, Step, Ledger.Of, SaturatingSub, BalanceManager.Valid, Matches;
      var free := balances.GetUnlockedBalance(proposer);
      if free < depositAmount {
        return Err(DepositError.InsufficientBalance);
      }
      var locked := balances.Lock(proposer, depositAmount);
      if locked.Err? {
        return Err(LockFailed);
      }
      return Ok(());
    }

    /** `escrow`: locks the current amount. The books stay balanced unless it overwrites a live deposit. */
    method Escrow(id: MessageId, key: PublicKey, now: int) returns (r: Result<(), DepositError>)
      requires Valid() && Balanced()
      modifies this`deposits, balances`cache, balances.storage`lockedBalances
      ensures Valid()
      ensures var op := Op.Lock(AddressOf(hash, key), depositAmount);
              && (r.Ok? <==> Step(old(balances.storage.Contents()), op).Ok?)
              && balances.storage.Contents() == After(old(balances.storage.Contents()), op)
      ensures var d := Deposit(key, AddressOf(hash, key), depositAmount, Escrowed, now);
              deposits == if r.Ok? then old(deposits)[id := d] else old(deposits)
      ensures r.Err? ==> r.error == DepositError.InsufficientBalance
      ensures Balanced() <==> r.Err? || !IsEscrowed(old(deposits), id) || old(deposits)[id].amount == 0
    {
      var proposer := AddressOf(hash, key);
      var d := Deposit(key, proposer, depositAmount, Escrowed, now);
      ghost var l, before := balances.storage.Contents(), balances.cache.Keys;
      EscrowOutcome(l, deposits, id, d);
      DerivedPut(hash, deposits, id, d);
      hide Covered, Accounts, After, Step, Known, IsEscrowed, Ledger.Of, SaturatingSub, BalanceManager.Valid, Matches,
        Derived, AddressOf;
      var locked := LockFor(proposer);
      KnownPut(deposits, before, balances.cache.Keys, id, d);
      if locked.Err? {
        return locked;
      }
      deposits := deposits[id := d];
      return Ok(());
    }

    /** `refund`: succeeds exactly on a live deposit, and releases exactly its lock. */
    method Refund(id: MessageId) returns (r: Result<(), DepositError>)
      requires Valid() && Balanced()
      modifies this`deposits, balances`cache, balances.storage`lockedBalances
      ensures Valid() && Balanced()
      ensures SettledKept(old(deposits), deposits)
      ensures r.Ok? <==> IsEscrowed(old(deposits), id)
      ensures r.Ok? ==> deposits == old(deposits)[id := old(deposits)[id].(status := Refunded)]
      ensures r.Ok? ==>
                balances.storage.Contents()
                == After(old(balances.storage.Contents()),
                         Op.Unlock(old(deposits)[id].proposer, old(deposits)[id].amount))
      ensures r.Err? ==> deposits == old(deposits) && balances.storage.Contents() == old(balances.storage.Contents())
                         && r.error == if id in deposits then NotEscrowed else NoDeposit
    {
      hide Derived, Covered, Accounts, After, Known, SettledKept, Ledger.Of;
      RefundOutcome(balances.storage.Contents(), deposits, id);
      if id !in deposits {
        return Err(NoDeposit);
      }
      var d := deposits[id];
      if d.status != Escrowed {
        return Err(NotEscrowed);
      }
      DerivedRestatus(hash, deposits, id, Refunded);
      ghost var before := balances.cache.Keys;
      OwnerKnown(deposits, before, id);
      var unlocked := balances.Unlock(d.proposer, d.amount);
      KnownPut(deposits, before, balances.cache.Keys, id, d.(status := Refunded));
      if unlocked.Err? {
        return Err(UnlockFailed);
      }
      deposits := deposits[id := d.(status := Refunded)];
      return Ok(());
    }

    /** `slash`: releases the lock, then moves exactly that amount to the treasury. A treasury-owned live deposit
        cannot be slashed, and trying to loses its lock. */
    method Slash(id: MessageId, now: int, txHash: string) returns (r: Result<(), DepositError>)
      requires Valid() && Balanced()
      modifies this`deposits, balances`cache, balances.storage
      ensures Valid()
      ensures SettledKept(old(deposits), deposits)
      ensures balances.storage.Contents().Total() == old(balances.storage.Contents()).Total()
      ensures r.Ok? <==>
                IsEscrowed(old(deposits), id)
                && (old(deposits)[id].proposer != Treasury() || old(deposits)[id].amount == 0)
      ensures Balanced() <==> r.Ok? || !IsEscrowed(old(deposits), id)
      ensures r.Ok? ==> deposits == old(deposits)[id := old(deposits)[id].(status := Slashed)]
      ensures r.Err? ==> deposits == old(deposits)
                         && r.error == if id !in deposits then NoDeposit
                                       else if deposits[id].status != Escrowed then NotEscrowed else TransferFailed
      ensures r.Ok? ==>
                balances.storage.Contents()
                == After(Released(old(balances.storage.Contents()), old(deposits)[id]),
                         Op.Transfer(old(deposits)[id].proposer, Treasury(), old(deposits)[id].amount))
      ensures r.Err? ==>
                balances.storage.Contents() == if IsEscrowed(old(deposits), id)
                then Released(old(balances.storage.Contents()), old(deposits)[id]) else old(balances.storage.Contents())
      ensures r.Ok? ==> Slashable(old(balances.storage.Contents()), old(deposits)[id], Treasury())
      ensures r.Ok? ==> forall a :: balances.storage.Contents().Of(a)
                                    == SlashedAccount(old(balances.storage.Contents()), old(deposits)[id], Treasury(),
                                                      a)
    {
      hide Derived, Covered, Accounts, After, Step, Known, SettledKept, Ledger.Of, Ledger.SetLocked, Ledger.Total,
        Slashable, SlashedAccount;
      SettledSelf(deposits);
      if id !in deposits {
        return Err(NoDeposit);
      }
      var d := deposits[id];
      if d.status != Escrowed {
        return Err(NotEscrowed);
      }
      ghost var l, before := balances.storage.Contents(), balances.cache.Keys;
      DerivedRestatus(hash, deposits, id, Slashed);
      SlashOutcome(l, deposits, id, Treasury());
      OwnerKnown(deposits, before, id);
      var unlocked := balances.Unlock(d.proposer, d.amount);
      if unlocked.Err? {
        return Err(UnlockFailed);
      }
      var moved := balances.Transfer(d.proposer, Treasury(), d.amount, now, txHash);
      KnownPut(deposits, before, balances.cache.Keys, id, d.(status := Slashed));
      if moved.Err? {
        return Err(TransferFailed);
      }
      SettledPut(deposits, id, d.(status := Slashed));
      deposits := deposits[id := d.(status := Slashed)];
      return Ok(());
    }

    method GetProposer(id: MessageId) returns (proposer: Option<Address>)
      ensures proposer == if id in deposits then Some(deposits[id].proposer) else None
    {
      proposer := if id in deposits then Some(deposits[id].proposer) else None;
    }

    method RemoveEach(ids: set<MessageId>)
      modifies this`deposits
      ensures deposits == old(deposits) - ids
    {
      var todo := ids;
      while todo != {}
        invariant todo <= ids && deposits == old(deposits) - (ids - todo)
        decreases |todo|
      {
        var id :| id in todo;
        deposits := deposits - {id};
        todo := todo - {id};
      }
    }

    /** `cleanup_old_deposits`: forgets settled deposits older than `cutoff`, and no live one. */
    method CleanupOldDeposits(cutoff: int)
      requires Valid() && Balanced()
      modifies this`deposits
      ensures Valid() && Balanced()
      ensures SettledKept(old(deposits), deposits)
      ensures deposits == Recent(old(deposits), cutoff)
    {
      hide Covered, EscrowedBy, Accounts, Known, Recent, Derived;
      CleanupKeeps(hash, deposits, cutoff, balances.storage.Contents(), balances.cache.Keys);
      RemoveEach(set id | id in deposits && deposits[id].status != Escrowed && deposits[id].timestamp < cutoff);
    }

    /** `get_total_escrowed`: the saturating sum is the exact total of all locks. */
    method GetTotalEscrowed() returns (total: U64)
      requires Valid() && Balanced()
      ensures total == Sum(balances.storage.Contents().locked)
    {
      hide Covered, Accounts;
      EscrowTotalIsLocked(deposits, balances.storage.Contents());
      var rest := deposits.Keys;
      total := 0;
      while rest != {}
        invariant rest <= deposits.Keys
        invariant total == CappedSum(Stakes(deposits, deposits.Keys - rest))
        decreases |rest|
      {
        var id :| id in rest;
        StakesStep(deposits, deposits.Keys - rest, id);
        if deposits[id].status == Escrowed {
          total := SaturatingAdd(total, deposits[id].amount);
        }
        assert deposits.Keys - (rest - {id}) == deposits.Keys - rest + {id};
        rest := rest - {id};
      }
      assert deposits.Keys - {} == deposits.Keys;
    }
  }

  // ----- whole runs

  /** What can happen around the deposits: their own operations, and payments that leave locked funds alone. */
  datatype Event =
    | Escrowing(id: MessageId, key: PublicKey, now: int)
    | Refunding(id: MessageId)
    | Slashing(id: MessageId, now: int, txHash: string)
    | Repricing(amount: U64)
    | CleaningUp(cutoff: int)
    | Paying(op: Op)

  predicate IsPayment(op: Op) {
    op.Transfer? || (op.MessageTransfer? && |op.fromBytes| == 32)
  }

  function Payer(op: Op): Address
    requires IsPayment(op)
  {
    if op.Transfer? then op.from else Address(op.fromBytes)
  }

  /** A payment within the unlocked balance keeps every lock covered, every lock as it was, and the total. */
  lemma PaymentKeeps(l: Ledger, op: Op, deposits: DepositMap)
    requires Covered(l) && IsPayment(op) && op.amount <= l.Of(Payer(op)).balance - l.Of(Payer(op)).locked
    ensures Covered(After(l, op))
    ensures After(l, op).locked == l.locked
    ensures After(l, op).Total() == l.Total()
  {
    StepAccounts(l, op);
    if Step(l, op).Ok? && op.amount > 0 {
      var to := if op.Transfer? then op.to else Address(op.toBytes);
      var moved := Move(l, Payer(op), to, op.amount).value;
      forall a: Address ensures After(l, op).Of(a).locked <= After(l, op).Of(a).balance {
        MoveReads(l, Payer(op), to, op.amount, a);
        assert After(l, op).balances == moved.balances;
        CoveredAt(l, a);
      }
    }
  }

  lemma SameLocks(deposits: DepositMap, l: Ledger, l': Ledger)
    requires Accounts(deposits, l) && l'.locked == l.locked
    ensures Accounts(deposits, l')
  {
    forall a: Address ensures l'.Of(a).locked == EscrowedBy(deposits, a) {
      assert l.Of(a).locked == EscrowedBy(deposits, a);
    }
  }

  lemma RunOne(l: Ledger, op: Op)
    ensures Run(l, [op]) == After(l, op)
  {
    assert [op][..0] == [] && Run(l, []) == l;
  }

  lemma KnownMore(deposits: DepositMap, cached: set<Address>, cached': set<Address>)
    requires Known(deposits, cached) && cached <= cached'
    ensures Known(deposits, cached')
  {
  }

  /** A payment that stays within the unlocked balance. */
  method Pay(manager: DepositManager, op: Op)
    requires manager.Valid() && manager.Balanced() && IsPayment(op)
    modifies manager.balances`cache, manager.balances.storage
    ensures manager.Valid() && manager.Balanced()
    ensures manager.balances.storage.Contents().Total() == old(manager.balances.storage.Contents()).Total()
    ensures var l, a := old(manager.balances.storage.Contents()), Payer(op);
            manager.balances.storage.Contents()
            == if op.amount <= SaturatingSub(l.Of(a).balance, l.Of(a).locked) then After(l, op) else l
  {
    hide Covered, Accounts, Known, After, Step, Ledger.Total, IsPayment;
    ghost var before := manager.balances.cache.Keys;
    var free := manager.balances.GetUnlockedBalance(Payer(op));
    KnownMore(manager.deposits, before, manager.balances.cache.Keys);
    ghost var l := manager.balances.storage.Contents();
    CoveredAt(l, Payer(op));
    if op.amount <= free {
      PaymentKeeps(l, op, manager.deposits);
      SameLocks(manager.deposits, l, After(l, op));
      RunOne(l, op);
      hide Run;
      before := manager.balances.cache.Keys;
      Replay(manager.balances, [op]);
      KnownMore(manager.deposits, before, manager.balances.cache.Keys);
    }
  }

  /** Ids are used for one deposit only. */
  predicate FreshEscrows(events: seq<Event>, taken: set<MessageId>) {
    && (forall i :: 0 <= i < |events| && events[i].Escrowing? ==> events[i].id !in taken)
    && (forall i, j :: 0 <= i < j < |events| && events[i].Escrowing? && events[j].Escrowing? ==>
         events[i].id != events[j].id)
  }

  ghost function EventKeys(events: seq<Event>): set<PublicKey> {
    set i | 0 <= i < |events| && events[i].Escrowing? :: events[i].key
  }

  ghost predicate TreasuryOwnsNone(deposits: DepositMap) {
    forall id :: id in deposits ==> deposits[id].proposer != Treasury()
  }

  /** The treasury owns a deposit only through a key that hashes to it. */
  lemma NoKeyNoDeposit(hash: HashFn, deposits: DepositMap)
    requires Derived(hash, deposits)
    ensures TreasuryOwnsNone(deposits) <==> NoTreasuryKey(hash, KeysOf(deposits))
  {
    forall id | id in deposits ensures deposits[id].key in KeysOf(deposits) {
    }
  }

  lemma SafeStart(manager: DepositManager, more: set<PublicKey>)
    requires manager.Valid() && NoTreasuryKey(manager.hash, KeysOf(manager.deposits) + more)
    ensures TreasuryOwnsNone(manager.deposits)
  {
    NoKeyNoDeposit(manager.hash, manager.deposits);
  }

  lemma EventKeyIsSafe(hash: HashFn, events: seq<Event>, known: set<PublicKey>, i: nat)
    requires i < |events| && NoTreasuryKey(hash, known + EventKeys(events))
    ensures events[i].Escrowing? ==> AddressOf(hash, events[i].key) != Treasury()
  {
    if events[i].Escrowing? {
      assert events[i].key in EventKeys(events);
    }
  }

  /** Whatever is settled now was settled, and the same, before. */
  ghost predicate NoneNewlySettled(before: DepositMap, after: DepositMap) {
    forall id :: id in after && after[id].status != Escrowed ==> id in before && before[id] == after[id]
  }

  ghost function NewId(e: Event): set<MessageId> {
    if e.Escrowing? then {e.id} else {}
  }

  ghost function NewIds(events: seq<Event>): set<MessageId> {
    set i | 0 <= i < |events| && events[i].Escrowing? :: events[i].id
  }

  lemma FreshId(events: seq<Event>, taken: set<MessageId>, i: nat)
    requires i < |events| && FreshEscrows(events, taken)
    ensures events[i].Escrowing? ==> events[i].id !in taken + NewIds(events[..i])
    ensures NewId(events[i]) !! taken
  {
  }

  lemma NoNewIds(events: seq<Event>)
    ensures NewIds(events[..0]) == {}
  {
  }

  lemma NewIdsStep(events: seq<Event>, i: nat)
    requires i < |events|
    ensures NewIds(events[..i + 1]) == NewIds(events[..i]) + NewId(events[i])
  {
  }

  lemma SettledStep(start: DepositMap, before: DepositMap, after: DepositMap, added: set<MessageId>)
    requires SettledKept(start, before) && SettledKept(before, after)
    requires after.Keys <= before.Keys + added && start.Keys !! added
    ensures SettledKept(start, after)
  {
  }

  /** What an event does to it. */
  ghost function Act(hash: HashFn, v: Vault, e: Event): Vault {
    match e
    case Escrowing(id, key, now) =>
      var op := Op.Lock(AddressOf(hash, key), v.price);
      if Step(v.ledger, op).Err? then v
      else v.(ledger := After(v.ledger, op),
              deposits := v.deposits[id := Deposit(key, AddressOf(hash, key), v.price, Escrowed, now)])
    case Refunding(id) =>
      if !IsEscrowed(v.deposits, id) then v
      else v.(ledger := After(v.ledger, Op.Unlock(v.deposits[id].proposer, v.deposits[id].amount)),
              deposits := v.deposits[id := v.deposits[id].(status := Refunded)])
    case Slashing(id, _, _) =>
      if !IsEscrowed(v.deposits, id) then v
      else
        var d := v.deposits[id];
        var released := After(v.ledger, Op.Unlock(d.proposer, d.amount));
        v.(ledger := After(released, Op.Transfer(d.proposer, Treasury(), d.amount)),
           deposits := v.deposits[id := d.(status := Slashed)])
    case Repricing(amount) => v.(price := amount)
    case CleaningUp(cutoff) => v.(deposits := Recent(v.deposits, cutoff))
    case Paying(op) =>
      if !IsPayment(op) || op.amount > SaturatingSub(v.ledger.Of(Payer(op)).balance,
                                                     v.ledger.Of(Payer(op)).locked) then v
      else v.(ledger := After(v.ledger, op))
  }

  ghost function ActAll(hash: HashFn, v: Vault, events: seq<Event>): Vault {
    if events == [] then v else Act(hash, ActAll(hash, v, events[..|events| - 1]), events[|events| - 1])
  }

  lemma ActStep(hash: HashFn, v: Vault, events: seq<Event>, i: nat)
    requires i < |events|
    ensures ActAll(hash, v, events[..i + 1]) == Act(hash, ActAll(hash, v, events[..i]), events[i])
  {
    assert events[..i + 1][..i] == events[..i];
  }

  lemma ActNone(hash: HashFn, v: Vault, events: seq<Event>)
    ensures ActAll(hash, v, events[..0]) == v
  {
  }

  lemma FailedKeeps(l: Ledger, op: Op)
    ensures Step(l, op).Err? ==> After(l, op) == l
  {
  }

  lemma OwnedByAnother(deposits: DepositMap, id: MessageId)
    requires TreasuryOwnsNone(deposits)
    ensures id in deposits ==> deposits[id].proposer != Treasury()
  {
  }

  /** Which deposits an event can touch. */
  lemma ActTouches(hash: HashFn, v: Vault, e: Event)
    requires TreasuryOwnsNone(v.deposits) && (e.Escrowing? ==> AddressOf(hash, e.key) != Treasury())
    ensures TreasuryOwnsNone(Act(hash, v, e).deposits) && Act(hash, v, e).deposits.Keys <= v.deposits.Keys + NewId(e)
    ensures !e.Refunding? && !e.Slashing? ==> NoneNewlySettled(v.deposits, Act(hash, v, e).deposits)
  {
    hide Step, After, AddressOf, Treasury;
  }

  /** One event, on a manager whose books balance. */
  method Handle(manager: DepositManager, e: Event)
    requires manager.Valid() && manager.Balanced() && TreasuryOwnsNone(manager.deposits)
    requires e.Escrowing? ==> e.id !in manager.deposits && AddressOf(manager.hash, e.key) != Treasury()
    requires e.Paying? ==> IsPayment(e.op)
    modifies manager, manager.balances`cache, manager.balances.storage
    ensures manager.Valid() && manager.Balanced() && TreasuryOwnsNone(manager.deposits)
    ensures manager.balances.storage.Contents().Total() == old(manager.balances.storage.Contents()).Total()
    ensures SettledKept(old(manager.deposits), manager.deposits)
    ensures manager.deposits.Keys <= old(manager.deposits).Keys + NewId(e)
    ensures !e.Refunding? && !e.Slashing? ==> NoneNewlySettled(old(manager.deposits), manager.deposits)
    ensures manager.State() == Act(manager.hash, old(manager.State()), e)
  {
    hide Covered, Accounts, Known, After, Step, Ledger.Total, EscrowedBy, Slashable, SlashedAccount, Derived, AddressOf,
      Treasury, TreasuryOwnsNone, NoneNewlySettled, NewId, IsPayment;
    ActTouches(manager.hash, manager.State(), e);
    ghost var l := manager.balances.storage.Contents();
    match e
    case Escrowing(id, key, now) =>
      StepAccounts(l, Op.Lock(AddressOf(manager.hash, key), manager.depositAmount));
      FailedKeeps(l, Op.Lock(AddressOf(manager.hash, key), manager.depositAmount));
      var _ := manager.Escrow(id, key, now);
    case Refunding(id) =>
      if id in manager.deposits {
        StepAccounts(l, Op.Unlock(manager.deposits[id].proposer, manager.deposits[id].amount));
      }
      var _ := manager.Refund(id);
    case Slashing(id, now, txHash) =>
      OwnedByAnother(manager.deposits, id);
      var _ := manager.Slash(id, now, txHash);
    case Repricing(amount) =>
      manager.UpdateDepositAmount(amount);
    case CleaningUp(cutoff) =>
      manager.CleanupOldDeposits(cutoff);
    case Paying(op) =>
      Pay(manager, op);
  }

  /** Every run ends where the events lead the plain values, the locks stay the sums of the escrowed deposits, money is
      neither made nor lost, and no deposit leaves a settled state. */
  method RunDeposits(manager: DepositManager, events: seq<Event>)
    requires manager.Valid() && manager.Balanced() && FreshEscrows(events, manager.deposits.Keys)
    requires NoTreasuryKey(manager.hash, KeysOf(manager.deposits) + EventKeys(events))
    requires forall i :: 0 <= i < |events| && events[i].Paying? ==> IsPayment(events[i].op)
    modifies manager, manager.balances`cache, manager.balances.storage
    ensures manager.Valid() && manager.Balanced()
    ensures manager.balances.storage.Contents().Total() == old(manager.balances.storage.Contents()).Total()
    ensures SettledKept(old(manager.deposits), manager.deposits)
    ensures manager.State() == ActAll(manager.hash, old(manager.State()), events)
  {
    hide Covered, Accounts, Known, Ledger.Total, SettledKept, TreasuryOwnsNone, IsPayment, NoTreasuryKey, NewIds,
      FreshEscrows, AddressOf, Treasury, EventKeys, NoneNewlySettled, DepositManager.Valid, DepositManager.Balanced,
      Act, ActAll;
    ActNone(manager.hash, manager.State(), events);
    SettledSelf(manager.deposits);
    ghost var start, keys := manager.deposits, KeysOf(manager.deposits);
    ghost var state := manager.State();
    SafeStart(manager, EventKeys(events));
    NoNewIds(events);
    for i := 0 to |events|
      invariant manager.Valid() && manager.Balanced() && TreasuryOwnsNone(manager.deposits)
      invariant manager.balances.storage.Contents().Total() == old(manager.balances.storage.Contents()).Total()
      invariant SettledKept(start, manager.deposits)
      invariant manager.State() == ActAll(manager.hash, state, events[..i])
      invariant manager.deposits.Keys <= start.Keys + NewIds(events[..i])
    {
      NewIdsStep(events, i);
      ActStep(manager.hash, state, events, i);
      FreshId(events, start.Keys, i);
      EventKeyIsSafe(manager.hash, events, keys, i);
      ghost var before := manager.deposits;
      Handle(manager, events[i]);
      SettledStep(start, before, manager.deposits, NewId(events[i]));
    }
    assert events[..|events|] == events;
  }
}
