/** The plain ledger the balance manager is held against: three maps and one step per operation. */
module Ledger {
  import opened Common
  import opened Sums

  datatype Address = Address(bytes: Bytes32)

  const MAX_SUPPLY: U64 := 1_000_000_000_000_000_000
  const GENESIS_SUPPLY: U64 := 300_000_000_000_000_000

  /** `saturating_add` of amounts is capped at the maximal supply, not at the machine word. */
  function SaturatingAdd(a: U64, b: U64): U64 {
    if a + b < MAX_SUPPLY then a + b else MAX_SUPPLY
  }

  function SaturatingSub(a: U64, b: U64): U64 {
    if a < b then 0 else a - b
  }

  datatype Account = Account(balance: U64, locked: U64, nonce: U64)

  const EMPTY := Account(0, 0, 0)

  type Amounts = map<Address, U64>

  function Read(m: Amounts, a: Address): U64 {
    if a in m then m[a] else 0
  }

  /** Zero entries are removed instead of stored. */
  function Write(m: Amounts, a: Address, v: U64): Amounts {
    if v == 0 then m - {a} else m[a := v]
  }

  ghost predicate NoZeros(m: Amounts) {
    forall a :: a in m ==> m[a] != 0
  }

  datatype Ledger = Ledger(balances: Amounts, locked: Amounts, nonces: Amounts) {
    function Of(a: Address): Account {
      Account(Read(balances, a), Read(locked, a), Read(nonces, a))
    }

    function SetBalance(a: Address, v: U64): Ledger {
      this.(balances := Write(balances, a, v))
    }

    function SetLocked(a: Address, v: U64): Ledger {
      this.(locked := Write(locked, a, v))
    }

    function SetNonce(a: Address, v: U64): Ledger {
      this.(nonces := Write(nonces, a, v))
    }

    ghost predicate Normal() {
      NoZeros(balances) && NoZeros(locked) && NoZeros(nonces)
    }

    ghost function Total(): int {
      Sum(balances)
    }
  }

  datatype LedgerError =
    | BalanceOverflow | ExceedsMaxSupply | InsufficientBalance | SameAddress | InsufficientUnlocked
    | InsufficientLocked | AccountNotFound | InvalidAddressLength | ZeroAmount | InvalidNonce

  datatype Op =
    | Credit(to: Address, amount: U64)
    | Debit(from: Address, amount: U64)
    | Transfer(from: Address, to: Address, amount: U64)
    | Lock(owner: Address, amount: U64)
    | Unlock(owner: Address, amount: U64)
    | MessageTransfer(fromBytes: seq<Byte>, toBytes: seq<Byte>, amount: U64, nonce: U64)

  function Move(l: Ledger, from: Address, to: Address, amount: U64): Result<Ledger, LedgerError> {
    if l.Of(from).balance < amount then Err(InsufficientBalance)
    else if l.Of(to).balance + amount >= U64_LIMIT then Err(BalanceOverflow)
    else Ok(l.SetBalance(from, l.Of(from).balance - amount).SetBalance(to, l.Of(to).balance + amount))
  }

  function CheckMessage(l: Ledger, fromBytes: seq<Byte>, toBytes: seq<Byte>, amount: U64,
                        nonce: U64): Option<LedgerError> {
    if |fromBytes| != 32 || |toBytes| != 32 then Some(InvalidAddressLength)
    else if fromBytes == toBytes then Some(SameAddress)
    else if amount == 0 then Some(ZeroAmount)
    else if l.Of(Address(fromBytes)).balance < amount then Some(InsufficientBalance)
    else if nonce != l.Of(Address(fromBytes)).nonce + 1 then Some(InvalidNonce)
    else None
  }

  /** One operation on the plain ledger. */
  function Step(l: Ledger, op: Op): Result<Ledger, LedgerError> {
    match op
    case Credit(to, amount) =>
      if amount == 0 then Ok(l)
      else if l.Of(to).balance + amount >= U64_LIMIT then Err(BalanceOverflow)
      else if l.Of(to).balance + amount > MAX_SUPPLY then Err(ExceedsMaxSupply)
      else Ok(l.SetBalance(to, l.Of(to).balance + amount))
    case Debit(from, amount) =>
      if amount == 0 then Ok(l)
      else if l.Of(from).balance < amount then Err(InsufficientBalance)
      else Ok(l.SetBalance(from, l.Of(from).balance - amount))
    case Transfer(from, to, amount) =>
      if amount == 0 then Ok(l)
      else if from == to then Err(SameAddress)
      else Move(l, from, to, amount)
    case Lock(owner, amount) =>
      if SaturatingSub(l.Of(owner).balance, l.Of(owner).locked) < amount then Err(InsufficientUnlocked)
      else Ok(l.SetLocked(owner, SaturatingAdd(l.Of(owner).locked, amount)))
    case Unlock(owner, amount) =>
      if l.Of(owner).locked < amount then Err(InsufficientLocked)
      else Ok(l.SetLocked(owner, l.Of(owner).locked - amount))
    case MessageTransfer(fromBytes, toBytes, amount, nonce) =>
      var bad := CheckMessage(l, fromBytes, toBytes, amount, nonce);
      if bad.Some? then Err(bad.value)
      else
        match Move(l, Address(fromBytes), Address(toBytes), amount)
        case Err(e) => Err(e)
        case Ok(l') => Ok(l'.SetNonce(Address(fromBytes), nonce))
  }

  /** The state after an attempt: failed operations change nothing. */
  function After(l: Ledger, op: Op): Ledger {
    match Step(l, op)
    case Ok(l') => l'
    case Err(_) => l
  }

  ghost function Run(l: Ledger, ops: seq<Op>): Ledger {
    if ops == [] then l else After(Run(l, ops[..|ops| - 1]), ops[|ops| - 1])
  }

  // ----- when each operation succeeds, and what it leaves in every account

  lemma CreditExactly(l: Ledger, to: Address, amount: U64)
    ensures var r := Step(l, Op.Credit(to, amount));
            && (r.Ok? <==> amount == 0 || l.Of(to).balance + amount <= MAX_SUPPLY)
            && (r.Err? ==> r.error == if l.Of(to).balance + amount < U64_LIMIT then ExceedsMaxSupply
                                      else BalanceOverflow)
            && (r.Ok? ==> forall a :: r.value.Of(a) == if a == to then l.Of(a).(balance := l.Of(a).balance + amount)
                                                       else l.Of(a))
  {
  }

  lemma DebitExactly(l: Ledger, from: Address, amount: U64)
    ensures var r := Step(l, Op.Debit(from, amount));
            && (r.Ok? <==> amount <= l.Of(from).balance) && (r.Err? ==> r.error == InsufficientBalance)
            && (r.Ok? ==> forall a :: r.value.Of(a) == if a == from then l.Of(a).(balance := l.Of(a).balance - amount)
                                                       else l.Of(a))
  {
  }

  /** Account `a` after `amount` went from one account to another. */
  function Moved(l: Ledger, from: Address, to: Address, amount: U64, a: Address): Account
    requires from != to && amount <= l.Of(from).balance && l.Of(to).balance + amount < U64_LIMIT
  {
    l.Of(a).(balance := l.Of(a).balance - (if a == from then amount else 0) + if a == to then amount else 0)
  }

  lemma MoveReads(l: Ledger, from: Address, to: Address, amount: U64, a: Address)
    requires from != to && Move(l, from, to, amount).Ok?
    ensures Move(l, from, to, amount).value.Of(a)
         == l.Of(a).(balance := l.Of(a).balance - (if a == from then amount else 0) + (if a == to then amount else 0))
  {
  }

  lemma TransferExactly(l: Ledger, from: Address, to: Address, amount: U64)
    ensures var r := Step(l, Op.Transfer(from, to, amount));
            && (r.Ok? <==>
                  amount == 0
                  || (from != to && amount <= l.Of(from).balance && l.Of(to).balance + amount < U64_LIMIT))
            && (r.Err? ==> r.error == if from == to then SameAddress
                                      else if l.Of(from).balance < amount then InsufficientBalance
                                      else BalanceOverflow)
            && (r.Ok? && amount == 0 ==> r.value == l)
            && (r.Ok? && amount > 0 ==> forall a :: r.value.Of(a) == Moved(l, from, to, amount, a))
  {
    if from != to && amount > 0 && Move(l, from, to, amount).Ok? {
      forall a {
        MoveReads(l, from, to, amount, a);
      }
    }
  }

  lemma LockExactly(l: Ledger, owner: Address, amount: U64)
    ensures var r := Step(l, Op.Lock(owner, amount));
            && (r.Ok? <==> amount == 0 || l.Of(owner).locked + amount <= l.Of(owner).balance)
            && (r.Err? ==> r.error == InsufficientUnlocked)
            && (r.Ok? ==>
                  var sum := l.Of(owner).locked + amount;
                  forall a :: r.value.Of(a) == if a != owner then l.Of(a)
                                               else l.Of(a).(locked := if sum <= MAX_SUPPLY then sum else MAX_SUPPLY))
  {
  }

  lemma UnlockExactly(l: Ledger, owner: Address, amount: U64)
    ensures var r := Step(l, Op.Unlock(owner, amount));
            && (r.Ok? <==> amount <= l.Of(owner).locked) && (r.Err? ==> r.error == InsufficientLocked)
            && (r.Ok? ==> forall a :: r.value.Of(a) == if a == owner then l.Of(a).(locked := l.Of(a).locked - amount)
                                                       else l.Of(a))
  {
  }

  /** What a message transfer has to come to: it succeeds exactly when both ids have length 32 and differ, the amount is
      positive and covered, the nonce is the next one and the recipient's balance has room; the first of these that
      fails names the error. */
  ghost predicate MessageOutcome(l: Ledger, fromBytes: seq<Byte>, toBytes: seq<Byte>, amount: U64, nonce: U64,
                                 r: Result<Ledger, LedgerError>)
  {
    if |fromBytes| != 32 || |toBytes| != 32 then r == Err(InvalidAddressLength)
    else if fromBytes == toBytes then r == Err(SameAddress)
    else if amount == 0 then r == Err(ZeroAmount)
    else
      var from, to := Address(fromBytes), Address(toBytes);
      if amount > l.Of(from).balance then r == Err(InsufficientBalance)
      else if nonce != l.Of(from).nonce + 1 then r == Err(InvalidNonce)
      else if l.Of(to).balance + amount >= U64_LIMIT then r == Err(BalanceOverflow)
      else
        && r.Ok?
        && r.value.Of(from) == l.Of(from).(balance := l.Of(from).balance - amount, nonce := nonce)
        && r.value.Of(to) == l.Of(to).(balance := l.Of(to).balance + amount)
        && forall a :: a != from && a != to ==> r.value.Of(a) == l.Of(a)
  }

  lemma MessageTransferExactly(l: Ledger, fromBytes: seq<Byte>, toBytes: seq<Byte>, amount: U64, nonce: U64)
    ensures MessageOutcome(l, fromBytes, toBytes, amount, nonce,
                           Step(l, Op.MessageTransfer(fromBytes, toBytes, amount, nonce)))
  {
  }

  // ----- conservation

  lemma TotalAfterWrite(l: Ledger, a: Address, v: U64)
    ensures l.SetBalance(a, v).Total() == l.Total() - l.Of(a).balance + v
  {
    SumUpdate(l.balances, a, v);
    SumRemove(l.balances, a);
  }

  lemma NormalAfterWrite(l: Ledger, a: Address, v: U64)
    requires l.Normal()
    ensures l.SetBalance(a, v).Normal() && l.SetLocked(a, v).Normal() && l.SetNonce(a, v).Normal()
  {
  }

  /** A write changes one field of one account. */
  lemma WriteReads(l: Ledger, a: Address, v: U64)
    ensures l.SetBalance(a, v).Of(a) == l.Of(a).(balance := v)
    ensures l.SetLocked(a, v).Of(a) == l.Of(a).(locked := v)
    ensures l.SetNonce(a, v).Of(a) == l.Of(a).(nonce := v)
    ensures forall b :: b != a ==>
              l.SetBalance(a, v).Of(b) == l.Of(b) && l.SetLocked(a, v).Of(b) == l.Of(b)
                  && l.SetNonce(a, v).Of(b) == l.Of(b)
  {
  }

  lemma MoveConserves(l: Ledger, from: Address, to: Address, amount: U64)
    requires from != to && Move(l, from, to, amount).Ok?
    ensures Move(l, from, to, amount).value.Total() == l.Total()
  {
    TotalAfterWrite(l, from, l.Of(from).balance - amount);
    TotalAfterWrite(l.SetBalance(from, l.Of(from).balance - amount), to, l.Of(to).balance + amount);
  }

  /** What one attempt adds to the total: successful credits and debits only. */
  ghost function Minted(l: Ledger, op: Op): int {
    if Step(l, op).Err? then 0
    else if op.Credit? then op.amount
    else if op.Debit? then -(op.amount as int)
    else 0
  }

  lemma StepAccounts(l: Ledger, op: Op)
    ensures After(l, op).Total() == l.Total() + Minted(l, op)
  {
    match op
    case Credit(to, amount) =>
      if Step(l, op).Ok? && amount > 0 {
        TotalAfterWrite(l, to, l.Of(to).balance + amount);
      }
    case Debit(from, amount) =>
      if Step(l, op).Ok? && amount > 0 {
        TotalAfterWrite(l, from, l.Of(from).balance - amount);
      }
    case Transfer(from, to, amount) => if Step(l, op).Ok? && amount > 0 { MoveConserves(l, from, to, amount); }
    case Lock(_, _) =>
    case Unlock(_, _) =>
    case MessageTransfer(f, t, amount, nonce) =>
      if Step(l, op).Ok? { MoveConserves(l, Address(f), Address(t), amount); }
  }

  ghost function MintedBy(l: Ledger, ops: seq<Op>): int {
    if ops == [] then 0
    else MintedBy(l, ops[..|ops| - 1]) + Minted(Run(l, ops[..|ops| - 1]), ops[|ops| - 1])
  }

  /** Over any run, the total moves only by what was credited and debited. */
  lemma {:induction false} RunConserves(l: Ledger, ops: seq<Op>)
    ensures Run(l, ops).Total() == l.Total() + MintedBy(l, ops)
  {
    if ops != [] {
      RunConserves(l, ops[..|ops| - 1]);
      StepAccounts(Run(l, ops[..|ops| - 1]), ops[|ops| - 1]);
    }
  }

  // ----- nonces

  /** The nonces of the accepted message transfers of one account, in the order they were accepted. */
  ghost function AcceptedNonces(l: Ledger, ops: seq<Op>, a: Address): seq<U64> {
    if ops == [] then []
    else
      var init, last := ops[..|ops| - 1], ops[|ops| - 1];
      AcceptedNonces(l, init, a)
      + if last.MessageTransfer? && Step(Run(l, init), last).Ok? && last.fromBytes == a.bytes then [last.nonce] else []
  }

  lemma NonceAfter(l: Ledger, op: Op, a: Address)
    ensures After(l, op).Of(a).nonce
         == if op.MessageTransfer? && Step(l, op).Ok? && op.fromBytes == a.bytes then op.nonce else l.Of(a).nonce
    ensures op.MessageTransfer? && Step(l, op).Ok? && op.fromBytes == a.bytes ==> op.nonce == l.Of(a).nonce + 1
  {
  }

  /** Accepted nonces count up by one from the account's starting nonce, without gap or repetition. */
  lemma {:induction false} NoncesCountUp(l: Ledger, ops: seq<Op>, a: Address)
    ensures Run(l, ops).Of(a).nonce == l.Of(a).nonce + |AcceptedNonces(l, ops, a)|
    ensures forall i :: 0 <= i < |AcceptedNonces(l, ops, a)| ==> AcceptedNonces(l, ops, a)[i] == l.Of(a).nonce + i + 1
  {
    if ops != [] {
      var init, last := ops[..|ops| - 1], ops[|ops| - 1];
      NoncesCountUp(l, init, a);
      NonceAfter(Run(l, init), last, a);
    }
  }
}
