/** Token supply: genesis and emission mints, the credits that follow them, and the supply bound. */
module Supply {
  import opened Common
  import opened Sums
  import opened Ledger
  import opened Balance

  datatype SupplyError =
    | GenesisAlreadyMinted | InvalidGenesisAmount | SupplyOverflow | WouldExceedMaxSupply
    | EmissionTooFrequent | MaxSupplyReached | GenesisAlreadyExecuted | AllocationOverflow | AllocationTooLarge
    | MultisigFailed | CreditFailed(error: LedgerError)

  class TokenSupply {
    var totalSupply: U64
    var circulatingSupply: U64
    var emissionIssued: U64
    /** Whether the genesis supply is part of the total. */
    ghost var genesisMinted: bool

    /** The total is exactly what was minted, and within the cap. */
    ghost predicate Valid()
      reads this
    {
      totalSupply == (if genesisMinted then GENESIS_SUPPLY else 0) + emissionIssued && totalSupply <= MAX_SUPPLY
    }

    constructor ()
      ensures totalSupply == 0 && emissionIssued == 0 && circulatingSupply == 0 && !genesisMinted && Valid()
    {
      totalSupply, circulatingSupply, emissionIssued, genesisMinted := 0, 0, 0, false;
    }

    method MintGenesis(amount: U64) returns (r: Result<(), SupplyError>)
      requires Valid()
      modifies this`totalSupply, this`genesisMinted
      ensures Valid()
      ensures r.Ok? <==> old(totalSupply) == 0 && amount == GENESIS_SUPPLY
      ensures r.Ok? ==> totalSupply == amount && genesisMinted
      ensures r.Err? ==> r.error == if old(totalSupply) != 0 then GenesisAlreadyMinted else InvalidGenesisAmount
      ensures r.Err? ==> totalSupply == old(totalSupply) && genesisMinted == old(genesisMinted)
    {
      if totalSupply != 0 {
        return Err(GenesisAlreadyMinted);
      }
      if amount != GENESIS_SUPPLY {
        return Err(InvalidGenesisAmount);
      }
      totalSupply, genesisMinted := amount, true;
      return Ok(());
    }

    method MintEmission(amount: U64) returns (r: Result<(), SupplyError>)
      requires Valid()
      modifies this`totalSupply, this`emissionIssued, this`circulatingSupply
      ensures Valid()
      ensures r.Ok? <==> old(totalSupply) + amount <= MAX_SUPPLY
      ensures r.Ok? ==> totalSupply == old(totalSupply) + amount && emissionIssued == old(emissionIssued) + amount
                        && circulatingSupply == SaturatingAdd(old(circulatingSupply), amount)
      ensures r.Err? ==> totalSupply == old(totalSupply) && emissionIssued == old(emissionIssued)
                         && circulatingSupply == old(circulatingSupply)
      ensures r.Err? ==> r.error == if old(totalSupply) + amount < U64_LIMIT then WouldExceedMaxSupply
                                    else SupplyOverflow
    {
      if totalSupply + amount >= U64_LIMIT {
        return Err(SupplyOverflow);
      }
      if totalSupply + amount > MAX_SUPPLY {
        return Err(WouldExceedMaxSupply);
      }
      totalSupply := totalSupply + amount;
      emissionIssued := SaturatingAdd(emissionIssued, amount);
      circulatingSupply := SaturatingAdd(circulatingSupply, amount);
      return Ok(());
    }

    method CanMint(amount: U64) returns (b: bool)
      ensures b <==> totalSupply + amount <= MAX_SUPPLY
    {
      b := totalSupply + amount < U64_LIMIT && totalSupply + amount <= MAX_SUPPLY;
    }

    method RemainingMintable() returns (left: U64)
      requires Valid()
      ensures totalSupply + left == MAX_SUPPLY
    {
      left := SaturatingSub(MAX_SUPPLY, totalSupply);
    }
  }

  /** No more tokens are in accounts than were minted, and no more were minted than the cap allows. */
  ghost predicate Bounded(supply: TokenSupply, balances: BalanceManager)
    reads supply, balances, balances.storage
  {
    supply.Valid() && balances.Valid() && balances.storage.Contents().Total() <= supply.totalSupply
  }

  lemma BalanceBelowTotal(l: Ledger, a: Address)
    ensures 0 <= l.Of(a).balance <= l.Total()
  {
    EntryBelowSum(l.balances, a);
  }

  /** A credit that the supply has room for succeeds. */
  lemma RoomMeansCredit(l: Ledger, a: Address, amount: U64)
    requires l.Total() + amount <= MAX_SUPPLY
    ensures Step(l, Op.Credit(a, amount)).Ok?
  {
    BalanceBelowTotal(l, a);
  }

  /** Every operation but a credit keeps the bound: it cannot raise the total. */
  lemma OthersKeepTotal(l: Ledger, op: Op)
    requires !op.Credit?
    ensures After(l, op).Total() <= l.Total()
  {
    StepAccounts(l, op);
  }

  lemma CreditReads(l: Ledger, a: Address, amount: U64)
    requires Step(l, Op.Credit(a, amount)).Ok?
    ensures After(l, Op.Credit(a, amount)).Of(a).balance == l.Of(a).balance + amount
  {
  }

  class EmissionController {
    const supply: TokenSupply
    const balances: BalanceManager
    var lastEmission: int
    var totalEmitted: U64

    constructor (supply: TokenSupply, balances: BalanceManager, now: int)
      ensures this.supply == supply && this.balances == balances && lastEmission == now && totalEmitted == 0
    {
      this.supply, this.balances, lastEmission, totalEmitted := supply, balances, now, 0;
    }

    /** `mint_and_distribute`: a successful mint is always followed by a successful credit. */
    method MintAndDistribute(amount: U64, recipient: Address, now: int) returns (r: Result<U64, SupplyError>)
      requires Bounded(supply, balances) && supply.totalSupply + amount <= MAX_SUPPLY
      modifies this, supply, balances`cache, balances.storage`balances
      ensures Bounded(supply, balances) && r == Ok(amount)
      ensures supply.totalSupply == old(supply.totalSupply) + amount
              && supply.genesisMinted == old(supply.genesisMinted)
      ensures balances.storage.Contents() == After(old(balances.storage.Contents()), Op.Credit(recipient, amount))
      ensures balances.storage.Contents().Of(recipient).balance
              == old(balances.storage.Contents().Of(recipient).balance) + amount
      ensures lastEmission == now && totalEmitted == SaturatingAdd(old(totalEmitted), amount)
    {
      ghost var l := balances.storage.Contents();
      RoomMeansCredit(l, recipient, amount);
      StepAccounts(l, Op.Credit(recipient, amount));
      CreditReads(l, recipient, amount);
      hide After, Step, Ledger.Total, Ledger.Of;
      var minted := supply.MintEmission(amount);
      match minted {
        case Err(e) => return Err(e);
        case Ok(_) =>
      }
      var credited := balances.Credit(recipient, amount);
      match credited {
        case Err(e) => return Err(CreditFailed(e));
        case Ok(_) =>
      }
      lastEmission := now;
      totalEmitted := SaturatingAdd(totalEmitted, amount);
      return Ok(amount);
    }

    method Remaining() returns (left: U64)
      requires Bounded(supply, balances)
      ensures supply.totalSupply + left == MAX_SUPPLY
    {
      left := supply.RemainingMintable();
    }

    /** `process_emission`, for an emission amount computed elsewhere: clipped to what is left, refused only
        when it comes within a minute of the last one or nothing is left. */
    method ProcessEmission(recipient: Address, emission: U64, now: int) returns (r: Result<U64, SupplyError>)
      requires Bounded(supply, balances)
      modifies this, supply, balances`cache, balances.storage`balances
      ensures Bounded(supply, balances)
      ensures r.Ok? <==> now - old(lastEmission) >= 60
                         && (old(supply.totalSupply) + emission <= MAX_SUPPLY || old(supply.totalSupply) < MAX_SUPPLY)
      ensures r.Ok? ==> r.value == if old(supply.totalSupply) + emission <= MAX_SUPPLY then emission
                                   else MAX_SUPPLY - old(supply.totalSupply)
      ensures r.Ok? ==> supply.totalSupply == old(supply.totalSupply) + r.value && lastEmission == now
      ensures r.Err? ==> r.error == if now - old(lastEmission) < 60 then EmissionTooFrequent else MaxSupplyReached
      ensures r.Ok? ==>
                balances.storage.Contents().Of(recipient).balance
                == old(balances.storage.Contents().Of(recipient).balance) + r.value
      ensures r.Err? ==>
                supply.totalSupply == old(supply.totalSupply) && lastEmission == old(lastEmission)
                && balances.storage.Contents() == old(balances.storage.Contents())
      ensures supply.genesisMinted == old(supply.genesisMinted)
    {
      hide Bounded, After, Ledger.Of, Step;
      if now - lastEmission < 60 {
        return Err(EmissionTooFrequent);
      }
      var fits := supply.CanMint(emission);
      if !fits {
        var left := Remaining();
        if left == 0 {
          return Err(MaxSupplyReached);
        }
        r := MintAndDistribute(left, recipient, now);
        return;
      }
      r := MintAndDistribute(emission, recipient, now);
    }
  }

  const FAUCET_AMOUNT: U64 := 10_000_000_000_000_000

  datatype GenesisAddresses = GenesisAddresses(treasury: Address, liquidity: Address, genesisPool: Address,
                                               faucet: Address)

  lemma EmptyWhenUnminted(supply: TokenSupply, balances: BalanceManager)
    requires Bounded(supply, balances) && supply.totalSupply == 0
    ensures balances.storage.Contents().Total() == 0
  {
    SumNonNegative(balances.storage.balances);
  }

  lemma NothingHeld(l: Ledger)
    requires l.Total() == 0
    ensures forall a :: l.Of(a).balance == 0
  {
    forall a ensures l.Of(a).balance == 0 {
      BalanceBelowTotal(l, a);
    }
  }

  class GenesisAllocator {
    const supply: TokenSupply
    const balances: BalanceManager
    const addresses: GenesisAddresses
    var executed: bool

    constructor (supply: TokenSupply, balances: BalanceManager, addresses: GenesisAddresses)
      ensures this.supply == supply && this.balances == balances && this.addresses == addresses && !executed
    {
      this.supply, this.balances, this.addresses, executed := supply, balances, addresses, false;
    }

    /** One of the genesis credits: within the supply already minted, it succeeds. */
    method Allot(a: Address, amount: U64) returns (r: Result<(), SupplyError>)
      requires Bounded(supply, balances)
      requires balances.storage.Contents().Total() + amount <= supply.totalSupply
      modifies balances`cache, balances.storage`balances
      ensures Bounded(supply, balances) && r.Ok?
      ensures balances.storage.Contents() == After(old(balances.storage.Contents()), Op.Credit(a, amount))
      ensures balances.storage.Contents().Total() == old(balances.storage.Contents()).Total() + amount
      ensures forall b :: balances.storage.Contents().Of(b).balance
                          == old(balances.storage.Contents()).Of(b).balance + if b == a then amount else 0
    {
      ghost var l := balances.storage.Contents();
      RoomMeansCredit(l, a, amount);
      StepAccounts(l, Op.Credit(a, amount));
      CreditExactly(l, a, amount);
      hide After, Step, Ledger.Total, Ledger.Of;
      var credited := balances.Credit(a, amount);
      match credited {
        case Err(e) => r := Err(CreditFailed(e));
        case Ok(_) => r := Ok(());
      }
    }

    /** The credits behind the treasury's, and the mint for the faucet. */
    method AllotRest(liquidity: U64, genesis: U64) returns (r: Result<(), SupplyError>)
      requires Bounded(supply, balances) && supply.totalSupply == GENESIS_SUPPLY
      requires balances.storage.Contents().Total() + liquidity + genesis <= GENESIS_SUPPLY
      modifies supply, balances`cache, balances.storage`balances
      ensures Bounded(supply, balances) && supply.genesisMinted == old(supply.genesisMinted) && r.Ok?
      ensures supply.totalSupply == GENESIS_SUPPLY + FAUCET_AMOUNT
      ensures balances.storage.Contents().Total()
           == old(balances.storage.Contents()).Total() + liquidity + genesis + FAUCET_AMOUNT
      ensures forall a :: balances.storage.Contents().Of(a).balance
                          == old(balances.storage.Contents()).Of(a).balance
                             + (if a == addresses.liquidity then liquidity else 0)
                             + (if a == addresses.genesisPool then genesis else 0)
                             + if a == addresses.faucet then FAUCET_AMOUNT else 0
    {
      hide After, Ledger.Total, Ledger.Of;
      r := Allot(addresses.liquidity, liquidity);
      r := Allot(addresses.genesisPool, genesis);
      r := supply.MintEmission(FAUCET_AMOUNT);
      r := Allot(addresses.faucet, FAUCET_AMOUNT);
    }

    method Distribute(treasury: U64, liquidity: U64, genesis: U64, multisigOk: bool)
        returns (r: Result<(), SupplyError>)
      requires Bounded(supply, balances) && supply.totalSupply == GENESIS_SUPPLY && !executed
      requires balances.storage.Contents().Total() == 0
      modifies this`executed, supply, balances`cache, balances.storage`balances
      ensures Bounded(supply, balances) && supply.genesisMinted == old(supply.genesisMinted)
      ensures r.Ok? <==> treasury + liquidity + genesis <= GENESIS_SUPPLY && multisigOk
      ensures executed == r.Ok?
      ensures supply.totalSupply == GENESIS_SUPPLY + if r.Ok? then FAUCET_AMOUNT else 0
      ensures balances.storage.Contents().Total()
           == if r.Ok? then treasury + liquidity + genesis + FAUCET_AMOUNT
              else if treasury + liquidity + genesis <= GENESIS_SUPPLY then treasury else 0
      ensures r.Ok? ==>
                forall a :: balances.storage.Contents().Of(a).balance
                            == (if a == addresses.treasury then treasury else 0)
                               + (if a == addresses.liquidity then liquidity else 0)
                               + (if a == addresses.genesisPool then genesis else 0)
                               + if a == addresses.faucet then FAUCET_AMOUNT else 0
      ensures r.Err? ==>
                forall a :: balances.storage.Contents().Of(a).balance
                            == if treasury + liquidity + genesis <= GENESIS_SUPPLY && a == addresses.treasury
                               then treasury else 0
      ensures r.Ok? ==> supply.circulatingSupply == treasury + liquidity + genesis
      ensures r.Err? ==> r.error == if treasury + liquidity + genesis >= U64_LIMIT then AllocationOverflow
                                    else if treasury + liquidity + genesis > GENESIS_SUPPLY then AllocationTooLarge
                                    else MultisigFailed
    {
      NothingHeld(balances.storage.Contents());
      hide After, Ledger.Total, Ledger.Of;
      if treasury + liquidity >= U64_LIMIT || treasury + liquidity + genesis >= U64_LIMIT {
        return Err(AllocationOverflow);
      }
      if treasury + liquidity + genesis > GENESIS_SUPPLY {
        return Err(AllocationTooLarge);
      }
      r := Allot(addresses.treasury, treasury);
      if !multisigOk {
        return Err(MultisigFailed);
      }
      r := AllotRest(liquidity, genesis);
      supply.circulatingSupply := treasury + liquidity + genesis;
      executed := true;
    }

    /** `allocate_genesis`, for shares computed elsewhere. The mint stands even when a later check refuses:
        an oversized allocation or a failed multisig leaves the supply minted and the allocator not executed. */
    method AllocateGenesis(treasury: U64, liquidity: U64, genesis: U64, multisigOk: bool)
        returns (r: Result<(), SupplyError>)
      requires Bounded(supply, balances)
      modifies this, supply, balances`cache, balances.storage`balances
      ensures Bounded(supply, balances)
      ensures r.Ok? <==> !old(executed) && old(supply.totalSupply) == 0
                         && treasury + liquidity + genesis <= GENESIS_SUPPLY && multisigOk
      ensures executed == (old(executed) || r.Ok?)
      ensures r.Ok? ==>
                supply.totalSupply == GENESIS_SUPPLY + FAUCET_AMOUNT
                && balances.storage.Contents().Total() == treasury + liquidity + genesis + FAUCET_AMOUNT
      ensures !old(executed) && old(supply.totalSupply) == 0 && r.Err? ==>
                supply.totalSupply == GENESIS_SUPPLY
                && balances.storage.Contents().Total()
                   == if treasury + liquidity + genesis <= GENESIS_SUPPLY then treasury else 0
      ensures r.Ok? ==>
                forall a :: balances.storage.Contents().Of(a).balance
                            == (if a == addresses.treasury then treasury else 0)
                               + (if a == addresses.liquidity then liquidity else 0)
                               + (if a == addresses.genesisPool then genesis else 0)
                               + if a == addresses.faucet then FAUCET_AMOUNT else 0
      ensures !old(executed) && old(supply.totalSupply) == 0 && r.Err? ==>
                forall a :: balances.storage.Contents().Of(a).balance
                            == if treasury + liquidity + genesis <= GENESIS_SUPPLY && a == addresses.treasury
                               then treasury else 0
      ensures r.Ok? ==> supply.circulatingSupply == treasury + liquidity + genesis
      ensures r.Err? ==> r.error == if old(executed) then GenesisAlreadyExecuted
                                    else if old(supply.totalSupply) != 0 then GenesisAlreadyMinted
                                    else if treasury + liquidity + genesis >= U64_LIMIT then AllocationOverflow
                                    else if treasury + liquidity + genesis > GENESIS_SUPPLY then AllocationTooLarge
                                    else MultisigFailed
      ensures old(executed) || old(supply.totalSupply) != 0 ==>
                supply.totalSupply == old(supply.totalSupply)
                    && balances.storage.Contents() == old(balances.storage.Contents())
      ensures supply.genesisMinted == (old(supply.genesisMinted) || (!old(executed) && old(supply.totalSupply) == 0))
    {
      hide After, Ledger.Total, Ledger.Of;
      if executed {
        return Err(GenesisAlreadyExecuted);
      }
      if supply.totalSupply == 0 {
        EmptyWhenUnminted(supply, balances);
      }
      var minted := supply.MintGenesis(GENESIS_SUPPLY);
      if minted.Err? {
        return Err(minted.error);
      }
      r := Distribute(treasury, liquidity, genesis, multisigOk);
    }
  }

  // ----- whole runs

  datatype Event =
    | Genesis(treasury: U64, liquidity: U64, genesis: U64, multisigOk: bool)
    | Emission(recipient: Address, amount: U64, now: int)
    | Account(op: Op)

  /** Each time is at least a minute after the one before it, the first after `start`. */
  ghost predicate Spaced(start: int, times: seq<int>) {
    (times != [] ==> times[0] - start >= 60) && forall i :: 1 <= i < |times| ==> times[i] - times[i - 1] >= 60
  }

  ghost function Latest(start: int, times: seq<int>): int {
    if times == [] then start else times[|times| - 1]
  }

  lemma NoTimes(start: int)
    ensures Spaced(start, []) && Latest(start, []) == start
  {
  }

  lemma SpacedStep(start: int, times: seq<int>, now: int)
    requires Spaced(start, times) && now - Latest(start, times) >= 60
    ensures Spaced(start, times + [now]) && Latest(start, times + [now]) == now
  {
  }

  /** Runs in which every credit follows a mint never hold more than was minted, nor mint past the cap, and emit at most
      once a minute. */
  method RunEconomy(allocator: GenesisAllocator, controller: EmissionController, events: seq<Event>)
      returns (emissions: seq<int>)
    requires allocator.supply == controller.supply && allocator.balances == controller.balances
    requires Bounded(controller.supply, controller.balances)
    requires forall i :: 0 <= i < |events| ==> events[i].Account? ==> !events[i].op.Credit?
    modifies allocator, controller, controller.supply, controller.balances`cache, controller.balances.storage
    ensures Bounded(controller.supply, controller.balances)
    ensures old(controller.supply.genesisMinted) ==> controller.supply.genesisMinted
    ensures controller.supply.totalSupply >= old(controller.supply.totalSupply)
    ensures Spaced(old(controller.lastEmission), emissions)
            && controller.lastEmission == Latest(old(controller.lastEmission), emissions)
  {
    hide Spaced, Latest;
    var supply, balances := controller.supply, controller.balances;
    ghost var start := controller.lastEmission;
    emissions := [];
    NoTimes(start);
    for i := 0 to |events|
      invariant Bounded(supply, balances)
      invariant old(supply.genesisMinted) ==> supply.genesisMinted
      invariant supply.totalSupply >= old(supply.totalSupply)
      invariant Spaced(start, emissions) && controller.lastEmission == Latest(start, emissions)
    {
      match events[i]
      case Genesis(t, l, g, ok) =>
        var _ := allocator.AllocateGenesis(t, l, g, ok);
      case Emission(recipient, amount, now) =>
        var emitted := controller.ProcessEmission(recipient, amount, now);
        if emitted.Ok? {
          SpacedStep(start, emissions, now);
          emissions := emissions + [now];
        }
      case Account(op) =>
        OthersKeepTotal(balances.storage.Contents(), op);
        Replay(balances, [op]);
        assert [op][..0] == [] && Run(old(balances.storage.Contents()), []) == old(balances.storage.Contents());
    }
  }
}
