/** The CampusCoin permissioned ledger: a single administrator manages a set of
    student accounts and a registry of service providers; value moves only to
    students (transfer, delegated transfer, mint) or, through a payment that
    pays a 1% fee to the university treasury, to an active provider. */
module CampusCoin {
  import opened Accounts
  import opened Wrappers

  const NAME: string := "CampusCoin"
  const SYMBOL: string := "CC"

  /** Why a transaction reverted. */
  datatype Error =
    | OnlyAdmin              // a privileged operation called by someone other than the admin
    | ZeroUniversity         // deployment with the zero treasury address
    | MintToNonStudent       // mint to an account that is not a student
    | RecipientNotStudent    // transfer or transferFrom to an account that is not a student
    | ProviderNotFound       // update (and, by choice, remove) of a provider never added
    | PayerNotStudent        // payService called by an account that is not a student
    | InactiveProvider       // payService to a provider that is unknown or deactivated
    | InsufficientBalance    // a debit larger than the balance (a modelling choice)
    | InsufficientAllowance  // transferFrom above the allowance (a modelling choice)

  /** The revert string the contract reports, where one is pinned down. */
  function RevertReason(e: Error): Option<string>
  {
    match e
    case OnlyAdmin => Some("Only admin can call this")
    case ZeroUniversity => Some("university address cannot be zero")
    case MintToNonStudent => Some("Can only mint to registered students")
    case RecipientNotStudent => Some("Recipient must be a registered student")
    case ProviderNotFound => Some("Provider not found")
    case PayerNotStudent => Some("Only registered students can pay")
    case InactiveProvider => Some("Recipient must be an active service provider")
    case InsufficientBalance => None
    case InsufficientAllowance => None
  }

  /** A revert string names one error only, so a test expecting a string
      tells the errors apart. */
  lemma RevertReasonIdentifiesError(e: Error, f: Error)
    requires RevertReason(e).Some? && RevertReason(e) == RevertReason(f)
    ensures e == f
  {
  }

  /** The result of one transaction: it commits everything or nothing. */
  datatype Outcome = Success | Revert(error: Error)

  /** A service provider's profile. */
  datatype Provider = Provider(name: string, category: string, active: bool)

  /** What an unknown account reads as in the provider registry. */
  const UNKNOWN_PROVIDER := Provider("", "", false)

  /** The notifications a successful transaction appends to the log. */
  datatype Event =
    | StudentAdded(student: Address)
    | StudentRemoved(student: Address)
    | TokensMinted(student: Address, amount: nat)
    | ServiceProviderAdded(provider: Address, name: string, category: string)
    | ServiceProviderRemoved(provider: Address)
    | ServiceProviderUpdated(provider: Address, name: string, category: string, active: bool)

  /** Everything a transaction may change, except the event log. */
  datatype LedgerState = LedgerState(
    totalSupply: nat,
    balances: map<Address, nat>,
    allowances: map<(Address, Address), nat>,
    students: set<Address>,
    providers: map<Address, Provider>,
    totalSpent: map<Address, nat>)

  /** The part of a service payment that goes to the treasury: 1%, rounded down. */
  function TreasuryFee(amount: nat): (fee: nat)
    ensures 100 * fee <= amount < 100 * (fee + 1)
  {
    amount / 100
  }

  /** The part of a service payment that goes to the provider: the rest. */
  function ProviderShare(amount: nat): (share: nat)
    ensures share + TreasuryFee(amount) == amount
    ensures 99 * amount <= 100 * share
  {
    amount - TreasuryFee(amount)
  }

  /** Below 100 units the fee rounds down to nothing and the provider gets all. */
  lemma SmallPaymentHasNoFee(amount: nat)
    requires amount < 100
    ensures TreasuryFee(amount) == 0 && ProviderShare(amount) == amount
  {
  }

  class Ledger {
    const admin: Address
    const university: Address
    var totalSupply: nat
    var balances: map<Address, nat>
    /** allowances[(owner, spender)] is what spender may move out of owner's account. */
    var allowances: map<(Address, Address), nat>
    var students: set<Address>
    var providers: map<Address, Provider>
    var totalSpent: map<Address, nat>
    var log: seq<Event>

    /** The treasury is never the zero address and the balances add up to
        the total supply. */
    ghost predicate Valid()
      reads this
    {
      university != ZERO && Sum(balances) == totalSupply
    }

    ghost function State(): LedgerState
      reads this
    {
      LedgerState(totalSupply, balances, allowances, students, providers, totalSpent)
    }

    function BalanceOf(a: Address): nat
      reads this
    {
      Get(balances, a)
    }

    function Allowance(owner: Address, spender: Address): nat
      reads this
    {
      if (owner, spender) in allowances then allowances[(owner, spender)] else 0
    }

    function IsStudent(a: Address): bool
      reads this
    {
      a in students
    }

    function ServiceProviders(a: Address): Provider
      reads this
    {
      if a in providers then providers[a] else UNKNOWN_PROVIDER
    }

    function TotalSpentOf(a: Address): nat
      reads this
    {
      Get(totalSpent, a)
    }

    constructor (deployer: Address, treasury: Address, initialSupply: nat)
      requires treasury != ZERO
      ensures Valid()
      ensures admin == deployer && university == treasury
      ensures totalSupply == initialSupply && balances == map[deployer := initialSupply]
      ensures allowances == map[] && students == {} && providers == map[] && totalSpent == map[]
      ensures log == []
    {
      admin := deployer;
      university := treasury;
      totalSupply := initialSupply;
      balances := map[deployer := initialSupply];
      allowances := map[];
      students := {};
      providers := map[];
      totalSpent := map[];
      log := [];
      new;
      SumRemove(balances, deployer);
      assert balances - {deployer} == map[];
    }

    /** Deployment: reverts on the zero treasury; otherwise the deployer is the
        admin and holds the whole supply. */
    static method Deploy(deployer: Address, treasury: Address, initialSupply: nat)
      returns (r: Outcome, ledger: Ledger?)
      ensures r == (if treasury == ZERO then Revert(ZeroUniversity) else Success)
      ensures r.Revert? <==> ledger == null
      ensures ledger != null ==>
        && fresh(ledger) && ledger.Valid()
        && ledger.admin == deployer && ledger.university == treasury
        && ledger.totalSupply == initialSupply
        && ledger.BalanceOf(deployer) == ledger.totalSupply
        && (forall a :: a != deployer ==> ledger.BalanceOf(a) == 0)
        && ledger.students == {} && ledger.providers == map[]
        && ledger.allowances == map[] && ledger.totalSpent == map[] && ledger.log == []
    {
      if treasury == ZERO {
        r, ledger := Revert(ZeroUniversity), null;
      } else {
        ledger := new Ledger(deployer, treasury, initialSupply);
        r := Success;
      }
    }

    method AddStudent(caller: Address, student: Address) returns (r: Outcome)
      requires Valid()
      modifies this
      ensures Valid()
      ensures r == (if caller == admin then Success else Revert(OnlyAdmin))
      ensures r.Success? ==>
        && State() == old(State()).(students := old(students) + {student})
        && log == old(log) + [StudentAdded(student)]
      ensures r.Revert? ==> unchanged(this)
    {
      if caller != admin {
        return Revert(OnlyAdmin);
      }
      students := students + {student};
      log := log + [StudentAdded(student)];
      r := Success;
    }

    method RemoveStudent(caller: Address, student: Address) returns (r: Outcome)
      requires Valid()
      modifies this
      ensures Valid()
      ensures r == (if caller == admin then Success else Revert(OnlyAdmin))
      ensures r.Success? ==>
        && State() == old(State()).(students := old(students) - {student})
        && log == old(log) + [StudentRemoved(student)]
      ensures r.Revert? ==> unchanged(this)
    {
      if caller != admin {
        return Revert(OnlyAdmin);
      }
      students := students - {student};
      log := log + [StudentRemoved(student)];
      r := Success;
    }

    /** Admin creates `amount` new units on a student's account. */
    method Mint(caller: Address, student: Address, amount: nat) returns (r: Outcome)
      requires Valid()
      modifies this
      ensures Valid()
      ensures r == (if caller != admin then Revert(OnlyAdmin)
                    else if student !in old(students) then Revert(MintToNonStudent)
                    else Success)
      ensures r.Success? ==>
        && State() == old(State()).(totalSupply := old(totalSupply) + amount,
                                    balances := Credit(old(balances), student, amount))
        && BalanceOf(student) == old(BalanceOf(student)) + amount
        && log == old(log) + [TokensMinted(student, amount)]
      ensures r.Revert? ==> unchanged(this)
    {
      if caller != admin {
        return Revert(OnlyAdmin);
      }
      if student !in students {
        return Revert(MintToNonStudent);
      }
      balances := Credit(balances, student, amount);
      totalSupply := totalSupply + amount;
      log := log + [TokensMinted(student, amount)];
      r := Success;
    }

    /** Any holder destroys `amount` of its own units. */
    method Burn(caller: Address, amount: nat) returns (r: Outcome)
      requires Valid()
      modifies this
      ensures Valid()
      ensures r == (if amount <= old(BalanceOf(caller)) then Success else Revert(InsufficientBalance))
      ensures r.Success? ==>
        && State() == old(State()).(totalSupply := old(totalSupply) - amount,
                                    balances := Debit(old(balances), caller, amount))
        && BalanceOf(caller) == old(BalanceOf(caller)) - amount
        && log == old(log)
      ensures r.Revert? ==> unchanged(this)
    {
      if BalanceOf(caller) < amount {
        return Revert(InsufficientBalance);
      }
      balances := Debit(balances, caller, amount);
      totalSupply := totalSupply - amount;
      r := Success;
    }

    /** Only the recipient's membership is checked, not the sender's. */
    method Transfer(caller: Address, to: Address, amount: nat) returns (r: Outcome)
      requires Valid()
      modifies this
      ensures Valid()
      ensures r == (if to !in old(students) then Revert(RecipientNotStudent)
                    else if old(BalanceOf(caller)) < amount then Revert(InsufficientBalance)
                    else Success)
      ensures r.Success? ==>
        && State() == old(State()).(balances := Credit(Debit(old(balances), caller, amount), to, amount))
        && (caller != to ==>
              BalanceOf(caller) == old(BalanceOf(caller)) - amount &&
              BalanceOf(to) == old(BalanceOf(to)) + amount)
        && log == old(log)
      ensures r.Revert? ==> unchanged(this)
    {
      if to !in students {
        return Revert(RecipientNotStudent);
      }
      if BalanceOf(caller) < amount {
        return Revert(InsufficientBalance);
      }
      balances := Credit(Debit(balances, caller, amount), to, amount);
      r := Success;
    }

    /** Sets, not adds to, what `spender` may move out of the caller's account. */
    method Approve(caller: Address, spender: Address, amount: nat)
      requires Valid()
      modifies this
      ensures Valid()
      ensures State() == old(State()).(allowances := old(allowances)[(caller, spender) := amount])
      ensures Allowance(caller, spender) == amount
      ensures log == old(log)
    {
      allowances := allowances[(caller, spender) := amount];
    }

    /** The caller moves `amount` out of `from`'s account under an allowance,
        which decreases by the amount moved. */
    method TransferFrom(caller: Address, from: Address, to: Address, amount: nat) returns (r: Outcome)
      requires Valid()
      modifies this
      ensures Valid()
      ensures r == (if to !in old(students) then Revert(RecipientNotStudent)
                    else if old(Allowance(from, caller)) < amount then Revert(InsufficientAllowance)
                    else if old(BalanceOf(from)) < amount then Revert(InsufficientBalance)
                    else Success)
      ensures r.Success? ==>
        && State() == old(State()).(
             balances := Credit(Debit(old(balances), from, amount), to, amount),
             allowances := old(allowances)[(from, caller) := old(Allowance(from, caller)) - amount])
        && (from != to ==>
              BalanceOf(from) == old(BalanceOf(from)) - amount &&
              BalanceOf(to) == old(BalanceOf(to)) + amount)
        && Allowance(from, caller) == old(Allowance(from, caller)) - amount
        && log == old(log)
      ensures r.Revert? ==> unchanged(this)
    {
      if to !in students {
        return Revert(RecipientNotStudent);
      }
      var allowed := Allowance(from, caller);
      if allowed < amount {
        return Revert(InsufficientAllowance);
      }
      if BalanceOf(from) < amount {
        return Revert(InsufficientBalance);
      }
      balances := Credit(Debit(balances, from, amount), to, amount);
      allowances := allowances[(from, caller) := allowed - amount];
      r := Success;
    }

    /** Creates or overwrites a provider's profile, active. */
    method AddServiceProvider(caller: Address, provider: Address, name: string, category: string)
      returns (r: Outcome)
      requires Valid()
      modifies this
      ensures Valid()
      ensures r == (if caller == admin then Success else Revert(OnlyAdmin))
      ensures r.Success? ==>
        && State() == old(State()).(providers := old(providers)[provider := Provider(name, category, true)])
        && log == old(log) + [ServiceProviderAdded(provider, name, category)]
      ensures r.Revert? ==> unchanged(this)
    {
      if caller != admin {
        return Revert(OnlyAdmin);
      }
      providers := providers[provider := Provider(name, category, true)];
      log := log + [ServiceProviderAdded(provider, name, category)];
      r := Success;
    }

    /** Deactivates a provider, keeping its name and category. */
    method RemoveServiceProvider(caller: Address, provider: Address) returns (r: Outcome)
      requires Valid()
      modifies this
      ensures Valid()
      ensures r == (if caller != admin then Revert(OnlyAdmin)
                    else if provider !in old(providers) then Revert(ProviderNotFound)
                    else Success)
      ensures r.Success? ==>
        && State() == old(State()).(providers := old(providers)[provider := old(providers)[provider].(active := false)])
        && log == old(log) + [ServiceProviderRemoved(provider)]
      ensures r.Revert? ==> unchanged(this)
    {
      if caller != admin {
        return Revert(OnlyAdmin);
      }
      if provider !in providers {
        return Revert(ProviderNotFound);
      }
      providers := providers[provider := providers[provider].(active := false)];
      log := log + [ServiceProviderRemoved(provider)];
      r := Success;
    }

    /** Overwrites every field of an existing provider's profile. */
    method UpdateServiceProvider(caller: Address, provider: Address, name: string, category: string, active: bool)
      returns (r: Outcome)
      requires Valid()
      modifies this
      ensures Valid()
      ensures r == (if caller != admin then Revert(OnlyAdmin)
                    else if provider !in old(providers) then Revert(ProviderNotFound)
                    else Success)
      ensures r.Success? ==>
        && State() == old(State()).(providers := old(providers)[provider := Provider(name, category, active)])
        && log == old(log) + [ServiceProviderUpdated(provider, name, category, active)]
      ensures r.Revert? ==> unchanged(this)
    {
      if caller != admin {
        return Revert(OnlyAdmin);
      }
      if provider !in providers {
        return Revert(ProviderNotFound);
      }
      providers := providers[provider := Provider(name, category, active)];
      log := log + [ServiceProviderUpdated(provider, name, category, active)];
      r := Success;
    }

    /** A student pays an active provider: the treasury gets the fee, the
        provider the rest, and the student's running total grows by the
        whole amount. */
    method PayService(caller: Address, provider: Address, amount: nat) returns (r: Outcome)
      requires Valid()
      modifies this
      ensures Valid()
      ensures r == (if caller !in old(students) then Revert(PayerNotStudent)
                    else if !old(ServiceProviders(provider)).active then Revert(InactiveProvider)
                    else if old(BalanceOf(caller)) < amount then Revert(InsufficientBalance)
                    else Success)
      ensures r.Success? ==>
        && State() == old(State()).(
             balances := Credit(Credit(Debit(old(balances), caller, amount), provider, ProviderShare(amount)),
                                university, TreasuryFee(amount)),
             totalSpent := Credit(old(totalSpent), caller, amount))
        && TotalSpentOf(caller) == old(TotalSpentOf(caller)) + amount
        && log == old(log)
      ensures r.Success? && caller != provider && caller != university && provider != university ==>
        && BalanceOf(caller) == old(BalanceOf(caller)) - amount
        && BalanceOf(provider) == old(BalanceOf(provider)) + ProviderShare(amount)
        && BalanceOf(university) == old(BalanceOf(university)) + TreasuryFee(amount)
      ensures r.Revert? ==> unchanged(this)
    {
      if caller !in students {
        return Revert(PayerNotStudent);
      }
      if !ServiceProviders(provider).active {
        return Revert(InactiveProvider);
      }
      if BalanceOf(caller) < amount {
        return Revert(InsufficientBalance);
      }
      var fee := TreasuryFee(amount);
      balances := Credit(Credit(Debit(balances, caller, amount), provider, amount - fee), university, fee);
      totalSpent := Credit(totalSpent, caller, amount);
      r := Success;
    }
  }
}
