/** The fixed-supply Token ledger: one million units are created for the
    deployer, who is the owner, and any holder may transfer what it holds. */
module Token {
  import opened Accounts

  /** The supply minted at deployment; it never changes. */
  const TOTAL_SUPPLY: nat := 1_000_000

  datatype Error = NotEnoughTokens

  datatype Outcome = Success | Revert(error: Error)

  /** The event a successful transfer emits. */
  datatype Event = Transfer(from: Address, to: Address, amount: nat)

  class Token {
    const owner: Address
    const totalSupply: nat
    var balances: map<Address, nat>
    var log: seq<Event>

    /** The balances add up to the fixed supply. */
    ghost predicate Valid()
      reads this
    {
      totalSupply == TOTAL_SUPPLY && Sum(balances) == totalSupply
    }

    function BalanceOf(a: Address): nat
      reads this
    {
      Get(balances, a)
    }

    constructor (deployer: Address)
      ensures Valid()
      ensures owner == deployer && totalSupply == TOTAL_SUPPLY
      ensures BalanceOf(deployer) == totalSupply
      ensures forall a :: a != deployer ==> BalanceOf(a) == 0
      ensures log == []
    {
      owner := deployer;
      totalSupply := TOTAL_SUPPLY;
      balances := map[deployer := TOTAL_SUPPLY];
      log := [];
      new;
      SumRemove(balances, deployer);
      assert balances - {deployer} == map[];
    }

    /** Moves exactly `amount` units from the caller to `to`. */
    method Transfer(caller: Address, to: Address, amount: nat) returns (r: Outcome)
      requires Valid()
      modifies this
      ensures Valid()
      ensures r == (if old(BalanceOf(caller)) < amount then Revert(NotEnoughTokens) else Success)
      ensures r.Success? ==>
        && balances == Credit(Debit(old(balances), caller, amount), to, amount)
        && log == old(log) + [Event.Transfer(caller, to, amount)]
      ensures r.Success? && caller != to ==>
        && BalanceOf(caller) == old(BalanceOf(caller)) - amount
        && BalanceOf(to) == old(BalanceOf(to)) + amount
      ensures forall a :: a != caller && a != to ==> BalanceOf(a) == old(BalanceOf(a))
      ensures r.Revert? ==> unchanged(this)
    {
      if BalanceOf(caller) < amount {
        return Revert(NotEnoughTokens);
      }
      balances := Credit(Debit(balances, caller, amount), to, amount);
      log := log + [Event.Transfer(caller, to, amount)];
      r := Success;
    }
  }

  /** The test suite's scenarios, each on a fresh deployment as its fixture
      gives: owner 1, addr1 2, addr2 3. */
  method TransactionsScenario()
  {
    var owner, addr1, addr2 := 1, 2, 3;

    var t := new Token(owner);
    assert t.totalSupply == 1_000_000 && t.owner == owner;
    assert t.BalanceOf(owner) == t.totalSupply;

    var r := t.Transfer(owner, addr1, 30);
    assert t.BalanceOf(owner) == 1_000_000 - 30 && t.BalanceOf(addr1) == 30;
    r := t.Transfer(owner, addr2, 10);
    r := t.Transfer(addr1, addr2, 30);
    assert t.BalanceOf(addr1) == 0 && t.BalanceOf(addr2) == 40;

    t := new Token(owner);
    r := t.Transfer(owner, addr1, 50);
    assert t.log == [Event.Transfer(owner, addr1, 50)];

    t := new Token(owner);
    var initialOwnerBalance := t.BalanceOf(owner);
    r := t.Transfer(addr1, owner, 1);
    assert r == Revert(NotEnoughTokens);
    assert t.BalanceOf(owner) == initialOwnerBalance;
  }
}
