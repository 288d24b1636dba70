/** The CampusCoin test suite's scenario, replayed against the ledger's
    contracts: one deployment shared by every step, as the suite shares it.
    Accounts: admin 1, university 2, two students 3 and 4, a provider 5 and
    a spender 6. */
module CampusCoinSuite {
  import opened Accounts
  import opened CampusCoin

  const ADMIN: Address := 1
  const UNIVERSITY: Address := 2
  const STUDENT1: Address := 3
  const STUDENT2: Address := 4
  const PROVIDER: Address := 5
  const SPENDER: Address := 6

  method DeploymentScenario(initialSupply: nat)
  {
    assert NAME == "CampusCoin" && SYMBOL == "CC";

    var r, none := Ledger.Deploy(ADMIN, ZERO, initialSupply);
    assert r == Revert(ZeroUniversity) && none == null;

    var ok, c := Ledger.Deploy(ADMIN, UNIVERSITY, initialSupply);
    assert ok == Success;
    assert c.BalanceOf(ADMIN) == c.totalSupply;
    assert c.university == UNIVERSITY && c.admin == ADMIN;
  }

  method StudentsAndMintingScenario(c: Ledger)
    requires c.Valid() && c.admin == ADMIN && c.university == UNIVERSITY
    requires c.BalanceOf(STUDENT1) == 0 && STUDENT1 !in c.students && PROVIDER !in c.students
    modifies c
    ensures c.Valid() && c.students == old(c.students) + {STUDENT1} && c.providers == old(c.providers)
    ensures forall a :: a != STUDENT1 ==> c.BalanceOf(a) == old(c.BalanceOf(a))
  {
    var r := c.AddStudent(ADMIN, STUDENT1);
    assert r == Success && c.log[|c.log| - 1] == StudentAdded(STUDENT1);
    assert c.IsStudent(STUDENT1);
    r := c.RemoveStudent(ADMIN, STUDENT1);
    assert r == Success && c.log[|c.log| - 1] == StudentRemoved(STUDENT1);
    assert !c.IsStudent(STUDENT1);

    r := c.AddStudent(STUDENT1, STUDENT1);
    assert r == Revert(OnlyAdmin);
    r := c.RemoveStudent(STUDENT1, STUDENT1);
    assert r == Revert(OnlyAdmin);

    MintingScenario(c);
  }

  method MintingScenario(c: Ledger)
    requires c.Valid() && c.admin == ADMIN
    requires c.BalanceOf(STUDENT1) == 0 && STUDENT1 !in c.students && PROVIDER !in c.students
    modifies c
    ensures c.Valid() && c.students == old(c.students) + {STUDENT1} && c.providers == old(c.providers)
    ensures forall a :: a != STUDENT1 ==> c.BalanceOf(a) == old(c.BalanceOf(a))
  {
    var r := c.AddStudent(ADMIN, STUDENT1);
    assert c.IsStudent(STUDENT1);
    r := c.Mint(ADMIN, STUDENT1, 100);
    assert r == Success && c.log[|c.log| - 1] == TokensMinted(STUDENT1, 100);
    assert c.BalanceOf(STUDENT1) == 100;

    r := c.Mint(ADMIN, PROVIDER, 50);
    assert r == Revert(MintToNonStudent);
    r := c.Mint(STUDENT1, STUDENT1, 1);
    assert r == Revert(OnlyAdmin);

    r := c.Burn(STUDENT1, 50);
    assert c.BalanceOf(STUDENT1) == 50;
  }

  method TransfersScenario(c: Ledger)
    requires c.Valid() && c.admin == ADMIN && c.university == UNIVERSITY
    requires PROVIDER !in c.students && c.BalanceOf(STUDENT2) == 0
    modifies c
    ensures c.Valid() && c.students == old(c.students) + {STUDENT1, STUDENT2} && c.providers == old(c.providers)
    ensures c.BalanceOf(PROVIDER) == old(c.BalanceOf(PROVIDER))
    ensures c.BalanceOf(UNIVERSITY) == old(c.BalanceOf(UNIVERSITY))
  {
    var r := c.AddStudent(ADMIN, STUDENT1);
    r := c.AddStudent(ADMIN, STUDENT2);
    TransferBetweenStudentsScenario(c);
    TransferToNonStudentScenario(c);
    TransferFromScenario(c);
  }

  method TransferBetweenStudentsScenario(c: Ledger)
    requires c.Valid() && c.admin == ADMIN
    requires STUDENT1 in c.students && STUDENT2 in c.students && c.BalanceOf(STUDENT2) == 0
    modifies c
    ensures c.Valid() && c.students == old(c.students) && c.providers == old(c.providers)
    ensures c.BalanceOf(PROVIDER) == old(c.BalanceOf(PROVIDER))
    ensures c.BalanceOf(UNIVERSITY) == old(c.BalanceOf(UNIVERSITY))
  {
    var r := c.Mint(ADMIN, STUDENT1, 100);
    assert c.BalanceOf(STUDENT1) >= 100;

    r := c.Mint(ADMIN, STUDENT1, 20);
    c.Approve(STUDENT1, SPENDER, 15);
    r := c.Transfer(STUDENT1, STUDENT2, 10);
    assert c.BalanceOf(STUDENT2) == 10;
  }

  method TransferToNonStudentScenario(c: Ledger)
    requires c.Valid() && c.admin == ADMIN
    requires STUDENT1 in c.students && PROVIDER !in c.students
    modifies c
    ensures c.Valid() && c.students == old(c.students) && c.providers == old(c.providers)
    ensures c.BalanceOf(PROVIDER) == old(c.BalanceOf(PROVIDER))
    ensures c.BalanceOf(UNIVERSITY) == old(c.BalanceOf(UNIVERSITY))
  {
    var r := c.Mint(ADMIN, STUDENT1, 20);
    c.Approve(STUDENT1, SPENDER, 15);
    r := c.Transfer(STUDENT1, PROVIDER, 10);
    assert r == Revert(RecipientNotStudent);
  }

  method TransferFromScenario(c: Ledger)
    requires c.Valid() && c.admin == ADMIN
    requires STUDENT1 in c.students && STUDENT2 in c.students && PROVIDER !in c.students
    modifies c
    ensures c.Valid() && c.students == old(c.students) && c.providers == old(c.providers)
    ensures c.BalanceOf(PROVIDER) == old(c.BalanceOf(PROVIDER))
    ensures c.BalanceOf(UNIVERSITY) == old(c.BalanceOf(UNIVERSITY))
  {
    var r := c.Mint(ADMIN, STUDENT1, 20);
    c.Approve(STUDENT1, SPENDER, 15);
    var beforeFrom, beforeTo := c.BalanceOf(STUDENT1), c.BalanceOf(STUDENT2);
    assert beforeFrom >= 20;
    r := c.TransferFrom(SPENDER, STUDENT1, STUDENT2, 10);
    assert r == Success;
    assert c.BalanceOf(STUDENT1) == beforeFrom - 10 && c.BalanceOf(STUDENT2) == beforeTo + 10;
    assert c.Allowance(STUDENT1, SPENDER) == 5;

    r := c.Mint(ADMIN, STUDENT1, 20);
    c.Approve(STUDENT1, SPENDER, 15);
    r := c.TransferFrom(SPENDER, STUDENT1, PROVIDER, 1);
    assert r == Revert(RecipientNotStudent);
  }

  method ProvidersScenario(c: Ledger)
    requires c.Valid() && c.admin == ADMIN
    requires STUDENT1 !in c.providers
    modifies c
    ensures c.Valid() && c.students == old(c.students) && c.balances == old(c.balances)
  {
    var r := c.AddServiceProvider(ADMIN, PROVIDER, "Coffee Shop", "Food");
    assert r == Success && c.log[|c.log| - 1] == ServiceProviderAdded(PROVIDER, "Coffee Shop", "Food");
    assert c.ServiceProviders(PROVIDER) == Provider("Coffee Shop", "Food", true);
    r := c.RemoveServiceProvider(ADMIN, PROVIDER);
    assert r == Success && c.log[|c.log| - 1] == ServiceProviderRemoved(PROVIDER);
    assert !c.ServiceProviders(PROVIDER).active;

    r := c.AddServiceProvider(ADMIN, PROVIDER, "Cafe", "Food");
    r := c.UpdateServiceProvider(ADMIN, PROVIDER, "Bookstore", "Retail", true);
    assert r == Success && c.log[|c.log| - 1] == ServiceProviderUpdated(PROVIDER, "Bookstore", "Retail", true);
    assert c.ServiceProviders(PROVIDER) == Provider("Bookstore", "Retail", true);

    r := c.UpdateServiceProvider(ADMIN, STUDENT1, "New", "Cat", true);
    assert r == Revert(ProviderNotFound);

    r := c.AddServiceProvider(STUDENT1, PROVIDER, "X", "Y");
    assert r == Revert(OnlyAdmin);
    r := c.RemoveServiceProvider(STUDENT1, PROVIDER);
    assert r == Revert(OnlyAdmin);
    r := c.UpdateServiceProvider(STUDENT1, PROVIDER, "N", "C", true);
    assert r == Revert(OnlyAdmin);
  }

  method PaymentsScenario(c: Ledger)
    requires c.Valid() && c.admin == ADMIN && c.university == UNIVERSITY
    requires c.BalanceOf(PROVIDER) == 0 && c.BalanceOf(UNIVERSITY) == 0
    requires PROVIDER !in c.students
    modifies c
  {
    var r := c.AddStudent(ADMIN, STUDENT1);
    r := c.Mint(ADMIN, STUDENT1, 100);
    r := c.AddServiceProvider(ADMIN, PROVIDER, "Gym", "Fitness");

    var spentBefore := c.TotalSpentOf(STUDENT1);
    r := c.PayService(STUDENT1, PROVIDER, 1);
    assert r == Success;
    assert c.BalanceOf(PROVIDER) == 1 && c.BalanceOf(UNIVERSITY) == 0;
    assert c.TotalSpentOf(STUDENT1) == spentBefore + 1;

    var spentAfterFirst := c.TotalSpentOf(STUDENT1);
    r := c.PayService(STUDENT1, PROVIDER, 1);
    assert c.TotalSpentOf(STUDENT1) == spentAfterFirst + 1;

    r := c.PayService(PROVIDER, PROVIDER, 10);
    assert r == Revert(PayerNotStudent);

    r := c.RemoveServiceProvider(ADMIN, PROVIDER);
    r := c.PayService(STUDENT1, PROVIDER, 10);
    assert r == Revert(InactiveProvider);
  }

  /** The whole suite in its order, on one deployment. */
  method SuiteScenario(initialSupply: nat)
  {
    DeploymentScenario(initialSupply);
    var _, c := Ledger.Deploy(ADMIN, UNIVERSITY, initialSupply);
    StudentsAndMintingScenario(c);
    TransfersScenario(c);
    ProvidersScenario(c);
    PaymentsScenario(c);
  }
}
