/** Balance maps shared by the two ledgers: an account that is not in a map
    holds zero, and the sum of a map is what conservation is stated against. */
module Accounts {

  /** An account key. The zero address is 0. */
  type Address = nat

  const ZERO: Address := 0

  /** The balance recorded for `a`, zero when `a` was never credited. */
  function Get(m: map<Address, nat>, a: Address): nat
  {
    if a in m then m[a] else 0
  }

  /** The sum of every balance in `m`. */
  ghost function Sum(m: map<Address, nat>): nat
    decreases |m|
  {
    if m == map[] then 0
    else
      assert exists k :: k in m by {
        var k :| k in m.Keys;
      }
      var k :| k in m;
      m[k] + Sum(m - {k})
  }

  /** Whichever key the sum picks first, it can be split off. */
  lemma {:induction false} SumRemove(m: map<Address, nat>, k: Address)
    requires k in m
    ensures Sum(m) == m[k] + Sum(m - {k})
    decreases |m|
  {
    var j :| j in m && Sum(m) == m[j] + Sum(m - {j});
    if j != k {
      SumRemove(m - {j}, k);
      SumRemove(m - {k}, j);
      assert m - {j} - {k} == m - {k} - {j};
    }
  }

  /** Setting one entry changes the sum by the difference of the entries. */
  lemma SumUpdate(m: map<Address, nat>, a: Address, v: nat)
    ensures Sum(m[a := v]) + Get(m, a) == Sum(m) + v
  {
    SumRemove(m[a := v], a);
    assert m[a := v] - {a} == m - {a};
    if a in m {
      SumRemove(m, a);
    } else {
      assert m - {a} == m;
    }
  }

  /** No account holds more than all accounts together. */
  lemma EntryBelowSum(m: map<Address, nat>, j: Address)
    ensures Get(m, j) <= Sum(m)
  {
    if j in m {
      SumRemove(m, j);
    }
  }

  /** An account holding the whole sum leaves nothing for any other. */
  lemma WholeSupplyLeavesNothing(m: map<Address, nat>, k: Address)
    requires Get(m, k) == Sum(m)
    ensures forall j :: j != k ==> Get(m, j) == 0
  {
    forall j | j != k
      ensures Get(m, j) == 0
    {
      if k in m {
        SumRemove(m, k);
        EntryBelowSum(m - {k}, j);
        assert Get(m - {k}, j) == Get(m, j);
      } else {
        EntryBelowSum(m, j);
      }
    }
  }

  /** `m` with `n` more units on account `a`. */
  function Credit(m: map<Address, nat>, a: Address, n: nat): (r: map<Address, nat>)
    ensures Get(r, a) == Get(m, a) + n
    ensures forall b :: b != a ==> Get(r, b) == Get(m, b)
    ensures Sum(r) == Sum(m) + n
  {
    SumUpdate(m, a, Get(m, a) + n);
    m[a := Get(m, a) + n]
  }

  /** `m` with `n` fewer units on account `a`, which must hold at least `n`. */
  function Debit(m: map<Address, nat>, a: Address, n: nat): (r: map<Address, nat>)
    requires n <= Get(m, a)
    ensures Get(r, a) + n == Get(m, a)
    ensures forall b :: b != a ==> Get(r, b) == Get(m, b)
    ensures Sum(r) + n == Sum(m)
  {
    SumUpdate(m, a, Get(m, a) - n);
    m[a := Get(m, a) - n]
  }

  /** Moving `n` units from `a` to `b` leaves the sum alone; a move to oneself
      changes no balance at all. */
  lemma MoveConserves(m: map<Address, nat>, a: Address, b: Address, n: nat)
    requires n <= Get(m, a)
    ensures Sum(Credit(Debit(m, a, n), b, n)) == Sum(m)
    ensures a == b ==> forall c :: Get(Credit(Debit(m, a, n), b, n), c) == Get(m, c)
  {
  }
}
