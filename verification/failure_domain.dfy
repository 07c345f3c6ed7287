/**
 * The failure-domain picker of the kubeadm control-plane controller.
 *
 * Given the failure domains a cluster may place control-plane machines in
 * (its catalog) and the machines that exist, `PickFewest` names a domain
 * holding the fewest machines (where the next machine should be created)
 * and `PickMost` a domain holding the most (where a machine should be
 * removed). Machines without a failure domain, or with one the catalog does
 * not know, count toward no domain. An empty catalog gives no decision.
 */
module FailureDomain {
  import opened Wrappers

  /** A failure-domain identifier, such as "us-west-1a". */
  type Domain = string

  /** A control-plane machine; only its optional failure domain matters here. */
  datatype Machine = Machine(failureDomain: Option<Domain>)

  /**
   * The keys of the cluster's failure-domain map, in the order an iteration
   * over that map happens to visit them. The order is arbitrary, so a result
   * proved for every order holds whatever order the map yields.
   */
  type Catalog = seq<Domain>

  /** The number of machines placed in failure domain `d`. */
  function Load(d: Domain, machines: seq<Machine>): (n: nat)
    ensures n == multiset(machines)[Machine(Some(d))]
  {
    if |machines| == 0 then 0
    else
      assert machines == [machines[0]] + machines[1..];
      (if machines[0].failureDomain == Some(d) then 1 else 0) + Load(d, machines[1..])
  }

  /** `d` is a catalog domain with no more machines than any other catalog domain. */
  predicate IsFewest(catalog: Catalog, machines: seq<Machine>, d: Domain) {
    d in catalog && forall e :: e in catalog ==> Load(d, machines) <= Load(e, machines)
  }

  /** `d` is a catalog domain with no fewer machines than any other catalog domain. */
  predicate IsMost(catalog: Catalog, machines: seq<Machine>, d: Domain) {
    d in catalog && forall e :: e in catalog ==> Load(e, machines) <= Load(d, machines)
  }

  /**
   * The scale-up target: a least-loaded catalog domain, or `None` when the
   * catalog is empty. Ties go to the domain met first in catalog order.
   */
  function PickFewest(catalog: Catalog, machines: seq<Machine>): (r: Option<Domain>)
    ensures r.None? <==> |catalog| == 0
    ensures r.Some? ==> IsFewest(catalog, machines, r.value)
  {
    if |catalog| == 0 then None
    else
      assert catalog == [catalog[0]] + catalog[1..];
      match PickFewest(catalog[1..], machines)
      case None => Some(catalog[0])
      case Some(d) =>
        if Load(d, machines) < Load(catalog[0], machines) then Some(d) else Some(catalog[0])
  }

  /**
   * The scale-down target: a most-loaded catalog domain, or `None` when the
   * catalog is empty. Ties go to the domain met first in catalog order.
   */
  function PickMost(catalog: Catalog, machines: seq<Machine>): (r: Option<Domain>)
    ensures r.None? <==> |catalog| == 0
    ensures r.Some? ==> IsMost(catalog, machines, r.value)
  {
    if |catalog| == 0 then None
    else
      assert catalog == [catalog[0]] + catalog[1..];
      match PickMost(catalog[1..], machines)
      case None => Some(catalog[0])
      case Some(d) =>
        if Load(catalog[0], machines) < Load(d, machines) then Some(d) else Some(catalog[0])
  }

  /**
   * A counting pass over the machines: one counter per catalog domain and
   * none for any other key, starting at zero and bumped for every machine
   * whose failure domain is a catalog key. Machines with no failure domain or
   * an unknown one are skipped, so every counter ends equal to `Load`.
   */
  method Tally(catalog: Catalog, machines: seq<Machine>) returns (counters: map<Domain, nat>)
    ensures forall d :: d in counters <==> d in catalog
    ensures forall d :: d in counters ==> counters[d] == Load(d, machines)
  {
    counters := map d | d in catalog :: 0;
    var i := 0;
    while i < |machines|
      invariant i <= |machines|
      invariant forall d :: d in counters <==> d in catalog
      invariant forall d :: d in counters ==> counters[d] == Load(d, machines[..i])
    {
      assert machines[..i + 1] == machines[..i] + [machines[i]];
      match machines[i].failureDomain {
        case None =>
        case Some(id) =>
          if id in counters {
            counters := counters[id := counters[id] + 1];
          }
      }
      i := i + 1;
    }
    assert machines[..i] == machines;
  }

  // ---------------------------------------------------------------------------
  // Tie-break: every tied domain is the pick under some catalog order.
  // ---------------------------------------------------------------------------

  /** The catalog order that visits `catalog[i]` first and keeps the rest in place. */
  function MoveToFront(catalog: Catalog, i: nat): (order: Catalog)
    requires i < |catalog|
    ensures multiset(order) == multiset(catalog)
    ensures |order| == |catalog| && order[0] == catalog[i]
  {
    assert catalog == catalog[..i] + [catalog[i]] + catalog[i + 1..];
    [catalog[i]] + catalog[..i] + catalog[i + 1..]
  }

  /** Sequences with the same multiset hold the same catalog keys. */
  lemma SameMultisetSameKeys(order: Catalog, catalog: Catalog, e: Domain)
    requires multiset(order) == multiset(catalog)
    ensures e in order <==> e in catalog
  {
    assert e in order <==> e in multiset(order);
    assert e in catalog <==> e in multiset(catalog);
  }

  /** A least-loaded domain visited first is the one `PickFewest` returns. */
  lemma FrontFewestIsPicked(order: Catalog, machines: seq<Machine>)
    requires |order| > 0 && IsFewest(order, machines, order[0])
    ensures PickFewest(order, machines) == Some(order[0])
  {
  }

  /** A most-loaded domain visited first is the one `PickMost` returns. */
  lemma FrontMostIsPicked(order: Catalog, machines: seq<Machine>)
    requires |order| > 0 && IsMost(order, machines, order[0])
    ensures PickMost(order, machines) == Some(order[0])
  {
  }

  /**
   * The domains `PickFewest` can return, over all orders in which the
   * catalog map may be iterated, are exactly the least-loaded domains.
   */
  lemma {:induction false} FewestPicksAreTheTiedSet(catalog: Catalog, machines: seq<Machine>, d: Domain)
    ensures IsFewest(catalog, machines, d) <==>
            exists order: Catalog :: multiset(order) == multiset(catalog) && PickFewest(order, machines) == Some(d)
  {
    if IsFewest(catalog, machines, d) {
      var i :| 0 <= i < |catalog| && catalog[i] == d;
      var order := MoveToFront(catalog, i);
      forall e ensures e in order <==> e in catalog {
        SameMultisetSameKeys(order, catalog, e);
      }
      assert IsFewest(order, machines, d);
      FrontFewestIsPicked(order, machines);
      assert multiset(order) == multiset(catalog) && PickFewest(order, machines) == Some(d);
    }
    if order: Catalog :| multiset(order) == multiset(catalog) && PickFewest(order, machines) == Some(d) {
      assert IsFewest(order, machines, d);
      forall e ensures e in order <==> e in catalog {
        SameMultisetSameKeys(order, catalog, e);
      }
      assert IsFewest(catalog, machines, d);
    }
  }

  /**
   * The domains `PickMost` can return, over all orders in which the catalog
   * map may be iterated, are exactly the most-loaded domains.
   */
  lemma {:induction false} MostPicksAreTheTiedSet(catalog: Catalog, machines: seq<Machine>, d: Domain)
    ensures IsMost(catalog, machines, d) <==>
            exists order: Catalog :: multiset(order) == multiset(catalog) && PickMost(order, machines) == Some(d)
  {
    if IsMost(catalog, machines, d) {
      var i :| 0 <= i < |catalog| && catalog[i] == d;
      var order := MoveToFront(catalog, i);
      forall e ensures e in order <==> e in catalog {
        SameMultisetSameKeys(order, catalog, e);
      }
      assert IsMost(order, machines, d);
      FrontMostIsPicked(order, machines);
      assert multiset(order) == multiset(catalog) && PickMost(order, machines) == Some(d);
    }
    if order: Catalog :| multiset(order) == multiset(catalog) && PickMost(order, machines) == Some(d) {
      assert IsMost(order, machines, d);
      forall e ensures e in order <==> e in catalog {
        SameMultisetSameKeys(order, catalog, e);
      }
      assert IsMost(catalog, machines, d);
    }
  }

  /** A domain with strictly fewer machines than every other catalog domain is the scale-up target. */
  lemma UniqueFewestIsPicked(catalog: Catalog, machines: seq<Machine>, d: Domain)
    requires d in catalog
    requires forall e :: e in catalog && e != d ==> Load(d, machines) < Load(e, machines)
    ensures PickFewest(catalog, machines) == Some(d)
  {
  }

  /** A domain with strictly more machines than every other catalog domain is the scale-down target. */
  lemma UniqueMostIsPicked(catalog: Catalog, machines: seq<Machine>, d: Domain)
    requires d in catalog
    requires forall e :: e in catalog && e != d ==> Load(e, machines) < Load(d, machines)
    ensures PickMost(catalog, machines) == Some(d)
  {
  }

  // ---------------------------------------------------------------------------
  // What the picks depend on.
  // ---------------------------------------------------------------------------

  /** Every catalog domain carries the same number of machines under both collections. */
  predicate SameLoads(catalog: Catalog, machines: seq<Machine>, machines': seq<Machine>) {
    forall d :: d in catalog ==> Load(d, machines) == Load(d, machines')
  }

  /** Both picks depend on the machines only through the loads of catalog domains. */
  lemma {:induction false} PicksDependOnlyOnLoads(catalog: Catalog, machines: seq<Machine>, machines': seq<Machine>)
    requires SameLoads(catalog, machines, machines')
    ensures PickFewest(catalog, machines) == PickFewest(catalog, machines')
    ensures PickMost(catalog, machines) == PickMost(catalog, machines')
  {
    if |catalog| > 0 {
      assert catalog == [catalog[0]] + catalog[1..];
      PicksDependOnlyOnLoads(catalog[1..], machines, machines');
    }
  }

  /**
   * The machine collection is a bag: listing the same machines in another
   * order changes neither pick.
   */
  lemma PicksIgnoreMachineOrder(catalog: Catalog, machines: seq<Machine>, machines': seq<Machine>)
    requires multiset(machines) == multiset(machines')
    ensures PickFewest(catalog, machines) == PickFewest(catalog, machines')
    ensures PickMost(catalog, machines) == PickMost(catalog, machines')
  {
  }

  /** A machine counts toward a domain exactly when its failure domain is set and is a catalog key. */
  predicate Counted(catalog: Catalog, m: Machine) {
    m.failureDomain.Some? && m.failureDomain.value in catalog
  }

  /**
   * The machines that count toward some catalog domain, in their original
   * order: every counted machine is kept as many times as it occurs, every
   * other machine is dropped.
   */
  function CountedMachines(catalog: Catalog, machines: seq<Machine>): (kept: seq<Machine>)
    ensures forall m :: multiset(kept)[m] == if Counted(catalog, m) then multiset(machines)[m] else 0
    ensures |kept| <= |machines|
  {
    if |machines| == 0 then []
    else
      assert machines == [machines[0]] + machines[1..];
      var rest := CountedMachines(catalog, machines[1..]);
      if Counted(catalog, machines[0]) then [machines[0]] + rest else rest
  }

  /** Dropping the uncounted machines leaves the load of every catalog domain as it was. */
  lemma CountedMachinesKeepLoads(catalog: Catalog, machines: seq<Machine>)
    ensures SameLoads(catalog, machines, CountedMachines(catalog, machines))
  {
    forall d | d in catalog
      ensures Load(d, machines) == Load(d, CountedMachines(catalog, machines))
    {
      assert Counted(catalog, Machine(Some(d)));
    }
  }

  /**
   * Machines with an unset failure domain, or one the catalog does not know,
   * do not influence either pick: the outcome is the one computed as if they
   * were not in the collection at all.
   */
  lemma PicksIgnoreUncountedMachines(catalog: Catalog, machines: seq<Machine>)
    ensures PickFewest(catalog, machines) == PickFewest(catalog, CountedMachines(catalog, machines))
    ensures PickMost(catalog, machines) == PickMost(catalog, CountedMachines(catalog, machines))
  {
    CountedMachinesKeepLoads(catalog, machines);
    PicksDependOnlyOnLoads(catalog, machines, CountedMachines(catalog, machines));
  }

  // ---------------------------------------------------------------------------
  // Spreading: the picks keep control-plane machines evenly spread.
  // ---------------------------------------------------------------------------

  /** No two catalog domains differ by more than one machine. */
  predicate Balanced(catalog: Catalog, machines: seq<Machine>) {
    forall d, e :: d in catalog && e in catalog ==> Load(d, machines) <= Load(e, machines) + 1
  }

  /** Creating the next machine in the domain `PickFewest` names keeps a balanced cluster balanced. */
  lemma ScaleUpKeepsBalance(catalog: Catalog, machines: seq<Machine>, d: Domain)
    requires Balanced(catalog, machines)
    requires PickFewest(catalog, machines) == Some(d)
    ensures Balanced(catalog, machines + [Machine(Some(d))])
  {
  }

  /** Removing a machine from the domain `PickMost` names keeps a balanced cluster balanced. */
  lemma ScaleDownKeepsBalance(catalog: Catalog, before: seq<Machine>, after: seq<Machine>, d: Domain)
    requires Balanced(catalog, before + [Machine(Some(d))] + after)
    requires PickMost(catalog, before + [Machine(Some(d))] + after) == Some(d)
    ensures Balanced(catalog, before + after)
  {
  }

  /** Every order in `orders` is an iteration order of `catalog`: the same keys, each as often. */
  predicate OrdersOf(catalog: Catalog, orders: seq<Catalog>) {
    forall k :: 0 <= k < |orders| ==> multiset(orders[k]) == multiset(catalog)
  }

  /**
   * The machines left after one scale-up per entry of `orders`. The k-th
   * scale-up asks `PickFewest` with the k-th catalog order, so the map may be
   * iterated in a fresh order on every call, and creates one machine in the
   * domain it names; an empty order gives no decision and adds nothing.
   * This stands for the controller calling the picker repeatedly and is not
   * itself part of the picker.
   */
  function ScaleUp(orders: seq<Catalog>, machines: seq<Machine>): (grown: seq<Machine>)
    ensures (forall k :: 0 <= k < |orders| ==> |orders[k]| > 0) ==> |grown| == |machines| + |orders|
    ensures |grown| <= |machines| + |orders|
  {
    if |orders| == 0 then machines
    else
      match PickFewest(orders[0], machines)
      case None => machines
      case Some(d) => ScaleUp(orders[1..], machines + [Machine(Some(d))])
  }

  /**
   * Scaling up keeps the existing machines as they are and only adds
   * machines whose failure domain is a catalog key, whatever order the
   * catalog is iterated in on each call.
   */
  lemma {:induction false} ScaleUpOnlyAddsCatalogMachines(catalog: Catalog, orders: seq<Catalog>, machines: seq<Machine>)
    requires OrdersOf(catalog, orders)
    ensures |machines| <= |ScaleUp(orders, machines)|
    ensures ScaleUp(orders, machines)[..|machines|] == machines
    ensures forall k :: |machines| <= k < |ScaleUp(orders, machines)| ==> Counted(catalog, ScaleUp(orders, machines)[k])
    decreases |orders|
  {
    if |orders| > 0 {
      match PickFewest(orders[0], machines)
      case None =>
      case Some(d) =>
        SameMultisetSameKeys(orders[0], catalog, d);
        var next := machines + [Machine(Some(d))];
        assert OrdersOf(catalog, orders[1..]) by {
          forall k | 0 <= k < |orders[1..]| ensures multiset(orders[1..][k]) == multiset(catalog) {
            assert orders[1..][k] == orders[k + 1];
          }
        }
        var grown := ScaleUp(orders[1..], next);
        assert ScaleUp(orders, machines) == grown;
        ScaleUpOnlyAddsCatalogMachines(catalog, orders[1..], next);
        assert grown[..|machines|] == grown[..|next|][..|machines|] == machines;
        forall k | |machines| <= k < |grown| ensures Counted(catalog, grown[k]) {
          if k == |machines| {
            assert grown[k] == grown[..|next|][k] == Machine(Some(d));
          }
        }
    }
  }

  /** Balance depends only on which keys the catalog holds, not on its order. */
  lemma BalancedIgnoresCatalogOrder(order: Catalog, catalog: Catalog, machines: seq<Machine>)
    requires multiset(order) == multiset(catalog)
    ensures Balanced(order, machines) <==> Balanced(catalog, machines)
  {
    forall e ensures e in order <==> e in catalog {
      SameMultisetSameKeys(order, catalog, e);
    }
  }

  /**
   * Starting from a balanced cluster (in particular from no machines at all),
   * any number of scale-ups leaves the machines spread across the catalog
   * domains within one of each other, whatever order the catalog map is
   * iterated in on each call to `PickFewest`.
   */
  lemma {:induction false} ScaleUpStaysBalanced(catalog: Catalog, orders: seq<Catalog>, machines: seq<Machine>)
    requires OrdersOf(catalog, orders)
    requires Balanced(catalog, machines)
    ensures Balanced(catalog, ScaleUp(orders, machines))
    decreases |orders|
  {
    if |orders| > 0 {
      match PickFewest(orders[0], machines)
      case None =>
      case Some(d) =>
        var next := machines + [Machine(Some(d))];
        assert Balanced(catalog, next) by {
          BalancedIgnoresCatalogOrder(orders[0], catalog, machines);
          ScaleUpKeepsBalance(orders[0], machines, d);
          BalancedIgnoresCatalogOrder(orders[0], catalog, next);
        }
        assert OrdersOf(catalog, orders[1..]) by {
          forall k | 0 <= k < |orders[1..]| ensures multiset(orders[1..][k]) == multiset(catalog) {
            assert orders[1..][k] == orders[k + 1];
          }
        }
        ScaleUpStaysBalanced(catalog, orders[1..], next);
    }
  }
}
