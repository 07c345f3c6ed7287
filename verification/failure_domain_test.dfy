/**
 * The cases of the picker's unit tests, one lemma per case, each stating
 * what both `PickFewest` and `PickMost` return. A two-domain catalog is
 * taken in every order its map may be iterated in, so the lemmas hold
 * whatever order Go's map iteration yields.
 */
module FailureDomainTest {
  import opened Wrappers
  import opened FailureDomain

  const A: Domain := "us-west-1a"
  const B: Domain := "us-west-1b"

  const MachineA: Machine := Machine(Some(A))
  const MachineB: Machine := Machine(Some(B))
  const MachineNil: Machine := Machine(None)

  /** Some iteration order of the two-domain catalog {A, B}. */
  predicate IsOrderOfAB(catalog: Catalog) {
    multiset(catalog) == multiset{A, B}
  }

  /** Whatever the machines, a catalog holding one domain makes that domain both picks. */
  lemma SingleDomainIsAlwaysPicked(d: Domain, machines: seq<Machine>)
    ensures PickFewest([d], machines) == Some(d)
    ensures PickMost([d], machines) == Some(d)
  {
  }

  /** Case "simple": a nil catalog gives no decision, whatever the machines. */
  lemma Simple(machines: seq<Machine>)
    ensures PickFewest([], machines) == None
    ensures PickMost([], machines) == None
  {
  }

  /** Case "no machines": catalog {A}, no machines. */
  lemma NoMachines()
    ensures PickFewest([A], []) == Some(A)
    ensures PickMost([A], []) == Some(A)
  {
  }

  /** Case "one machine in a failure domain": catalog {A, B}, one machine in A. */
  lemma OneMachineInAFailureDomain(catalog: Catalog)
    requires IsOrderOfAB(catalog)
    ensures PickFewest(catalog, [MachineA]) == Some(B)
    ensures PickMost(catalog, [MachineA]) == Some(A)
  {
  }

  /** Case "no failure domain specified on machine": catalog {A}, one machine with no domain. */
  lemma NoFailureDomainSpecifiedOnMachine()
    ensures PickFewest([A], [MachineNil]) == Some(A)
    ensures PickMost([A], [MachineNil]) == Some(A)
  {
  }

  /** Case "mismatched failure domain on machine": catalog {A}, one machine in B. */
  lemma MismatchedFailureDomainOnMachine()
    ensures PickFewest([A], [MachineB]) == Some(A)
    ensures PickMost([A], [MachineB]) == Some(A)
  {
  }

  /** Case "failure domains and no machines": catalog {A, B}, no machines; either domain may come back. */
  lemma FailureDomainsAndNoMachines(catalog: Catalog)
    requires IsOrderOfAB(catalog)
    ensures PickFewest(catalog, []) == Some(A) || PickFewest(catalog, []) == Some(B)
    ensures PickMost(catalog, []) == Some(A) || PickMost(catalog, []) == Some(B)
  {
  }
}
