# Failure-domain picker of the kubeadm control-plane controller

This project models the failure-domain picker of the cluster-api kubeadm control-plane controller. The picker has two operations:

- `PickFewest` chooses the failure domain where the next control-plane machine should be created. This is the domain with the fewest machines.
- `PickMost` chooses the failure domain a machine should be removed from. This is the domain with the most machines.

Both take the cluster's failure-domain catalog, which is a map keyed by domain name such as `"us-west-1a"`, together with the current machines. Each machine has an optional failure domain. The result is a domain name, or nil when the catalog is empty.

The Go implementation is not part of this model. What the model does comes from the picker's tests in `controlplane/kubeadm/internal/failure_domain_test.go`. It extends their expectations to all inputs, reading the function names `PickFewest` and `PickMost` literally:

- Count the machines of each catalog domain.
- Skip machines whose failure domain is unset, and machines whose domain is not a catalog key.
- Return a least-loaded domain (`PickFewest`) or a most-loaded one (`PickMost`).
- Return nil for an empty or nil catalog.

The tests only assert that the result belongs to the set of tied domains. So the model returns the first extremal domain in catalog order, and that order is a free parameter. It stands for the arbitrary order in which Go iterates over a map. `FewestPicksAreTheTiedSet` and `MostPicksAreTheTiedSet` prove that, across all catalog orders, the domains these first-in-order picks can return are exactly the tied domains. That means the model covers every tie-break the implementation could make.

Files:
- `wrappers.dfy`: `Option`, which stands for a nil-able Go pointer.
- `failure_domain.dfy`: machines, catalog, load, the two picks, the counting pass, and the properties.
- `failure_domain_test.dfy`: one lemma per test case, each stating both picks.

`ScaleUp` and the lemmas about it (`ScaleUpOnlyAddsCatalogMachines`, `ScaleUpStaysBalanced`) stand for the controller calling `PickFewest` again and again, once per new machine, with the catalog map possibly iterated in a fresh order each time. The controller is not part of the picker. `ScaleUp` exists to state what repeated placement does, not to model a function of the source.

The catalog is a `seq<Domain>` listing the map's keys in iteration order. Go map keys are distinct, but none of the results depends on that, so it is not required. The machine collection is a `seq<Machine>`. `PicksIgnoreMachineOrder` shows that only its multiset matters, as for Go's unordered machine collection.

## Model

| member | source | states |
|---|---|---|
| FailureDomain.Load | controlplane/kubeadm/internal/failure_domain_test.go:37-39 | A domain's load is the number of machines in the collection, viewed as a bag, whose failure domain is exactly that domain. |
| FailureDomain.PickFewest | controlplane/kubeadm/internal/failure_domain_test.go:86-96 | The result is nil exactly when the catalog is empty. Otherwise it is a catalog domain whose load is at most every catalog domain's load. |
| FailureDomain.PickMost | controlplane/kubeadm/internal/failure_domain_test.go:156-167 | The result is nil exactly when the catalog is empty. Otherwise it is a catalog domain whose load is at least every catalog domain's load. |
| FailureDomain.Tally | controlplane/kubeadm/internal/failure_domain_test.go:64-79 | The counting pass keeps one counter for each catalog domain and for nothing else. Each counter equals that domain's load, so machines with an unset or unknown domain are counted nowhere. |
| FailureDomain.FewestPicksAreTheTiedSet | controlplane/kubeadm/internal/failure_domain_test.go:80-93 | A domain is least-loaded if and only if some iteration order of the catalog makes `PickFewest` return it. So "result is an element of the expected set" is exactly the set of possible results. |
| FailureDomain.MostPicksAreTheTiedSet | controlplane/kubeadm/internal/failure_domain_test.go:150-164 | A domain is most-loaded if and only if some iteration order of the catalog makes `PickMost` return it. |
| FailureDomain.UniqueFewestIsPicked | controlplane/kubeadm/internal/failure_domain_test.go:58-62 | A catalog domain with strictly fewer machines than every other catalog domain is what `PickFewest` returns, in every catalog order. |
| FailureDomain.UniqueMostIsPicked | controlplane/kubeadm/internal/failure_domain_test.go:128-132 | A catalog domain with strictly more machines than every other catalog domain is what `PickMost` returns, in every catalog order. |
| FailureDomain.PicksDependOnlyOnLoads | controlplane/kubeadm/internal/failure_domain_test.go:86-89 | Two machine collections that give every catalog domain the same load get the same `PickFewest` and the same `PickMost`. It is a consequence of the min/max rule; no test pins it. |
| FailureDomain.PicksIgnoreMachineOrder | controlplane/kubeadm/internal/failure_domain_test.go:59-61 | Listing the same machines in another order changes neither pick. The test builds an unordered machine collection, but with one machine there is no order to vary, so this follows from the min/max rule rather than being pinned by the test. |
| FailureDomain.CountedMachines | controlplane/kubeadm/internal/failure_domain_test.go:64-79 | Every machine whose failure domain is set and is a catalog key is kept as many times as it occurs in the input. Every other machine is dropped. |
| FailureDomain.CountedMachinesKeepLoads | controlplane/kubeadm/internal/failure_domain_test.go:64-79 | Dropping the machines with an unset or unknown domain leaves every catalog domain's load unchanged. |
| FailureDomain.PicksIgnoreUncountedMachines | controlplane/kubeadm/internal/failure_domain_test.go:134-149 | Both picks equal what they would be if machines with an unset or unknown domain were removed from the collection. |
| FailureDomain.ScaleUpKeepsBalance | controlplane/kubeadm/internal/failure_domain_test.go:58-62 | Suppose no two catalog domains differ by more than one machine. Creating a machine in the domain `PickFewest` names keeps that true. This follows from the min rule; the cited test only shows the scale-up target avoiding the loaded domain. |
| FailureDomain.ScaleDownKeepsBalance | controlplane/kubeadm/internal/failure_domain_test.go:128-132 | Suppose no two catalog domains differ by more than one machine. Removing a machine from the domain `PickMost` names keeps that true. This follows from the max rule; the cited test only shows the scale-down target being the loaded domain. |
| FailureDomain.ScaleUpStaysBalanced | controlplane/kubeadm/internal/failure_domain_test.go:81-83 | Start from a balanced cluster, for example one with no machines, and place machines one at a time with `PickFewest`. Each call may see the catalog map in a fresh iteration order. The loads of the catalog domains stay within one of each other after any number of placements. This follows from the min rule; the cited test covers only the starting point, a catalog with no machines. |
| FailureDomainTest.Simple | controlplane/kubeadm/internal/failure_domain_test.go:47-50 | An empty catalog makes both picks return nil, whatever the machines are. This also covers the `PickMost` case at lines 117-120. |
| FailureDomainTest.SingleDomainIsAlwaysPicked | controlplane/kubeadm/internal/failure_domain_test.go:64-79 | With a one-domain catalog, both picks return that domain whatever the machines are. This generalises the one-domain cases at these lines and at lines 52-56. |
| FailureDomainTest.NoMachines | controlplane/kubeadm/internal/failure_domain_test.go:52-56 | With catalog {a} and no machines, both picks return a. This also covers the `PickMost` case at lines 122-126. |
| FailureDomainTest.OneMachineInAFailureDomain | controlplane/kubeadm/internal/failure_domain_test.go:58-62 | With catalog {a, b} in either order and one machine in a, `PickFewest` returns b and `PickMost` returns a. This also covers the `PickMost` case at lines 128-132. |
| FailureDomainTest.NoFailureDomainSpecifiedOnMachine | controlplane/kubeadm/internal/failure_domain_test.go:64-71 | With catalog {a} and one machine with an unset domain, both picks return a. This also covers the `PickMost` case at lines 134-141. |
| FailureDomainTest.MismatchedFailureDomainOnMachine | controlplane/kubeadm/internal/failure_domain_test.go:72-79 | With catalog {a} and one machine in b, both picks return a and not b. This also covers the `PickMost` case at lines 142-149. |
| FailureDomainTest.FailureDomainsAndNoMachines | controlplane/kubeadm/internal/failure_domain_test.go:80-84 | With catalog {a, b} in either order and no machines, both picks return a or b and never nil. This also covers the `PickMost` case at lines 150-154. |

## Left out

- The implementation file `controlplane/kubeadm/internal/failure_domain.go` is not part of this model. The contracts come from the test expectations and from the function names: fewest machines for `PickFewest`, most machines for `PickMost`.
- Eligibility filtering by `FailureDomainSpec` contents is not modelled. A spec can carry a control-plane eligibility flag, but every test uses an empty `clusterv1.FailureDomainSpec{}`, so nothing shows whether or how the picker filters on it. Every catalog key is treated as a candidate.
- Any randomness in how ties are broken is not modelled. The model always takes the tied domain that comes first in the catalog order. Because that order is left open, the tie-set lemmas show that any tied domain can be the result. The odds of each tied domain are not modelled.
- The gomega assertions, the `pointer.StringPtr` and `DeepCopy` calls, and the `testing.T` runner are not modelled. They only build inputs and compare results; they are not picker behaviour.
- How `FilterableMachineCollection` stores and filters machines is not modelled. The model keeps only each machine's failure domain, set or unset, and proves that the order in which machines are listed does not matter.
- A Go nil map and an empty map are both the empty catalog. A nil machine collection is the empty sequence.
