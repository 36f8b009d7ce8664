/**
 * Runtime capabilities. A capability is a requirement on the shape of a runtime
 * description; `Contracts` is no capability of its own but the conjunction of
 * `System` and `Balances`, so a runtime qualifies for it by providing both,
 * whatever else it declares. The concrete types a runtime uses for hashes,
 * addresses and balances travel with it in an explicit configuration.
 */
module Capabilities {
  import opened Wrappers

  datatype Capability = System | Balances | Contracts

  /** The concrete types of a runtime, by their encoded widths in bytes. */
  datatype RuntimeTypes = RuntimeTypes(hashLen: nat, addressLen: nat, balanceWidth: nat)

  /** A runtime description: the base capabilities it provides and its concrete types. */
  datatype Runtime = Runtime(capabilities: set<Capability>, types: RuntimeTypes)

  /** Balances are unsigned integers of 32 bits or more that the compact encoding can carry. */
  predicate ValidTypes(t: RuntimeTypes) {
    4 <= t.balanceWidth <= 67
  }

  /** The base capabilities `c` stands for, in the order they are checked. */
  function Components(c: Capability): (cs: seq<Capability>)
    ensures forall i :: 0 <= i < |cs| ==> cs[i] != Contracts
  {
    match c
    case System => [System]
    case Balances => [Balances]
    case Contracts => [System, Balances]
  }

  /** The first component of `c` that `rt` does not provide, if any. */
  function Missing(rt: Runtime, c: Capability): (r: Option<Capability>)
    ensures r.None? <==> forall b :: b in Components(c) ==> b in rt.capabilities
    ensures r.Some? ==> r.value in Components(c) && r.value !in rt.capabilities
  {
    var cs := Components(c);
    if cs[0] !in rt.capabilities then Some(cs[0])
    else if |cs| == 2 && cs[1] !in rt.capabilities then Some(cs[1])
    else None
  }

  predicate Satisfies(rt: Runtime, c: Capability) {
    Missing(rt, c).None?
  }

  /** Qualifying for `Contracts` is exactly qualifying for both `System` and `Balances`. */
  lemma ContractsIsConjunction(rt: Runtime)
    ensures Satisfies(rt, Contracts) <==> Satisfies(rt, System) && Satisfies(rt, Balances)
    ensures Satisfies(rt, Contracts) <==> System in rt.capabilities && Balances in rt.capabilities
  {
  }

  /** Declaring `Contracts` by name grants nothing: only the shape counts. */
  lemma StructuralNotNominal(rt: Runtime)
    ensures Satisfies(rt, Contracts) == Satisfies(rt.(capabilities := rt.capabilities + {Contracts}), Contracts)
    ensures Satisfies(rt, Contracts) == Satisfies(rt.(capabilities := rt.capabilities - {Contracts}), Contracts)
  {
  }
}
