/** `LidMap<V>`: a map keyed by the canonical string of a Lid, with an optional
    default factory that fills in missing entries lazily. A stored value that
    JavaScript considers falsy is treated as missing. */
module LidMaps {
  import opened Options
  import opened Lids

  /** The outcome of one `get`: the value returned (`None` for undefined), the
      entries afterwards and the number of factory calls made so far. */
  datatype GetStep<V> = GetStep(result: Option<V>, entries: map<string, V>, calls: nat)

  /** The specification of `get`. The factory is a function of how often it has
      been called before, so that each call may produce a new value; `truthy`
      is JavaScript's truthiness of a stored value. */
  function Lookup<V>(entries: map<string, V>, calls: nat, factory: Option<nat -> V>,
                     truthy: V -> bool, key: Lid): (step: GetStep<V>)
  {
    var k := Canonical(key);
    if k in entries && truthy(entries[k]) then GetStep(Some(entries[k]), entries, calls)
    else if factory.Some? then
      var v := factory.value(calls);
      GetStep(Some(v), entries[k := v], calls + 1)
    else GetStep(None, entries, calls)
  }

  class LidMap<V> {
    var entries: map<string, V>
    var factoryCalls: nat
    const defaultFactory: Option<nat -> V>
    const truthy: V -> bool

    constructor (defaultFactory: Option<nat -> V>, truthy: V -> bool)
      ensures entries == map[] && factoryCalls == 0
      ensures this.defaultFactory == defaultFactory && this.truthy == truthy
    {
      entries := map[];
      factoryCalls := 0;
      this.defaultFactory := defaultFactory;
      this.truthy := truthy;
    }

    /** `get(key)`: the stored value when it is truthy; otherwise a value from
        the factory, which is stored; otherwise undefined. */
    method Get(key: Lid) returns (r: Option<V>)
      modifies this
      ensures GetStep(r, entries, factoryCalls)
           == Lookup(old(entries), old(factoryCalls), defaultFactory, truthy, key)
    {
      var k := Canonical(key);
      if k in entries && truthy(entries[k]) {
        r := Some(entries[k]);
        return;
      }
      match defaultFactory {
        case Some(make) =>
          var v := make(factoryCalls);
          factoryCalls := factoryCalls + 1;
          entries := entries[k := v];
          r := Some(v);
        case None =>
          r := None;
      }
    }

    /** `set(key, val)`: stores under the canonical string. */
    method Set(key: Lid, val: V)
      modifies this
      ensures entries == old(entries)[Canonical(key) := val]
      ensures factoryCalls == old(factoryCalls)
    {
      entries := entries[Canonical(key) := val];
    }
  }

  /** With a factory, `get` never returns undefined. */
  lemma GetWithFactoryIsDefined<V>(entries: map<string, V>, calls: nat, factory: Option<nat -> V>,
                                   truthy: V -> bool, key: Lid)
    requires factory.Some?
    ensures Lookup(entries, calls, factory, truthy, key).result.Some?
  {
  }

  /** A second `get` of a key whose first `get` returned a truthy value returns
      the same value, leaves the map alone and does not call the factory. */
  lemma RepeatedGetIsStable<V>(entries: map<string, V>, calls: nat, factory: Option<nat -> V>,
                               truthy: V -> bool, key: Lid, again: Lid)
    requires Equals(key, again)
    requires var first := Lookup(entries, calls, factory, truthy, key);
             first.result.Some? && truthy(first.result.value)
    ensures var first := Lookup(entries, calls, factory, truthy, key);
            Lookup(first.entries, first.calls, factory, truthy, again) == first
  {
  }

  /** `get` changes nothing when the key holds a truthy value or when there is
      no factory; a falsy stored value is replaced by the factory's result. */
  lemma GetChangesOnlyMissingEntries<V>(entries: map<string, V>, calls: nat, factory: Option<nat -> V>,
                                        truthy: V -> bool, key: Lid)
    ensures var k := Canonical(key);
            (k in entries && truthy(entries[k])) || factory.None? ==>
              Lookup(entries, calls, factory, truthy, key).entries == entries
    ensures var k := Canonical(key);
            k in entries && !truthy(entries[k]) && factory.Some? ==>
              Lookup(entries, calls, factory, truthy, key).entries[k] == factory.value(calls)
  {
  }

  /** After `set(k, v)` with a truthy `v`, every `get` of a Lid `equals` to `k`
      returns `v`. */
  lemma SetThenGet<V>(entries: map<string, V>, calls: nat, factory: Option<nat -> V>,
                      truthy: V -> bool, key: Lid, val: V, again: Lid)
    requires truthy(val) && Equals(key, again)
    ensures Lookup(entries[Canonical(key) := val], calls, factory, truthy, again)
         == GetStep(Some(val), entries[Canonical(key) := val], calls)
  {
  }
}
