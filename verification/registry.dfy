/** The per-key registry behind `MultiDirCommand.ChildChanged`: `SubEvents`
    maps each key to its subject, and `Subscriptions` holds one subscription
    per subject. A subject is represented by the signals delivered to it, in
    order; the throttled pipeline attached to it is opaque, so a subscription
    is only counted. */
module SignalRegistry {
  import opened Paths

  /** A key is the full path of a top-level child directory. */
  type Key = Path

  datatype Registry = Registry(subjects: map<Key, seq<Key>>, subscriptions: nat)

  /** Both collections as the `using` blocks create them. */
  const Empty: Registry := Registry(map[], 0)

  /** The signals delivered so far to `key`'s subject (none if it has none). */
  function Delivered(reg: Registry, key: Key): seq<Key> {
    if key in reg.subjects then reg.subjects[key] else []
  }

  /** What the registry keeps true: one subscription per subject, and every
      subject has received at least one signal, each carrying its own key. */
  ghost predicate Valid(reg: Registry) {
    && reg.subscriptions == |reg.subjects.Keys|
    && (forall k | k in reg.subjects :: |reg.subjects[k]| > 0)
    && (forall k, i | k in reg.subjects && 0 <= i < |reg.subjects[k]| :: reg.subjects[k][i] == k)
  }

  /** Insert-if-absent, then deliver one signal: a subject and its subscription
      are created only for a key not seen before, and every call passes the
      key itself to that key's subject. */
  function ChildChanged(reg: Registry, key: Key): (reg': Registry)
    ensures reg'.subjects.Keys == reg.subjects.Keys + {key}
    ensures forall k | k in reg.subjects && k != key :: reg'.subjects[k] == reg.subjects[k]
    ensures reg'.subscriptions == reg.subscriptions + (if key in reg.subjects then 0 else 1)
    ensures reg'.subjects[key] == Delivered(reg, key) + [key]
  {
    var created :=
      if key in reg.subjects then reg
      else Registry(reg.subjects[key := []], reg.subscriptions + 1);
    Registry(created.subjects[key := created.subjects[key] + [key]], created.subscriptions)
  }

  lemma ChildChangedPreservesValid(reg: Registry, key: Key)
    requires Valid(reg)
    ensures Valid(ChildChanged(reg, key))
  {
    var reg' := ChildChanged(reg, key);
    if key !in reg.subjects {
      assert reg'.subjects.Keys == reg.subjects.Keys + {key};
      assert |reg'.subjects.Keys| == |reg.subjects.Keys| + 1;
    }
  }

  /** Every key other than the signalled one sees exactly the signals it had
      before; the signalled one sees exactly one more. */
  lemma ChildChangedDeliversOnce(reg: Registry, key: Key, k: Key)
    ensures |Delivered(ChildChanged(reg, key), k)| == |Delivered(reg, k)| + (if k == key then 1 else 0)
  {
  }

  /** A sequence of `ChildChanged` calls, in order. */
  function SignalAll(reg: Registry, keys: seq<Key>): Registry
    decreases |keys|
  {
    if |keys| == 0 then reg
    else ChildChanged(SignalAll(reg, keys[..|keys| - 1]), keys[|keys| - 1])
  }

  /** Signalling one more key after a sequence is one more `ChildChanged`. */
  lemma SignalAllSnoc(reg: Registry, keys: seq<Key>, key: Key)
    ensures SignalAll(reg, keys + [key]) == ChildChanged(SignalAll(reg, keys), key)
  {
    assert (keys + [key])[..|keys|] == keys;
  }

  /** Any sequence of signals keeps the registry valid. */
  lemma {:induction false} SignalAllPreservesValid(reg: Registry, keys: seq<Key>)
    requires Valid(reg)
    ensures Valid(SignalAll(reg, keys))
    decreases |keys|
  {
    if |keys| > 0 {
      SignalAllPreservesValid(reg, keys[..|keys| - 1]);
      ChildChangedPreservesValid(SignalAll(reg, keys[..|keys| - 1]), keys[|keys| - 1]);
    }
  }

  /** Keys are never removed: after a sequence of signals the registry holds
      exactly the keys it held plus the keys seen. */
  lemma {:induction false} SignalAllKeys(reg: Registry, keys: seq<Key>)
    ensures SignalAll(reg, keys).subjects.Keys == reg.subjects.Keys + set k | k in keys
    decreases |keys|
  {
    if |keys| > 0 {
      var init := keys[..|keys| - 1];
      var last := keys[|keys| - 1];
      assert keys == init + [last];
      SignalAllKeys(reg, init);
      assert (set k | k in keys) == (set k | k in init) + {last};
    }
  }

  /** Each key's subject has received one signal per occurrence of the key in
      the sequence, on top of what it had. */
  lemma {:induction false} SignalAllCounts(reg: Registry, keys: seq<Key>, k: Key)
    ensures |Delivered(SignalAll(reg, keys), k)| == |Delivered(reg, k)| + multiset(keys)[k]
    decreases |keys|
  {
    if |keys| > 0 {
      var init := keys[..|keys| - 1];
      var last := keys[|keys| - 1];
      assert keys == init + [last];
      assert multiset(keys) == multiset(init) + multiset{last};
      SignalAllCounts(reg, init, k);
      ChildChangedDeliversOnce(SignalAll(reg, init), last, k);
    }
  }

  /** From the empty registry: one subscription per distinct key seen, and one
      delivered signal per occurrence. */
  lemma FromEmpty(keys: seq<Key>)
    ensures SignalAll(Empty, keys).subscriptions == |set k | k in keys|
    ensures forall k :: |Delivered(SignalAll(Empty, keys), k)| == multiset(keys)[k]
  {
    SignalAllPreservesValid(Empty, keys);
    SignalAllKeys(Empty, keys);
    assert SignalAll(Empty, keys).subjects.Keys == set k | k in keys;
    forall k
      ensures |Delivered(SignalAll(Empty, keys), k)| == multiset(keys)[k]
    {
      SignalAllCounts(Empty, keys, k);
    }
  }
}
