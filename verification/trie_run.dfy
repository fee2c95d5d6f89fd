/** Whole runs of the HAT-trie. */
module TrieRun {
  import opened Options
  import opened TrieNode
  import opened TrieOrder
  import opened HatTrie

  datatype Op<V> = Insert(key: Key, value: V) | Erase(key: Key) | ErasePrefix(prefix: Key) | Find(key: Key)

  datatype Answer<V> = Inserted(b: bool) | TooLong | Erased(n: nat) | Found(r: Option<V>)

  /** What an operation does to a map whose keys have at most `max` characters. */
  function After<V>(max: nat, m: map<Key, V>, op: Op<V>): map<Key, V> {
    match op
    case Insert(k, v) => if k in m || |k| > max then m else m[k := v]
    case Erase(k) => m - {k}
    case ErasePrefix(p) => map k | k in m && !(p <= k) :: m[k]
    case Find(_) => m
  }

  ghost function Reply<V>(max: nat, m: map<Key, V>, op: Op<V>): Answer<V> {
    match op
    case Insert(k, _) => if |k| > max then TooLong else Inserted(k !in m)
    case Erase(k) => Erased(if k in m then 1 else 0)
    case ErasePrefix(p) => Erased(|WithPrefix(m.Keys, p)|)
    case Find(k) => Found(if k in m then Some(m[k]) else None)
  }

  function FinalMap<V>(max: nat, ops: seq<Op<V>>): map<Key, V> {
    if ops == [] then map[] else After(max, FinalMap(max, ops[..|ops| - 1]), ops[|ops| - 1])
  }

  ghost function Replies<V>(max: nat, ops: seq<Op<V>>): seq<Answer<V>> {
    if ops == [] then []
    else Replies(max, ops[..|ops| - 1]) + [Reply(max, FinalMap(max, ops[..|ops| - 1]), ops[|ops| - 1])]
  }

  /** The keys that have ever been inserted. */
  function Ever<V>(max: nat, ops: seq<Op<V>>): set<Key> {
    if ops == [] then {} else EverAfter(max, Ever(max, ops[..|ops| - 1]), ops[|ops| - 1])
  }

  function EverAfter<V>(max: nat, keys: set<Key>, op: Op<V>): set<Key> {
    if op.Insert? && |op.key| <= max then keys + {op.key} else keys
  }

  lemma {:induction false} EverHas<V>(max: nat, ops: seq<Op<V>>)
    ensures FinalMap(max, ops).Keys <= Ever(max, ops)
    decreases |ops|
  {
    if ops != [] {
      EverHas(max, ops[..|ops| - 1]);
    }
  }

  /** When nothing is removed they are still there. */
  lemma {:induction false} OnlyInsertions<V>(max: nat, ops: seq<Op<V>>)
    requires forall op :: op in ops ==> op.Insert? || op.Find?
    ensures FinalMap(max, ops).Keys == Ever(max, ops)
    decreases |ops|
  {
    if ops != [] {
      OnlyInsertions(max, ops[..|ops| - 1]);
    }
  }

  /** The trie stores exactly m. */
  ghost predicate Stores<V>(o: Option<Node<V>>, m: map<Key, V>) {
    forall k :: LookupIn(o, k) == if k in m then Some(m[k]) else None
  }

  lemma StoredKeys<V>(o: Option<Node<V>>, m: map<Key, V>)
    requires Stores(o, m)
    ensures KeysIn(o) == m.Keys
  {
    forall k ensures k in KeysIn(o) <==> k in m {
      if o.Some? {
        KeySetIs(o.value, k);
      }
      assert LookupIn(o, k) == if k in m then Some(m[k]) else None;
    }
  }

  /** For every sequence of operations from an empty trie the answers are those of a map, in the end
      the trie stores that map and counts its keys, and no bucket is above the threshold; and a trie
      node stands only where at least as many keys as the threshold have been inserted below. */
  method Run<V>(threshold: nat, max: nat, ops: seq<Op<V>>) returns (answers: seq<Answer<V>>, t: HTrie<V>)
    ensures answers == Replies(max, ops) && t.Valid() && Stores(t.root, FinalMap(max, ops))
      && t.nbElements == |FinalMap(max, ops)|
    ensures t.burstThreshold == ClampThreshold(threshold) && BoundedIn(t.root, t.burstThreshold)
    ensures Filled(t.root, Ever(max, ops), t.burstThreshold)
    ensures (forall op :: op in ops ==> op.Insert? || op.Find?) ==> Filled(t.root, KeysIn(t.root), t.burstThreshold)
  {
    hide Stores, BoundedIn, Filled, KeysIn;
    t := new HTrie(threshold, max);
    answers := [];
    EmptyStores<V>();
    for k := 0 to |ops|
      invariant fresh(t) && t.Valid() && t.maxKeySize == max && Stores(t.root, FinalMap(max, ops[..k]))
        && answers == Replies(max, ops[..k])
      invariant t.burstThreshold == ClampThreshold(threshold) && BoundedIn(t.root, t.burstThreshold)
      invariant Filled(t.root, Ever(max, ops[..k]), t.burstThreshold)
    {
      EverHas(max, ops[..k]);
      assert ops[..k + 1][..k] == ops[..k];
      var a := Perform(t, ops[k], FinalMap(max, ops[..k]), Ever(max, ops[..k]));
      answers := answers + [a];
    }
    assert ops[..|ops|] == ops;
    StoredKeys(t.root, FinalMap(max, ops));
    if forall op :: op in ops ==> op.Insert? || op.Find? {
      OnlyInsertions(max, ops);
    }
  }

  lemma EmptyStores<V>()
    ensures Stores<V>(None, map[]) && forall t :: BoundedIn<V>(None, t) && Filled<V>(None, {}, t)
  {
  }

  method Perform<V>(t: HTrie<V>, op: Op<V>, ghost m: map<Key, V>, ghost keys: set<Key>) returns (a: Answer<V>)
    requires t.Valid() && Stores(t.root, m) && BoundedIn(t.root, t.burstThreshold)
    requires m.Keys <= keys && Filled(t.root, keys, t.burstThreshold)
    modifies t
    ensures t.Valid() && Stores(t.root, After(t.maxKeySize, m, op)) && a == Reply(t.maxKeySize, m, op)
    ensures t.burstThreshold == old(t.burstThreshold) && BoundedIn(t.root, t.burstThreshold)
    ensures Filled(t.root, EverAfter(t.maxKeySize, keys, op), t.burstThreshold)
  {
    hide LookupIn, KeysIn, BoundedIn, Filled, BurstsFull;
    ghost var o := t.root;
    match op {
      case Insert(k, v) =>
        StoredKeys(t.root, m);
        var r := t.Insert(k, v);
        InsertFills(o, t.root, keys, EverAfter(t.maxKeySize, keys, op), t.burstThreshold);
        a := if r.KeyTooLong? then TooLong else Inserted(r.inserted);
      case Erase(k) =>
        var n := t.Erase(k);
        RemovalFills(o, t.root, keys, t.burstThreshold);
        a := Erased(n);
      case ErasePrefix(p) =>
        StoredKeys(t.root, m);
        var n := t.ErasePrefix(p);
        RemovalFills(o, t.root, keys, t.burstThreshold);
        a := Erased(n);
      case Find(k) =>
        var it := t.Find(k);
        a := Found(if it == End then None else Some(ValueAt(t.root.value, it)));
    }
  }
}
