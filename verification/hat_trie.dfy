/** The HAT-trie `htrie_hash`. */
module HatTrie {
  import opened Options
  import opened TrieNode
  import opened TrieOrder
  import opened TrieWalk
  import opened TrieAfter

  const MIN_BURST_THRESHOLD := 4
  const MAX_BURST_THRESHOLD := 65535
  const MIN_MAX_LOAD_FACTOR := 0.1
  const DEFAULT_MAX_LOAD_FACTOR := 8.0

  /** The setter `burst_threshold`. */
  function ClampThreshold(t: nat): (r: nat)
    ensures MIN_BURST_THRESHOLD <= r <= MAX_BURST_THRESHOLD
    ensures (r < t ==> r == MAX_BURST_THRESHOLD) && (r > t ==> r == MIN_BURST_THRESHOLD)
  {
    if t < MIN_BURST_THRESHOLD then MIN_BURST_THRESHOLD else if t > MAX_BURST_THRESHOLD then MAX_BURST_THRESHOLD else t
  }

  /** The setter `max_load_factor`. */
  function ClampLoadFactor(ml: real): (r: real)
    ensures r >= MIN_MAX_LOAD_FACTOR && (r != ml ==> ml < MIN_MAX_LOAD_FACTOR && r == MIN_MAX_LOAD_FACTOR)
  {
    if MIN_MAX_LOAD_FACTOR < ml then ml else MIN_MAX_LOAD_FACTOR
  }

  /** What `insert` gives back, or throws for a key that is too long. */
  datatype InsertResult = Done(it: Position, inserted: bool) | KeyTooLong

  ghost function LookupIn<V>(o: Option<Node<V>>, k: Key): Option<V> {
    if o.Some? then Lookup(o.value, k) else None
  }

  ghost function KeysIn<V>(o: Option<Node<V>>): set<Key> {
    if o.Some? then KeySet(o.value) else {}
  }

  /** The tree, or the empty bucket that `insert` starts with. */
  ghost function Whole<V>(o: Option<Node<V>>): Node<V> {
    if o.Some? then o.value else Hash([])
  }

  ghost predicate BoundedIn<V>(o: Option<Node<V>>, t: nat) {
    o.Some? ==> Bounded(o.value, t)
  }

  class HTrie<V> {
    const maxKeySize: nat     // what the type of the key sizes allows
    var root: Option<Node<V>>
    var nbElements: nat
    var burstThreshold: nat
    var maxLoadFactor: real   // of the buckets

    ghost predicate Valid()
      reads this
    {
      && MIN_BURST_THRESHOLD <= burstThreshold <= MAX_BURST_THRESHOLD && maxLoadFactor >= MIN_MAX_LOAD_FACTOR
      && nbElements == |KeysIn(root)|
      && (root.Some? ==> Wf(root.value))
    }

    constructor (threshold: nat, maxKeySize: nat)
      ensures Valid() && root == None && nbElements == 0 && this.maxKeySize == maxKeySize
      ensures burstThreshold == ClampThreshold(threshold) && maxLoadFactor == DEFAULT_MAX_LOAD_FACTOR
    {
      root := None;
      nbElements := 0;
      burstThreshold := ClampThreshold(threshold);
      maxLoadFactor := DEFAULT_MAX_LOAD_FACTOR;
      this.maxKeySize := maxKeySize;
    }

    // ---------- lookup ----------

    /** `find_impl` from the root. */
    method Find(key: Key) returns (it: Position)
      requires Valid()
      ensures it == End <==> LookupIn(root, key).None?
      ensures it != End ==> (root.Some? && Stands(root.value, it) && KeyAt(root.value, it) == key
                             && LookupIn(root, key) == Some(ValueAt(root.value, it)))
    {
      if root.None? {
        return End;
      }
      var n := root.value;
      for i := 0 to |key|
        invariant ValidPath(n, key[..i])
      {
        var cur := NodeAt(n, key[..i]);
        LookupAt(n, key[..i], key);
        match cur {
          case Trie(_, ch) =>
            if key[i] !in ch {
              return End;
            }
            PathSnoc(n, key[..i], key[i]);
            assert key[..i] + [key[i]] == key[..i + 1];
          case Hash(b) =>
            it := FindInBucket(n, key, i);
            return;
        }
      }
      assert key[..|key|] == key && key[|key|..] == [];
      LookupAt(n, key, key);
      if NodeAt(n, key).Hash? {
        it := FindInBucket(n, key, |key|);
      } else {
        it := if NodeAt(n, key).val.Some? then AtValue(key) else End;
      }
    }

    /** `find_in_hash_node` for the bucket at path key[..i]. */
    static method FindInBucket(n: Node<V>, key: Key, i: nat) returns (it: Position)
      requires Wf(n) && i <= |key| && ValidPath(n, key[..i]) && NodeAt(n, key[..i]).Hash?
      ensures it == End <==> Lookup(n, key).None?
      ensures it != End ==> Stands(n, it) && KeyAt(n, it) == key && Lookup(n, key) == Some(ValueAt(n, it))
    {
      var b := NodeAt(n, key[..i]).bucket;
      LookupAt(n, key[..i], key);
      var j := IndexOf(b, key[i..]);
      it := if j < |b| then AtEntry(key[..i], j) else End;
    }

    // ---------- insertion ----------

    /** `insert`: adds the key unless it is present; where it is now, and whether it is new. A key
        that is too long changes nothing. */
    method Insert(key: Key, value: V) returns (r: InsertResult)
      requires Valid()
      modifies this
      ensures Valid() && burstThreshold == old(burstThreshold) && maxLoadFactor == old(maxLoadFactor)
      ensures r.KeyTooLong? <==> |key| > maxKeySize
      ensures r.KeyTooLong? ==> root == old(root) && nbElements == old(nbElements)
      ensures r.Done? ==> root.Some? && r.inserted == LookupIn(old(root), key).None?
      ensures r.Done? ==>
        forall k :: LookupIn(root, k) == if k == key && r.inserted then Some(value) else LookupIn(old(root), k)
      ensures r.Done? ==> nbElements == old(nbElements) + if r.inserted then 1 else 0
      ensures r.Done? ==> Stands(root.value, r.it) && r.it != End && KeyAt(root.value, r.it) == key
      ensures r.Done? ==> LookupIn(root, key) == Some(ValueAt(root.value, r.it))
      ensures BoundedIn(old(root), burstThreshold) ==> BoundedIn(root, burstThreshold)
      ensures BurstsFull(Whole(old(root)), Whole(root), burstThreshold)
    {
      hide KeySet, Wf, Lookup, BurstsFull;
      NoBurst(Whole(root), burstThreshold);
      if |key| > maxKeySize {
        return KeyTooLong;
      }
      if root.None? {
        root := Some(Hash([]));
        EmptyBucket<V>();
      }
      var it, inserted := InsertImpl([], key, value);
      assert [] + key == key;
      return Done(it, inserted);
    }

    /** Trees that `insert_impl` starts from: well-formed, or the empty bucket of a fresh root. */
    static ghost predicate Ready(n: Node<V>) {
      Wf(n) || n == Hash([])
    }

    /** What an insertion under the key `key` makes of the tree n. */
    ghost predicate InsertedInto(n: Node<V>, size: nat, key: Key, value: V, it: Position, inserted: bool)
      reads this
    {
      && root.Some? && Wf(root.value)
      && inserted == Lookup(n, key).None?
      && (if inserted then Differs(n, root.value, key, Some(value)) else SameMap(n, root.value))
      && nbElements == size + (if inserted then 1 else 0)
      && it != End && Stands(root.value, it) && KeyAt(root.value, it) == key
      && Lookup(root.value, key) == Some(ValueAt(root.value, it))
      && (Bounded(n, burstThreshold) ==> Bounded(root.value, burstThreshold))
      && BurstsFull(n, root.value, burstThreshold)
    }

    /** `insert_impl(search_start_node, key)` where the start node stands at path `start`. */
    method InsertImpl(start: Key, key: Key, value: V) returns (it: Position, inserted: bool)
      requires root.Some? && Ready(root.value) && ValidPath(root.value, start)
      requires burstThreshold >= MIN_BURST_THRESHOLD && nbElements == |KeySet(root.value)|
      modifies this
      ensures burstThreshold == old(burstThreshold) && maxLoadFactor == old(maxLoadFactor)
        && nbElements == |KeysIn(root)|
      ensures InsertedInto(old(root.value), old(nbElements), start + key, value, it, inserted)
      decreases |key|, if NodeAt(root.value, start).Trie? then 0 else 2
    {
      hide KeySet, Lookup, Bounded, Wf, Differs, Ready, BurstsFull;
      var n := root.value;
      assert start + key[..0] == start;
      for i := 0 to |key|
        invariant root == Some(n) && unchanged(this)
        invariant ValidPath(n, start + key[..i])
        invariant i == 0 ==> start + key[..i] == start
      {
        var p := start + key[..i];
        match NodeAt(n, p) {
          case Trie(v, ch) =>
            TrieIsWf(n, p);
            if key[i] in ch {
              PathSnoc(n, p, key[i]);
              assert p + [key[i]] == start + key[..i + 1];
            } else {
              var hnode := Hash([Entry(key[i + 1..], value)]);
              var s := Trie(v, ch[key[i] := hnode]);
              AddChild(n, p, v, ch, key[i..], value, burstThreshold);
              assert p + key[i..] == start + key;
              assert p + [key[i]] + key[i + 1..] == start + key;
              root := Some(Update(n, p, s));
              nbElements := nbElements + 1;
              return AtEntry(p + [key[i]], 0), true;
            }
          case Hash(_) =>
            assert p + key[i..] == start + key;
            it, inserted := InsertInHashNode(p, key[i..], value);
            return;
        }
      }
      assert start + key[..|key|] == start + key;
      var p := start + key;
      match NodeAt(n, p) {
        case Trie(v, ch) =>
          TrieIsWf(n, p);
          LookupAt(n, p, p);
          assert p[|p|..] == [] && p + [] == p;
          assert Lookup(Trie(v, ch), []) == v by { LookupEmpty(v, ch); }
          if v.Some? {
            NoBurst(n, burstThreshold);
            return AtValue(p), false;
          }
          AddValue(n, p, v, ch, value, burstThreshold);
          root := Some(Update(n, p, Trie(Some(value), ch)));
          nbElements := nbElements + 1;
          return AtValue(p), true;
        case Hash(_) =>
          assert p + [] == p;
          it, inserted := InsertInHashNode(p, [], value);
      }
    }

    /** `insert_in_hash_node`: bursts a full bucket and starts again below it. */
    method InsertInHashNode(p: Key, key: Key, value: V) returns (it: Position, inserted: bool)
      requires root.Some? && Ready(root.value) && ValidPath(root.value, p) && NodeAt(root.value, p).Hash?
      requires burstThreshold >= MIN_BURST_THRESHOLD && nbElements == |KeySet(root.value)|
      modifies this
      ensures burstThreshold == old(burstThreshold) && maxLoadFactor == old(maxLoadFactor)
        && nbElements == |KeysIn(root)|
      ensures InsertedInto(old(root.value), old(nbElements), p + key, value, it, inserted)
      decreases |key|, 1
    {
      hide KeySet, Lookup, Bounded, BurstsFull;
      var n := root.value;
      var b := NodeAt(n, p).bucket;
      BucketIsDistinct(n, p);
      if |b| >= burstThreshold {
        var s := Burst(b);
        BurstBounded(b, s, burstThreshold);
        ReplaceSame(n, p, s, burstThreshold);
        root := Some(Update(n, p, s));
        BurstIsFull(n, p, s, burstThreshold);
        it, inserted := InsertImpl(p, key, value);
        SameLookup(n, Update(n, p, s), p + key);
        BurstsFullTrans(n, Update(n, p, s), root.value, burstThreshold);
        if inserted {
          SameThenDiffers(n, Update(n, p, s), root.value, p + key, Some(value));
        }
      } else {
        var j := IndexOf(b, key);
        LookupBucket(n, p, key);
        if j < |b| {
          NoBurst(n, burstThreshold);
          return AtEntry(p, j), false;
        }
        AddEntry(n, p, b, key, value, burstThreshold);
        root := Some(Update(n, p, Hash(b + [Entry(key, value)])));
        nbElements := nbElements + 1;
        return AtEntry(p, j), true;
      }
    }

    /** `burst`: distributes a bucket over the children of a new trie node. */
    static method Burst(b: seq<Entry<V>>) returns (n: Node<V>)
      requires Distinct(b) && b != []
      ensures n.Trie? && Wf(n) && SameMap(Hash(b), n) && Bounded(n, |b|) && Buckets(n, |b|)
    {
      hide Lookup, KeySet;
      n := Trie(None, map[]);
      EmptyTrie<V>();
      assert b[..0] == [];
      for i := 0 to |b|
        invariant Buckets(n, i) && SameMap(Hash(b[..i]), n)
      {
        BurstEntry(b, i, n);
        n := BurstStep(n, b[i]);
      }
      assert b[..|b|] == b;
      BurstDone(b, n);
    }

    // ---------- removal ----------

    /** State while an empty node stands at path p and everything else is in order. */
    ghost predicate HasHole(p: Key)
      reads this
    {
      && root.Some? && MIN_BURST_THRESHOLD <= burstThreshold <= MAX_BURST_THRESHOLD
      && maxLoadFactor >= MIN_MAX_LOAD_FACTOR && nbElements == |KeySet(root.value)|
      && WfExcept(root.value, p) && ValidPath(root.value, p) && IsEmptyNode(NodeAt(root.value, p))
    }

    /** `clear_empty_nodes`: removes the empty node at path p, and every ancestor that would become
        empty with it, by moving the empty node up. */
    method ClearEmptyNodes(p: Key)
      requires HasHole(p)
      modifies this
      ensures Valid() && burstThreshold == old(burstThreshold) && maxLoadFactor == old(maxLoadFactor)
        && nbElements == old(nbElements)
      ensures forall k :: LookupIn(root, k) == LookupIn(old(root), k)
      ensures Continues(old(root).value, root, old(After(root.value, p))) && NoBigger(old(root), root)
      decreases |p|
    {
      hide KeySet, Lookup, Wf, WfExcept, After, Continues, NoBigger;
      var n := root.value;
      if p == [] {
        EmptyMap(n);
        root := None;
        assert After(n, p) == [] by { AtEnd(n); }
        GoneContinues(n, After(n, p));
        NoBiggerNone(Some(n));
        return;
      }
      var q, c := p[..|p| - 1], p[|p| - 1];
      assert p == q + [c];
      PathInit(n, q, c);
      WfExceptInit(n, q, c);
      var v, ch := NodeAt(n, q).val, NodeAt(n, q).children;
      if v.Some? || |ch| > 1 {
        DropAt(n, q, v, ch, c);
        root := Some(Update(n, q, Trie(v, ch - {c})));
        DropContinues(n, q, c);
        NoBiggerTrie(v, v, ch, c);
        NoBiggerUpdate(n, q, Trie(v, ch - {c}));
      } else if q == [] {
        OnlyChild(v, ch, c);
        EmptyMap(ch[c]);
        SameKeys(n, ch[c]);
        root := None;
        NothingAfterOnly(n, q, c);
        assert After(n, q) == [] by { AtEnd(n); }
        GoneContinues(n, After(n, p));
        NoBiggerNone(Some(n));
      } else {
        MoveUp(n, q, v, ch, c);
        root := Some(Update(n, q, ch[c]));
        ghost var u := root.value;
        NothingAfterOnly(n, q, c);
        AfterUpdate(n, q, ch[c]);
        AllOutside(n, q, ch[c]);
        NoBiggerTrie(v, v, ch, c);
        NoBiggerUpdate(n, q, ch[c]);
        ClearEmptyNodes(q);
        ContinuesTrans(n, u, root, After(n, p));
        NoBiggerTrans(Some(n), Some(u), root);
      }
    }

    /** `erase(iterator)`: removes the key; gives back an iterator to the next one. */
    method EraseAt(it: Position) returns (next: Position)
      requires Valid() && root.Some? && it != End && Stands(root.value, it)
      modifies this
      ensures Valid() && burstThreshold == old(burstThreshold) && maxLoadFactor == old(maxLoadFactor)
        && nbElements == old(nbElements) - 1
      ensures forall k :: LookupIn(root, k) == if k == KeyAt(old(root).value, it) then None else LookupIn(old(root), k)
      ensures NextKey(old(root).value, it, root, next) && NoBigger(old(root), root)
    {
      hide KeySet, Lookup, Wf, WfExcept, After, Continues, NextKey, Remaining, ChildPositions, NoBigger;
      var n := root.value;
      next := Increment(n, it);
      RemainingSplit(n, it);
      match it {
        case AtValue(p) =>
          var ch := NodeAt(n, p).children;
          var s := Trie(None, ch);
          RemoveValue(n, p);
          assert p + [] == p;
          root := Some(Update(n, p, s));
          nbElements := nbElements - 1;
          ghost var u := root.value;
          NoBiggerTrie(NodeAt(n, p).val, None, ch, 0);
          NoBiggerUpdate(n, p, s);
          NoBiggerNone(Some(u));
          if ch == map[] {
            NoMoreChildren(NodeAt(n, p), p, 0);
            assert ChildPositions(NodeAt(n, p), p, 0) + After(n, p) == After(n, p);
            AfterUpdate(n, p, s);
            AllOutside(n, p, s);
            ClearEmptyNodes(p);
            ContinuesTrans(n, u, root, After(n, p));
          } else {
            StaysWf(n, p, s);
            ValueContinues(n, p);
          }
          NoBiggerTrans(Some(n), Some(u), root);
          NextAfterRemoval(n, it, root, ChildPositions(NodeAt(n, p), p, 0) + After(n, p), next);
        case AtEntry(p, i) =>
          var b := NodeAt(n, p).bucket;
          var s := Hash(b[..i] + b[i + 1..]);
          RemoveEntry(n, p, i);
          root := Some(Update(n, p, s));
          nbElements := nbElements - 1;
          ghost var u := root.value;
          NoBiggerBucket(b, s.bucket);
          NoBiggerUpdate(n, p, s);
          NoBiggerNone(Some(u));
          if i + 1 < |b| {
            // The entries behind it move up.
            StaysWf(n, p, s);
            NextInBucket(n, p, i);
            return AtEntry(p, i);
          }
          AfterUpdate(n, p, s);
          AllOutside(n, p, s);
          if |b| == 1 {
            ClearEmptyNodes(p);
          } else {
            StaysWf(n, p, s);
            AfterHead(u, p);
            OutsideContinues(n, u, p);
          }
          ContinuesTrans(n, u, root, After(n, p));
          NoBiggerTrans(Some(n), Some(u), root);
          NextAfterRemoval(n, it, root, After(n, p), next);
      }
    }

    /** `erase(key)`: the number of elements removed. */
    method Erase(key: Key) returns (n: nat)
      requires Valid()
      modifies this
      ensures Valid() && burstThreshold == old(burstThreshold) && maxLoadFactor == old(maxLoadFactor)
      ensures n == if LookupIn(old(root), key).Some? then 1 else 0
      ensures forall k :: LookupIn(root, k) == if k == key then None else LookupIn(old(root), k)
      ensures NoBigger(old(root), root)
    {
      hide KeySet, Lookup, Wf, NoBigger;
      var it := Find(key);
      if it == End {
        NoBiggerNone(root);
        return 0;
      }
      var next := EraseAt(it);
      return 1;
    }

    /** `erase_prefix`: removes the keys that start with the prefix; their number. */
    method ErasePrefix(prefix: Key) returns (nb: nat)
      requires Valid()
      modifies this
      ensures Valid() && burstThreshold == old(burstThreshold) && maxLoadFactor == old(maxLoadFactor)
      ensures forall k :: LookupIn(root, k) == if prefix <= k then None else LookupIn(old(root), k)
      ensures nb == |WithPrefix(KeysIn(old(root)), prefix)| && NoBigger(old(root), root)
    {
      hide KeySet, Lookup, Wf, WfExcept, After, Continues, NoBigger, WithPrefix, WithoutPrefix;
      NoBiggerNone(root);
      if root.None? {
        NoneWith(prefix);
        return 0;
      }
      var n := root.value;
      for i := 0 to |prefix|
        invariant ValidPath(n, prefix[..i]) && unchanged(this)
      {
        var p := prefix[..i];
        match NodeAt(n, p) {
          case Trie(_, ch) =>
            if prefix[i] !in ch {
              assert p + [prefix[i]] <= prefix;
              NothingBelow(n, p, prefix[i], prefix);
              WithoutKeys(n, n, prefix);
              SameWithout(n, prefix);
              return 0;
            }
            PathSnoc(n, p, prefix[i]);
            assert p + [prefix[i]] == prefix[..i + 1];
          case Hash(_) =>
            assert p + prefix[i..] == prefix;
            nb := ErasePrefixHashNode(p, prefix[i..]);
            return;
        }
      }
      assert prefix[..|prefix|] == prefix;
      if NodeAt(n, prefix).Trie? {
        if prefix == [] {
          nb := nbElements;
          AllGone(n);
          root := None;
          nbElements := 0;
        } else {
          nb := EraseSubtree(prefix);
        }
      } else {
        nb := EraseBucket(prefix);
      }
    }

    /** The case of a trie node below the root. */
    method EraseSubtree(p: Key) returns (nb: nat)
      requires Valid() && root.Some? && p != [] && ValidPath(root.value, p) && NodeAt(root.value, p).Trie?
      modifies this
      ensures Valid() && burstThreshold == old(burstThreshold) && maxLoadFactor == old(maxLoadFactor)
      ensures forall k :: LookupIn(root, k) == if p <= k then None else LookupIn(old(root), k)
      ensures nb == |WithPrefix(KeysIn(old(root)), p)| && NoBigger(old(root), root)
    {
      hide KeySet, Lookup, Wf, WfExcept, After, Continues, NoBigger, WithPrefix;
      var n := root.value;
      var q, c := p[..|p| - 1], p[|p| - 1];
      assert p == q + [c];
      KeysBelow(n, p);
      WfAt(n, p);
      nb := SizeDescendants(n, p);
      PathInit(n, q, c);
      var v, ch := NodeAt(n, q).val, NodeAt(n, q).children;
      var s := Trie(v, ch - {c});
      RemoveSubtree(n, q, c);
      root := Some(Update(n, q, s));
      nbElements := nbElements - nb;
      ghost var u := root;
      NoBiggerTrie(v, v, ch, c);
      NoBiggerUpdate(n, q, s);
      NoBiggerNone(u);
      if v.None? && ch - {c} == map[] {
        ClearEmptyNodes(q);
      } else {
        StaysWf(n, q, s);
      }
      NoBiggerTrans(Some(n), u, root);
    }

    /** The case of a bucket at the end of the prefix. */
    method EraseBucket(p: Key) returns (nb: nat)
      requires Valid() && root.Some? && ValidPath(root.value, p) && NodeAt(root.value, p).Hash?
      modifies this
      ensures Valid() && burstThreshold == old(burstThreshold) && maxLoadFactor == old(maxLoadFactor)
      ensures forall k :: LookupIn(root, k) == if p <= k then None else LookupIn(old(root), k)
      ensures nb == |WithPrefix(KeysIn(old(root)), p)| && NoBigger(old(root), root)
    {
      hide KeySet, Lookup, Wf, WfExcept, After, Continues, NoBigger, WithPrefix;
      var n := root.value;
      nb := |NodeAt(n, p).bucket|;
      RemoveBucket(n, p);
      root := Some(Update(n, p, Hash([])));
      nbElements := nbElements - nb;
      ghost var u := root;
      NoBiggerBucket(NodeAt(n, p).bucket, []);
      NoBiggerUpdate(n, p, Hash([]));
      ClearEmptyNodes(p);
      NoBiggerTrans(Some(n), u, root);
    }

    /** `erase_prefix_hash_node` for the bucket at path p. */
    method ErasePrefixHashNode(p: Key, f: Key) returns (nb: nat)
      requires Valid() && root.Some? && ValidPath(root.value, p) && NodeAt(root.value, p).Hash?
      modifies this
      ensures Valid() && burstThreshold == old(burstThreshold) && maxLoadFactor == old(maxLoadFactor)
      ensures forall k :: LookupIn(root, k) == if p + f <= k then None else LookupIn(old(root), k)
      ensures nb == |WithPrefix(KeysIn(old(root)), p + f)| && NoBigger(old(root), root)
    {
      hide KeySet, Lookup, Wf, WfExcept, Filtered, After, Continues, NoBigger;
      var n := root.value;
      var b := NodeAt(n, p).bucket;
      var size := nbElements;
      nb := 0;
      var c, i := b, 0;
      FilterStart(n, p, f);
      while i < |c|
        invariant Filtered(b, c, f, i) && i <= |c| && nb + |c| == |b|
        invariant nbElements == size - nb && root == Some(n) && burstThreshold == old(burstThreshold)
          && maxLoadFactor == old(maxLoadFactor)
        invariant |b| <= size
        decreases |c| - i
      {
        FilterStep(b, c, f, i);
        if f <= c[i].key {
          c := c[..i] + c[i + 1..];
          nb := nb + 1;
          nbElements := nbElements - 1;
        } else {
          i := i + 1;
        }
      }
      FilterBucket(n, p, c, f);
      root := Some(Update(n, p, Hash(c)));
      ghost var u := root;
      NoBiggerBucket(b, c);
      NoBiggerUpdate(n, p, Hash(c));
      NoBiggerNone(u);
      if c == [] {
        ClearEmptyNodes(p);
      } else {
        StaysWf(n, p, Hash(c));
      }
      NoBiggerTrans(Some(n), u, root);
    }
  }

  // ---------- what follows a removed key ----------

  lemma GoneContinues<V>(n: Node<V>, a: seq<Position>)
    requires a == []
    ensures Continues(n, None, a)
  {
  }

  lemma DropContinues<V>(n: Node<V>, q: Key, c: Byte)
    requires ValidPath(n, q) && NodeAt(n, q).Trie? && c in NodeAt(n, q).children && ValidPath(n, q + [c])
    requires Wf(Update(n, q, Trie(NodeAt(n, q).val, NodeAt(n, q).children - {c})))
    ensures Continues(n, Some(Update(n, q, Trie(NodeAt(n, q).val, NodeAt(n, q).children - {c}))), After(n, q + [c]))
  {
    hide Wf, After, StartsAt, Unmoved, Update;
    AfterDrop(n, q, c);
  }

  /** What follows an only child follows its parent. */
  lemma NothingAfterOnly<V>(n: Node<V>, q: Key, c: Byte)
    requires ValidPath(n, q) && NodeAt(n, q).Trie? && c in NodeAt(n, q).children && |NodeAt(n, q).children| <= 1
    ensures ValidPath(n, q + [c]) && After(n, q + [c]) == After(n, q)
  {
    hide After, ValidPath, NodeAt, ChildPositions;
    var t := NodeAt(n, q);
    var e: nat := c;
    AfterSnoc(n, q, c);
    OnlyKey(t.children, c);
    assert forall d :: e + 1 <= d < 256 ==> d !in t.children.Keys;
    NoMoreChildren(t, q, e + 1);
    assert [] + After(n, q) == After(n, q);
  }

  lemma OnlyKey<V>(ch: map<Byte, Node<V>>, c: Byte)
    requires c in ch && |ch| <= 1
    ensures ch.Keys == {c}
  {
    if exists d :: d in ch.Keys && d != c {
      var d :| d in ch.Keys && d != c;
      SubsetSize({c, d}, ch.Keys);
    }
  }

  lemma OutsideContinues<V>(n: Node<V>, u: Node<V>, p: Key)
    requires ValidPath(u, p) && StartsAt(u, After(u, p))
    ensures Continues(u, Some(u), After(u, p))
  {
    forall i | 0 <= i < |After(u, p)| ensures SameKey(u, u, After(u, p)[i]) {
      AfterOutside(u, p, i);
    }
  }

  lemma RemainingSplit<V>(n: Node<V>, it: Position)
    requires Stands(n, it) && it != End
    ensures it.AtValue? ==>
      Remaining(n, it) == [it] + (ChildPositions(NodeAt(n, it.path), it.path, 0) + After(n, it.path))
    ensures it.AtEntry? && it.index + 1 == |NodeAt(n, it.path).bucket| ==> Remaining(n, it) == [it] + After(n, it.path)
  {
    hide After, ChildPositions;
  }

  // ---------- facts behind removal ----------

  lemma NoneWith(p: Key)
    ensures WithPrefix({}, p) == {}
  {
  }

  lemma AllGone<V>(n: Node<V>)
    ensures WithPrefix(KeySet(n), []) == KeySet(n)
  {
  }

  /** No bucket grows, and no trie node is made. */
  ghost predicate NoBigger<V>(o: Option<Node<V>>, o': Option<Node<V>>) {
    && (forall t: nat :: BoundedIn(o, t) ==> BoundedIn(o', t))
    && (o'.Some? ==> o.Some? && NoMoreTries(o.value, o'.value))
  }

  lemma NoBiggerUpdate<V>(n: Node<V>, p: Key, s: Node<V>)
    requires ValidPath(n, p) && NoBigger(Some(NodeAt(n, p)), Some(s))
    ensures NoBigger(Some(n), Some(Update(n, p, s)))
  {
    NoMoreTriesUpdate(n, p, s);
    hide NoMoreTries;
    forall t: nat | Bounded(n, t) ensures Bounded(Update(n, p, s), t) {
      BoundedAt(n, p, t);
      assert BoundedIn(Some(NodeAt(n, p)), t) && BoundedIn(Some(s), t);
      BoundedUpdate(n, p, s, t);
    }
  }

  lemma NoBiggerTrie<V>(v: Option<V>, w: Option<V>, ch: map<Byte, Node<V>>, c: Byte)
    ensures NoBigger(Some(Trie(v, ch)), Some(Trie(w, ch - {c}))) && NoBigger(Some(Trie(v, ch)), Some(Trie(w, ch)))
    ensures c in ch && IsEmptyNode(ch[c]) ==> NoBigger(Some(Trie(v, ch)), Some(ch[c]))
  {
    var s := Trie(w, ch - {c});
    forall p | IsTrieAt(s, p) ensures IsTrieAt(Trie(v, ch), p) {
      if p != [] {
        assert s.children[p[0]] == ch[p[0]];
      }
    }
    BucketChild(v, ch, w, c, []);
  }

  lemma NoBiggerBucket<V>(b: seq<Entry<V>>, c: seq<Entry<V>>)
    requires |c| <= |b|
    ensures NoBigger(Some(Hash(b)), Some(Hash(c)))
  {
    NoTries(Hash(b), c);
  }

  lemma NoBiggerNone<V>(o: Option<Node<V>>)
    ensures NoBigger(o, None) && NoBigger(o, o)
  {
  }

  lemma NoBiggerTrans<V>(a: Option<Node<V>>, b: Option<Node<V>>, c: Option<Node<V>>)
    requires NoBigger(a, b) && NoBigger(b, c)
    ensures NoBigger(a, c)
  {
    hide BoundedIn;
  }

  lemma EmptyMap<V>(n: Node<V>)
    requires IsEmptyNode(n)
    ensures KeySet(n) == {} && forall k :: Lookup(n, k) == None
  {
  }

  lemma DropAt<V>(n: Node<V>, q: Key, v: Option<V>, ch: map<Byte, Node<V>>, c: Byte)
    requires ValidPath(n, q) && NodeAt(n, q) == Trie(v, ch) && c in ch && IsEmptyNode(ch[c])
    requires WfExcept(n, q) && WfExcept(Trie(v, ch), [c]) && (v.Some? || |ch| > 1)
    ensures var u := Update(n, q, Trie(v, ch - {c})); Wf(u) && SameMap(n, u) && KeySet(u) == KeySet(n)
  {
    DropChild(v, ch, c);
    WfUpdate(n, q, Trie(v, ch - {c}));
    UpdateSame(n, q, Trie(v, ch - {c}));
    SameKeys(n, Update(n, q, Trie(v, ch - {c})));
  }

  lemma MoveUp<V>(n: Node<V>, q: Key, v: Option<V>, ch: map<Byte, Node<V>>, c: Byte)
    requires ValidPath(n, q) && NodeAt(n, q) == Trie(v, ch) && c in ch && IsEmptyNode(ch[c])
    requires WfExcept(n, q) && v.None? && |ch| <= 1
    ensures var u := Update(n, q, ch[c]);
      && WfExcept(u, q) && ValidPath(u, q) && NodeAt(u, q) == ch[c] && SameMap(n, u) && KeySet(u) == KeySet(n)
  {
    OnlyChild(v, ch, c);
    WfUpdate(n, q, ch[c]);
    UpdatePath(n, q, ch[c]);
    UpdateSame(n, q, ch[c]);
    SameKeys(n, Update(n, q, ch[c]));
  }

  /** After a change at p the tree has a hole there, or is well-formed again. */
  lemma StaysWf<V>(n: Node<V>, p: Key, s: Node<V>)
    requires Wf(n) && ValidPath(n, p) && Wf(s)
    ensures Wf(Update(n, p, s))
  {
    WfAt(n, p);
    WfUpdate(n, p, s);
  }

  lemma HoleAt<V>(n: Node<V>, p: Key, s: Node<V>)
    requires Wf(n) && ValidPath(n, p)
    ensures var u := Update(n, p, s); WfExcept(u, p) && ValidPath(u, p) && NodeAt(u, p) == s
  {
    WfAt(n, p);
    WfUpdate(n, p, s);
    UpdatePath(n, p, s);
  }

  lemma RemoveValue<V>(n: Node<V>, p: Key)
    requires Wf(n) && ValidPath(n, p) && NodeAt(n, p).Trie? && NodeAt(n, p).val.Some?
    ensures var s := Trie(None, NodeAt(n, p).children); var u := Update(n, p, s);
      && Differs(n, u, p, None) && |KeySet(u)| == |KeySet(n)| - 1
      && WfExcept(u, p) && ValidPath(u, p) && NodeAt(u, p) == s && (s.children != map[] ==> Wf(s))
  {
    var v, ch := NodeAt(n, p).val, NodeAt(n, p).children;
    assert Differs(Trie(v, ch), Trie(None, ch), [], None);
    WfAt(n, p);
    UpdateDiffers(n, p, Trie(None, ch), [], None);
    assert p + [] == p;
    LookupAt(n, p, p);
    DiffersKeys(n, Update(n, p, Trie(None, ch)), p, None);
    HoleAt(n, p, Trie(None, ch));
  }

  lemma RemoveEntry<V>(n: Node<V>, p: Key, i: nat)
    requires Wf(n) && ValidPath(n, p) && NodeAt(n, p).Hash? && i < |NodeAt(n, p).bucket|
    ensures var b := NodeAt(n, p).bucket; var s := Hash(b[..i] + b[i + 1..]); var u := Update(n, p, s);
      && Differs(n, u, p + b[i].key, None) && |KeySet(u)| == |KeySet(n)| - 1
      && WfExcept(u, p) && ValidPath(u, p) && NodeAt(u, p) == s && (s.bucket != [] ==> Wf(s))
  {
    var b := NodeAt(n, p).bucket;
    var s := Hash(b[..i] + b[i + 1..]);
    WfAt(n, p);
    assert Differs(Hash(b), s, b[i].key, None) by {
      forall k ensures Get(s.bucket, k) == if k == b[i].key then None else Get(b, k) {
        GetRemove(b, i, k);
      }
    }
    GetRemove(b, i, []);
    GetAt(b, i);
    hide Differs, Wf, KeySet;
    UpdateDiffers(n, p, s, b[i].key, None);
    assert (p + b[i].key)[|p|..] == b[i].key;
    LookupAt(n, p, p + b[i].key);
    DiffersKeys(n, Update(n, p, s), p + b[i].key, None);
    HoleAt(n, p, s);
  }

  lemma SameWithout<V>(n: Node<V>, q: Key)
    requires WithoutPrefix(n, n, q)
    ensures forall k :: Lookup(n, k) == if q <= k then None else Lookup(n, k)
    ensures |WithPrefix(KeySet(n), q)| == 0
  {
    WithoutKeys(n, n, q);
  }

  lemma ChildWithout<V>(v: Option<V>, ch: map<Byte, Node<V>>, c: Byte)
    ensures WithoutPrefix(Trie(v, ch), Trie(v, ch - {c}), [c])
  {
    forall k ensures Lookup(Trie(v, ch - {c}), k) == if [c] <= k then None else Lookup(Trie(v, ch), k) {
      assert [c] <= k <==> k != [] && k[0] == c;
    }
  }

  lemma RemoveSubtree<V>(n: Node<V>, q: Key, c: Byte)
    requires Wf(n) && ValidPath(n, q + [c]) && ValidPath(n, q) && NodeAt(n, q).Trie? && c in NodeAt(n, q).children
    ensures var s := Trie(NodeAt(n, q).val, NodeAt(n, q).children - {c}); var u := Update(n, q, s);
      && WithoutPrefix(n, u, q + [c]) && |KeySet(u)| == |KeySet(n)| - |WithPrefix(KeySet(n), q + [c])|
      && WfExcept(u, q) && ValidPath(u, q) && NodeAt(u, q) == s && (s.val.Some? || s.children != map[] ==> Wf(s))
  {
    var v, ch := NodeAt(n, q).val, NodeAt(n, q).children;
    var s := Trie(v, ch - {c});
    WfAt(n, q);
    ChildWithout(v, ch, c);
    hide WithoutPrefix, KeySet, Lookup;
    UpdateWithout(n, q, s, [c]);
    WithoutKeys(n, Update(n, q, s), q + [c]);
    HoleAt(n, q, s);
  }

  lemma RemoveBucket<V>(n: Node<V>, p: Key)
    requires Wf(n) && ValidPath(n, p) && NodeAt(n, p).Hash?
    ensures var u := Update(n, p, Hash([]));
      && WithoutPrefix(n, u, p) && |KeySet(u)| == |KeySet(n)| - |NodeAt(n, p).bucket|
      && |WithPrefix(KeySet(n), p)| == |NodeAt(n, p).bucket|
      && WfExcept(u, p) && ValidPath(u, p) && NodeAt(u, p) == Hash([])
  {
    var b := NodeAt(n, p).bucket;
    WfAt(n, p);
    assert WithoutPrefix(Hash(b), Hash([]), []);
    hide WithoutPrefix, KeySet;
    UpdateWithout(n, p, Hash([]), []);
    assert p + [] == p;
    WithoutKeys(n, Update(n, p, Hash([])), p);
    KeysBelow(n, p);
    BucketKeys(b);
    HoleAt(n, p, Hash([]));
  }

  lemma FilterStart<V>(n: Node<V>, p: Key, f: Key)
    requires Wf(n) && ValidPath(n, p) && NodeAt(n, p).Hash?
    ensures var b := NodeAt(n, p).bucket; Filtered(b, b, f, 0) && |b| <= |KeySet(n)|
  {
    WfAt(n, p);
    BucketKeys(NodeAt(n, p).bucket);
    KeysBelow(n, p);
    SubsetSize(WithPrefix(KeySet(n), p), KeySet(n));
  }

  lemma FilterBucket<V>(n: Node<V>, p: Key, c: seq<Entry<V>>, f: Key)
    requires Wf(n) && ValidPath(n, p) && NodeAt(n, p).Hash? && Filtered(NodeAt(n, p).bucket, c, f, |c|)
    ensures var u := Update(n, p, Hash(c));
      && WithoutPrefix(n, u, p + f) && |KeySet(u)| == |KeySet(n)| - |NodeAt(n, p).bucket| + |c|
      && |WithPrefix(KeySet(n), p + f)| == |NodeAt(n, p).bucket| - |c|
      && WfExcept(u, p) && ValidPath(u, p) && NodeAt(u, p) == Hash(c) && (c != [] ==> Wf(Hash(c)))
  {
    var b := NodeAt(n, p).bucket;
    WfAt(n, p);
    FilterDone(b, c, f);
    BucketKeys(b);
    BucketKeys(c);
    hide WithoutPrefix, KeySet, Filtered;
    UpdateWithout(n, p, Hash(c), f);
    UpdateSize(n, p, Hash(c));
    WithoutKeys(n, Update(n, p, Hash(c)), p + f);
    HoleAt(n, p, Hash(c));
  }

  // ---------- facts behind insertion ----------

  lemma EmptyBucket<V>()
    ensures KeySet(Node<V>.Hash([])) == {} && forall k :: Lookup(Node<V>.Hash([]), k) == None
    ensures forall t: nat :: Bounded(Node<V>.Hash([]), t)
  {
  }

  lemma EmptyTrie<V>()
    ensures Buckets(Node<V>.Trie(None, map[]), 0) && SameMap(Node<V>.Hash([]), Trie(None, map[]))
  {
  }

  lemma LookupEmpty<V>(v: Option<V>, ch: map<Byte, Node<V>>)
    ensures Lookup(Trie(v, ch), []) == v
  {
  }

  lemma TrieIsWf<V>(n: Node<V>, p: Key)
    requires HTrie<V>.Ready(n) && ValidPath(n, p) && NodeAt(n, p).Trie?
    ensures Wf(n) && Wf(NodeAt(n, p)) && WfExcept(n, p)
  {
    WfAt(n, p);
  }

  lemma BucketIsDistinct<V>(n: Node<V>, p: Key)
    requires HTrie<V>.Ready(n) && ValidPath(n, p) && NodeAt(n, p).Hash?
    ensures Distinct(NodeAt(n, p).bucket) && WfExcept(n, p)
  {
    if Wf(n) {
      WfAt(n, p);
    }
  }

  lemma SameLookup<V>(n: Node<V>, n': Node<V>, k: Key)
    requires SameMap(n, n')
    ensures Lookup(n, k) == Lookup(n', k) && KeySet(n) == KeySet(n')
  {
    SameKeys(n, n');
  }

  lemma LookupBucket<V>(n: Node<V>, p: Key, key: Key)
    requires ValidPath(n, p) && NodeAt(n, p).Hash?
    ensures Lookup(n, p + key) == Get(NodeAt(n, p).bucket, key)
  {
    assert (p + key)[|p|..] == key;
    LookupAt(n, p, p + key);
  }

  /** A local change that adds one key is a change of the whole tree that adds one key. */
  lemma AddAt<V>(n: Node<V>, p: Key, s: Node<V>, key: Key, value: V, t: nat)
    requires ValidPath(n, p) && WfExcept(n, p) && Wf(s)
    requires Differs(NodeAt(n, p), s, key, Some(value)) && Lookup(NodeAt(n, p), key) == None
    ensures var u := Update(n, p, s);
      && Wf(u) && ValidPath(u, p) && NodeAt(u, p) == s && Differs(n, u, p + key, Some(value))
      && Lookup(n, p + key) == None && |KeySet(u)| == |KeySet(n)| + 1
      && (Bounded(n, t) && Bounded(s, t) ==> Bounded(u, t))
      && (NoMoreTries(NodeAt(n, p), s) ==> BurstsFull(n, u, t))
  {
    assert (p + key)[|p|..] == key;
    LookupAt(n, p, p + key);
    WfUpdate(n, p, s);
    UpdatePath(n, p, s);
    UpdateDiffers(n, p, s, key, Some(value));
    DiffersKeys(n, Update(n, p, s), p + key, Some(value));
    if Bounded(n, t) && Bounded(s, t) {
      BoundedUpdate(n, p, s, t);
    }
    if NoMoreTries(NodeAt(n, p), s) {
      NoMoreTriesUpdate(n, p, s);
    }
  }

  lemma AddChild<V>(n: Node<V>, p: Key, v: Option<V>, ch: map<Byte, Node<V>>, key: Key, value: V, t: nat)
    requires ValidPath(n, p) && WfExcept(n, p) && NodeAt(n, p) == Trie(v, ch) && Wf(Trie(v, ch))
    requires key != [] && key[0] !in ch && t >= 1
    ensures var u := Update(n, p, Trie(v, ch[key[0] := Hash([Entry(key[1..], value)])]));
      && Wf(u) && Differs(n, u, p + key, Some(value)) && Lookup(n, p + key) == None && |KeySet(u)| == |KeySet(n)| + 1
      && ValidPath(u, p + [key[0]]) && NodeAt(u, p + [key[0]]) == Hash([Entry(key[1..], value)])
      && (Bounded(n, t) ==> Bounded(u, t)) && Lookup(u, p + key) == Some(value) && BurstsFull(n, u, t)
  {
    hide KeySet, Lookup, Wf, WfExcept, Update, BurstsFull, NoMoreTries;
    BucketChild(v, ch, v, key[0], [Entry(key[1..], value)]);
    var s := Trie(v, ch[key[0] := Hash([Entry(key[1..], value)])]);
    NewChild(v, ch, key, value);
    AddAt(n, p, s, key, value, t);
    PathSnoc(Update(n, p, s), p, key[0]);
    if Bounded(n, t) {
      BoundedAt(n, p, t);
      forall c | c in s.children ensures Bounded(s.children[c], t) {
        assert c == key[0] || s.children[c] == ch[c];
      }
      assert Bounded(s, t);
    }
  }

  lemma AddValue<V>(n: Node<V>, p: Key, v: Option<V>, ch: map<Byte, Node<V>>, value: V, t: nat)
    requires ValidPath(n, p) && WfExcept(n, p) && NodeAt(n, p) == Trie(v, ch) && Wf(Trie(v, ch)) && v.None?
    ensures var u := Update(n, p, Trie(Some(value), ch));
      && Wf(u) && Differs(n, u, p, Some(value)) && Lookup(n, p) == None && |KeySet(u)| == |KeySet(n)| + 1
      && ValidPath(u, p) && NodeAt(u, p) == Trie(Some(value), ch)
      && (Bounded(n, t) ==> Bounded(u, t)) && Lookup(u, p) == Some(value) && BurstsFull(n, u, t)
  {
    hide BurstsFull, NoMoreTries;
    BucketChild(v, ch, Some(value), 0, []);
    NewValue(v, ch, value);
    AddAt(n, p, Trie(Some(value), ch), [], value, t);
    assert p + [] == p;
    if Bounded(n, t) {
      BoundedAt(n, p, t);
    }
  }

  lemma AddEntry<V>(n: Node<V>, p: Key, b: seq<Entry<V>>, key: Key, value: V, t: nat)
    requires ValidPath(n, p) && WfExcept(n, p) && NodeAt(n, p) == Hash(b) && Distinct(b) && IndexOf(b, key) == |b| < t
    ensures var u := Update(n, p, Hash(b + [Entry(key, value)]));
      && Wf(u) && Differs(n, u, p + key, Some(value)) && Lookup(n, p + key) == None && |KeySet(u)| == |KeySet(n)| + 1
      && ValidPath(u, p) && NodeAt(u, p) == Hash(b + [Entry(key, value)])
      && (Bounded(n, t) ==> Bounded(u, t)) && BurstsFull(n, u, t)
  {
    hide BurstsFull, NoMoreTries;
    NoTries(NodeAt(n, p), b + [Entry(key, value)]);
    NewEntry(b, key, value);
    AddAt(n, p, Hash(b + [Entry(key, value)]), key, value, t);
  }

  lemma ReplaceSame<V>(n: Node<V>, p: Key, s: Node<V>, t: nat)
    requires ValidPath(n, p) && WfExcept(n, p) && Wf(s) && SameMap(NodeAt(n, p), s)
    requires Bounded(NodeAt(n, p), t) ==> Bounded(s, t)
    ensures var u := Update(n, p, s);
      && Wf(u) && SameMap(n, u) && KeySet(u) == KeySet(n) && ValidPath(u, p) && NodeAt(u, p) == s
      && (Bounded(n, t) ==> Bounded(u, t))
  {
    WfUpdate(n, p, s);
    UpdatePath(n, p, s);
    UpdateSame(n, p, s);
    SameKeys(n, Update(n, p, s));
    if Bounded(n, t) {
      BoundedAt(n, p, t);
      BoundedUpdate(n, p, s, t);
    }
  }

  lemma BurstEntry<V>(b: seq<Entry<V>>, i: nat, n: Node<V>)
    requires Distinct(b) && i < |b| && Buckets(n, i) && SameMap(Hash(b[..i]), n)
    ensures Buckets(BurstStep(n, b[i]), i + 1) && SameMap(Hash(b[..i + 1]), BurstStep(n, b[i]))
  {
    var a, e := b[..i], b[i];
    assert b[..i + 1] == a + [e];
    assert IndexOf(a, e.key) == |a|;
    assert Lookup(n, e.key) == Lookup(Hash(a), e.key) == None;
    BurstStepIs(n, e, i);
    forall k ensures Lookup(BurstStep(n, e), k) == Lookup(Hash(a + [e]), k) {
      GetAppend(a, e, k);
      assert Lookup(n, k) == Lookup(Hash(a), k);
    }
  }

  /** Where n' has a trie node that n has not, n has at least t keys below. */
  ghost predicate BurstsFull<V>(n: Node<V>, n': Node<V>, t: nat) {
    forall p :: IsTrieAt(n', p) && !IsTrieAt(n, p) ==> |WithPrefix(KeySet(n), p)| >= t
  }

  lemma NoBurst<V>(n: Node<V>, t: nat)
    ensures BurstsFull(n, n, t)
  {
  }

  /** A full bucket that bursts is one such place. */
  lemma BurstIsFull<V>(n: Node<V>, p: Key, s: Node<V>, t: nat)
    requires ValidPath(n, p) && NodeAt(n, p).Hash? && Distinct(NodeAt(n, p).bucket) && |NodeAt(n, p).bucket| >= t
    requires Buckets(s, |NodeAt(n, p).bucket|)
    ensures BurstsFull(n, Update(n, p, s), t)
  {
    KeysBelow(n, p);
    BucketKeys(NodeAt(n, p).bucket);
    hide KeySet, Update, NodeAt, ValidPath;
    forall q | IsTrieAt(Update(n, p, s), q) && !IsTrieAt(n, q) ensures q == p {
      TrieAtUpdate(n, p, s, q);
      if p <= q && q != p {
        OnlyBuckets(s, |NodeAt(n, p).bucket|, q[|p|..]);
      }
    }
  }

  lemma OnlyBuckets<V>(s: Node<V>, k: nat, r: Key)
    requires Buckets(s, k) && r != []
    ensures !IsTrieAt(s, r)
  {
    if r[0] in s.children {
      var child := s.children[r[0]];
      assert child.Hash? && (ValidPath(child, r[1..]) ==> NodeAt(child, r[1..]) == child);
    }
  }

  lemma BurstsFullTrans<V>(a: Node<V>, b: Node<V>, c: Node<V>, t: nat)
    requires BurstsFull(a, b, t) && BurstsFull(b, c, t) && KeySet(a) == KeySet(b)
    ensures BurstsFull(a, c, t)
  {
    hide KeySet, IsTrieAt;
  }

  /** Every trie node stands above at least t of the keys. */
  ghost predicate Filled<V>(o: Option<Node<V>>, keys: set<Key>, t: nat) {
    forall p :: IsTrieAt(Whole(o), p) ==> |WithPrefix(keys, p)| >= t
  }

  lemma WithPrefixGrows(s: set<Key>, s': set<Key>, p: Key)
    requires s <= s'
    ensures |WithPrefix(s, p)| <= |WithPrefix(s', p)|
  {
    SubsetSize(WithPrefix(s, p), WithPrefix(s', p));
  }

  /** An insertion keeps that, of the keys that have been there. */
  lemma InsertFills<V>(o: Option<Node<V>>, o': Option<Node<V>>, keys: set<Key>, keys': set<Key>, t: nat)
    requires Filled(o, keys, t) && BurstsFull(Whole(o), Whole(o'), t) && KeysIn(o) <= keys <= keys'
    ensures Filled(o', keys', t)
  {
    hide KeySet, IsTrieAt, WithPrefix;
    assert KeySet(Whole(o)) <= keys by { EmptyBucket<V>(); }
    forall p | IsTrieAt(Whole(o'), p) ensures |WithPrefix(keys', p)| >= t {
      WithPrefixGrows(keys, keys', p);
      WithPrefixGrows(KeySet(Whole(o)), keys, p);
    }
  }

  /** So does a removal. */
  lemma RemovalFills<V>(o: Option<Node<V>>, o': Option<Node<V>>, keys: set<Key>, t: nat)
    requires Filled(o, keys, t) && NoBigger(o, o')
    ensures Filled(o', keys, t)
  {
    hide WithPrefix, BoundedIn;
    forall p | IsTrieAt(Whole(o'), p) ensures |WithPrefix(keys, p)| >= t {
      assert IsTrieAt(Whole(o), p);
    }
  }

  lemma BurstBounded<V>(b: seq<Entry<V>>, s: Node<V>, t: nat)
    requires Bounded(s, |b|)
    ensures Bounded(Hash(b), t) ==> Bounded(s, t)
  {
    if |b| <= t {
      BoundedMonotone(s, |b|, t);
    }
  }

  lemma BurstDone<V>(b: seq<Entry<V>>, n: Node<V>)
    requires b != [] && Distinct(b) && Buckets(n, |b|) && SameMap(Hash(b), n)
    ensures Wf(n) && Bounded(n, |b|)
  {
    GetAt(b, 0);
    assert Lookup(n, b[0].key) == Lookup(Hash(b), b[0].key) == Some(b[0].value);
  }
}
