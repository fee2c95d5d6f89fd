/** Serialization of the HAT-trie as a list of blocks, and the round trip. */
module TrieSerial {
  import opened Options
  import opened TrieNode
  import opened TrieOrder
  import opened TrieWalk
  import opened HatTrie

  const SERIALIZATION_PROTOCOL_VERSION := 1

  /** What the serializer writes: numbers, single characters, values; an array hash is one token. A
      call that passes several characters writes one token for each, and none for an empty string. */
  datatype Token<V> =
    | Num(n: nat)
    | Real(x: real)
    | Char(c: Byte)
    | Value(v: V)
    | Bucket(b: seq<Entry<V>>)

  datatype Item<V> = AValue(v: V) | ABucket(b: seq<Entry<V>>)

  /** The value of a trie node, or a whole bucket, with the path of the node. */
  datatype Block<V> = Block(path: Key, item: Item<V>)

  datatype Error = BadVersion | UnknownNodeType | Malformed

  datatype Result<T> = Ok(value: T) | Err(error: Error)

  // ---------- blocks ----------

  /** The blocks of a subtree, with paths relative to it, in walking order. */
  function Blocks<V>(n: Node<V>): seq<Block<V>>
    decreases n, 257
  {
    match n
    case Hash(b) => [Block([], ABucket(b))]
    case Trie(v, _) => (if v.Some? then [Block([], AValue(v.value))] else []) + ChildBlocks(n, 0)
  }

  function ChildBlocks<V>(n: Node<V>, c: nat): seq<Block<V>>
    requires n.Trie? && c <= 256
    decreases n, 256 - c
  {
    if c == 256 then []
    else (if c in n.children then Below([c], Blocks(n.children[c])) else []) + ChildBlocks(n, c + 1)
  }

  /** The blocks with their paths prolonged at the front. */
  function Below<V>(p: Key, bs: seq<Block<V>>): (r: seq<Block<V>>)
    ensures |r| == |bs| && forall i :: 0 <= i < |bs| ==> r[i] == Block(p + bs[i].path, bs[i].item)
  {
    seq(|bs|, i requires 0 <= i < |bs| => Block(p + bs[i].path, bs[i].item))
  }

  function Chars<V>(s: Key): (r: seq<Token<V>>)
    ensures |r| == |s|
  {
    seq(|s|, i requires 0 <= i < |s| => Char(s[i]))
  }

  function Encode<V>(b: Block<V>): seq<Token<V>> {
    match b.item
    case AValue(v) => [Char(0), Num(|b.path|)] + Chars(b.path) + [Value(v)]
    case ABucket(e) => [Char(1), Num(|b.path|)] + Chars(b.path) + [Bucket(e)]
  }

  function EncodeAll<V>(bs: seq<Block<V>>): seq<Token<V>> {
    if bs == [] then [] else EncodeAll(bs[..|bs| - 1]) + Encode(bs[|bs| - 1])
  }

  /** The serialized form of a trie. */
  function Serialized<V>(root: Option<Node<V>>, nbElements: nat, loadFactor: real, threshold: nat): seq<Token<V>> {
    [Num(SERIALIZATION_PROTOCOL_VERSION), Num(nbElements), Real(loadFactor), Num(threshold)]
    + if root.Some? then EncodeAll(Blocks(root.value)) else []
  }

  // ---------- rebuilding a tree ----------

  /** `insert_prefix_trie_nodes` and the assignment after it: puts a value or a bucket at a path,
      creating trie nodes on the way. Meeting a bucket on the way is an error. */
  function Put<V>(o: Option<Node<V>>, p: Key, item: Item<V>): Result<Node<V>>
    decreases |p|
  {
    if p == [] && item.ABucket? then Ok(Hash(item.b))
    else if o.Some? && o.value.Hash? then Err(Malformed)
    else
      var t := if o.Some? then o.value else Trie(None, map[]);
      if p == [] then Ok(Trie(Some(item.v), t.children))
      else
        var r := Put(if p[0] in t.children then Some(t.children[p[0]]) else None, p[1..], item);
        if r.Err? then r else Ok(Trie(t.val, t.children[p[0] := r.value]))
  }

  function PutAll<V>(o: Option<Node<V>>, bs: seq<Block<V>>): Result<Option<Node<V>>>
    decreases |bs|
  {
    if bs == [] then Ok(o)
    else
      var r := Put(o, bs[0].path, bs[0].item);
      if r.Err? then Err(r.error) else PutAll(Some(r.value), bs[1..])
  }

  lemma {:induction false} PutAllAppend<V>(o: Option<Node<V>>, a: seq<Block<V>>, b: seq<Block<V>>)
    ensures PutAll(o, a + b) == var r := PutAll(o, a); if r.Err? then r else PutAll(r.value, b)
    decreases |a|
  {
    if a == [] {
      assert a + b == b;
    } else {
      assert (a + b)[1..] == a[1..] + b;
      var r := Put(o, a[0].path, a[0].item);
      if r.Ok? {
        PutAllAppend(Some(r.value), a[1..], b);
      }
    }
  }

  function ChildOf<V>(ch: map<Byte, Node<V>>, c: Byte): Option<Node<V>> {
    if c in ch then Some(ch[c]) else None
  }

  /** Blocks below one character rebuild just that child. */
  lemma {:induction false} PutAllBelow<V>(v: Option<V>, ch: map<Byte, Node<V>>, c: Byte, bs: seq<Block<V>>)
    requires bs != []
    ensures PutAll(Some(Trie(v, ch)), Below([c], bs)) ==
      var r := PutAll(ChildOf(ch, c), bs);
      if r.Err? then r else if r.value.None? then Err(Malformed) else Ok(Some(Trie(v, ch[c := r.value.value])))
    ensures PutAll(ChildOf(ch, c), bs).Ok? ==> PutAll(ChildOf(ch, c), bs).value.Some?
    decreases |bs|
  {
    var b := bs[0];
    assert ([c] + b.path)[1..] == b.path;
    assert Below([c], bs)[1..] == Below([c], bs[1..]);
    var r := Put(ChildOf(ch, c), b.path, b.item);
    if r.Ok? {
      var ch' := ch[c := r.value];
      assert Put(Some(Trie(v, ch)), [c] + b.path, b.item) == Ok(Trie(v, ch'));
      assert PutAll(Some(Trie(v, ch)), Below([c], bs)) == PutAll(Some(Trie(v, ch')), Below([c], bs[1..]));
      if |bs| > 1 {
        assert ChildOf(ch', c) == Some(r.value);
        PutAllBelow(v, ch', c, bs[1..]);
        var q := PutAll(ChildOf(ch', c), bs[1..]);
        if q.Ok? {
          assert ch'[c := q.value.value] == ch[c := q.value.value];
        }
      } else {
        assert bs[1..] == [] && Below([c], bs[1..]) == [];
      }
    } else {
      assert Put(Some(Trie(v, ch)), [c] + b.path, b.item).Err?;
    }
  }

  /** The children with a character below c. */
  function ChildrenBelow<V>(ch: map<Byte, Node<V>>, c: nat): map<Byte, Node<V>> {
    map d | d in ch && d < c :: ch[d]
  }

  /** A fresh root is as good as an empty trie node, unless a bucket becomes the root. */
  lemma FreshIsEmptyTrie<V>(bs: seq<Block<V>>)
    requires bs != [] && bs[0].path != []
    ensures PutAll(None, bs) == PutAll(Some(Node<V>.Trie(None, map[])), bs)
  {
  }

  lemma {:induction false} BlocksNotEmpty<V>(n: Node<V>)
    requires Wf(n)
    ensures Blocks(n) != []
    decreases n, 257
  {
    if n.Trie? && n.val.None? {
      var c :| c in n.children;
      ChildBlocksNotEmpty(n, 0, c);
    }
  }

  lemma {:induction false} ChildBlocksNotEmpty<V>(n: Node<V>, c: nat, d: Byte)
    requires n.Trie? && Wf(n) && d in n.children && c <= d
    ensures ChildBlocks(n, c) != []
    decreases n, 256 - c
  {
    if c == d {
      BlocksNotEmpty(n.children[d]);
      assert |Below([d], Blocks(n.children[d]))| > 0;
    } else {
      ChildBlocksNotEmpty(n, c + 1, d);
    }
  }

  /** The blocks of a tree rebuild the tree. */
  lemma {:induction false} Rebuild<V>(n: Node<V>)
    requires Wf(n)
    ensures PutAll(None, Blocks(n)) == Ok(Some(n))
    decreases n, 257
  {
    match n
    case Hash(b) =>
      assert Blocks(n)[1..] == [];
    case Trie(v, ch) =>
      RebuildChildren(n, 0);
      assert ChildrenBelow(ch, 0) == map[];
      assert ChildrenBelow(ch, 256) == ch;
      if v.Some? {
        var first := [Block([], AValue(v.value))];
        assert first[1..] == [];
        PutAllAppend(None, first, ChildBlocks(n, 0));
      } else {
        BlocksNotEmpty(n);
        ChildPaths(n, 0);
        assert [] + ChildBlocks(n, 0) == ChildBlocks(n, 0);
        FreshIsEmptyTrie(ChildBlocks(n, 0));
      }
  }

  lemma {:induction false} ChildPaths<V>(n: Node<V>, c: nat)
    requires n.Trie? && c <= 256
    ensures forall i :: 0 <= i < |ChildBlocks(n, c)| ==> ChildBlocks(n, c)[i].path != []
    decreases 256 - c
  {
    if c < 256 {
      ChildPaths(n, c + 1);
    }
  }

  lemma PutNothing<V>(o: Option<Node<V>>)
    ensures PutAll(o, []) == Ok(o)
  {
  }

  lemma {:induction false} RebuildChildren<V>(n: Node<V>, c: nat)
    requires n.Trie? && Wf(n) && c <= 256
    ensures PutAll(Some(Trie(n.val, ChildrenBelow(n.children, c))), ChildBlocks(n, c))
      == Ok(Some(Trie(n.val, ChildrenBelow(n.children, 256))))
    decreases n, 256 - c
  {
    hide Put, PutAll, Lookup, Blocks, Below;
    if c == 256 {
      PutNothing(Some(Trie(n.val, ChildrenBelow(n.children, c))));
    } else {
      RebuildChildren(n, c + 1);
      var ch := ChildrenBelow(n.children, c);
      if c in n.children {
        var b: Byte := c;
        var s := n.children[b];
        Rebuild(s);
        BlocksNotEmpty(s);
        PutAllBelow(n.val, ch, b, Blocks(s));
        assert ChildOf(ch, b) == None;
        assert ch[b := s] == ChildrenBelow(n.children, c + 1);
        PutAllAppend(Some(Trie(n.val, ch)), Below([b], Blocks(s)), ChildBlocks(n, c + 1));
      } else {
        assert ch == ChildrenBelow(n.children, c + 1);
        assert [] + ChildBlocks(n, c + 1) == ChildBlocks(n, c + 1);
      }
    }
  }

  // ---------- counting ----------

  /** What a block adds to the element count. */
  function Count<V>(b: Block<V>): nat {
    match b.item
    case AValue(_) => 1
    case ABucket(e) => |e|
  }

  function Total<V>(bs: seq<Block<V>>): nat {
    if bs == [] then 0 else Count(bs[0]) + Total(bs[1..])
  }

  lemma {:induction false} TotalAppend<V>(a: seq<Block<V>>, b: seq<Block<V>>)
    ensures Total(a + b) == Total(a) + Total(b)
    decreases |a|
  {
    if a == [] {
      assert a + b == b;
    } else {
      assert (a + b)[1..] == a[1..] + b;
      TotalAppend(a[1..], b);
    }
  }

  lemma {:induction false} TotalBelow<V>(p: Key, bs: seq<Block<V>>)
    ensures Total(Below(p, bs)) == Total(bs)
    decreases |bs|
  {
    if bs != [] {
      assert Below(p, bs)[1..] == Below(p, bs[1..]);
      TotalBelow(p, bs[1..]);
    }
  }

  /** The blocks of a tree account for each of its keys. */
  lemma {:induction false} TotalBlocks<V>(n: Node<V>)
    ensures Total(Blocks(n)) == |KeyList(n)|
    decreases n, 257
  {
    match n
    case Hash(b) =>
      assert Blocks(n)[1..] == [];
    case Trie(v, _) =>
      TotalChildBlocks(n, 0);
      if v.Some? {
        var first := [Block([], AValue(v.value))];
        assert first[1..] == [];
        TotalAppend(first, ChildBlocks(n, 0));
      } else {
        assert [] + ChildBlocks(n, 0) == ChildBlocks(n, 0);
      }
  }

  lemma {:induction false} TotalChildBlocks<V>(n: Node<V>, c: nat)
    requires n.Trie? && c <= 256
    ensures Total(ChildBlocks(n, c)) == |ChildKeys(n, c)|
    decreases n, 256 - c
  {
    if c < 256 {
      TotalChildBlocks(n, c + 1);
      if c in n.children {
        TotalBlocks(n.children[c]);
        TotalBelow([c], Blocks(n.children[c]));
        TotalAppend(Below([c], Blocks(n.children[c])), ChildBlocks(n, c + 1));
      } else {
        assert [] + ChildBlocks(n, c + 1) == ChildBlocks(n, c + 1);
      }
    }
  }

  ghost predicate NoneEmpty<V>(bs: seq<Block<V>>) {
    forall i :: 0 <= i < |bs| ==> Count(bs[i]) > 0
  }

  /** No block is empty, because no bucket is. */
  lemma {:induction false} BlocksCount<V>(n: Node<V>)
    requires Wf(n)
    ensures NoneEmpty(Blocks(n))
    decreases n, 257
  {
    if n.Trie? {
      ChildBlocksCount(n, 0);
    }
  }

  lemma {:induction false} ChildBlocksCount<V>(n: Node<V>, c: nat)
    requires n.Trie? && Wf(n) && c <= 256
    ensures NoneEmpty(ChildBlocks(n, c))
    decreases n, 256 - c
  {
    if c < 256 {
      ChildBlocksCount(n, c + 1);
      if c in n.children {
        BlocksCount(n.children[c]);
        assert NoneEmpty(Below([c], Blocks(n.children[c])));
      }
    }
  }

  // ---------- decoding ----------

  /** The string of n characters that the input starts with, if it does. */
  function ReadChars<V>(ts: seq<Token<V>>, n: nat): (r: Option<Key>)
    ensures r.Some? ==> |r.value| == n <= |ts|
  {
    if n > |ts| || exists i :: 0 <= i < n && !ts[i].Char? then None
    else Some(seq(n, i requires 0 <= i < n => ts[i].c))
  }

  /** One block off the front of the input. */
  function DecodeBlock<V>(ts: seq<Token<V>>): (r: Result<Block<V>>)
    ensures r.Ok? ==> BlockSize(r.value) <= |ts|
  {
    if !(|ts| > 0 && ts[0].Char?) then Err(Malformed)
    else if ts[0].c != 0 && ts[0].c != 1 then Err(UnknownNodeType)
    else if !(|ts| > 1 && ts[1].Num?) then Err(Malformed)
    else
      var p := ReadChars(ts[2..], ts[1].n);
      if p.None? || |ts| <= 2 + ts[1].n then Err(Malformed)
      else
        var last := ts[2 + ts[1].n];
        if ts[0].c == 0 && last.Value? then Ok(Block(p.value, AValue(last.v)))
        else if ts[0].c == 1 && last.Bucket? then Ok(Block(p.value, ABucket(last.b)))
        else Err(Malformed)
  }

  /** The number of tokens of a block. */
  function BlockSize<V>(b: Block<V>): nat {
    3 + |b.path|
  }

  datatype Decoded<V> = Decoded(root: Option<Node<V>>, count: nat, rest: seq<Token<V>>)

  /** Blocks are put into the tree as long as the count is below `total`. */
  function DecodeAll<V>(o: Option<Node<V>>, count: nat, total: nat, ts: seq<Token<V>>): Result<Decoded<V>>
    decreases |ts|
  {
    if count >= total then Ok(Decoded(o, count, ts))
    else
      var b := DecodeBlock(ts);
      if b.Err? then Err(b.error)
      else
        var r := Put(o, b.value.path, b.value.item);
        if r.Err? then Err(r.error)
        else DecodeAll(Some(r.value), count + Count(b.value), total, ts[BlockSize(b.value)..])
  }

  lemma {:induction false} EncodeAllFirst<V>(bs: seq<Block<V>>)
    requires bs != []
    ensures EncodeAll(bs) == Encode(bs[0]) + EncodeAll(bs[1..])
    decreases |bs|
  {
    var m := |bs| - 1;
    if m > 0 {
      EncodeAllFirst(bs[..m]);
      assert bs[..m][1..] == bs[1..][..m - 1];
      assert bs[1..][m - 1] == bs[m];
      assert EncodeAll(bs) == (Encode(bs[0]) + EncodeAll(bs[..m][1..])) + Encode(bs[m]);
    }
  }

  lemma ReadWritten<V>(p: Key, ts: seq<Token<V>>)
    ensures ReadChars(Chars(p) + ts, |p|) == Some(p)
  {
    forall i | 0 <= i < |p| ensures (Chars(p) + ts)[i] == Token<V>.Char(p[i]) {
    }
    assert ReadChars(Chars(p) + ts, |p|).value == p;
  }

  lemma DecodeEncode<V>(b: Block<V>, ts: seq<Token<V>>)
    ensures |Encode(b)| == BlockSize(b) && DecodeBlock(Encode(b) + ts) == Ok(b)
      && (Encode(b) + ts)[BlockSize(b)..] == ts
  {
    hide ReadChars, Chars;
    var last: Token<V> := if b.item.AValue? then Value(b.item.v) else Bucket(b.item.b);
    var all := Encode(b) + ts;
    assert all[2..] == Chars(b.path) + ([last] + ts);
    ReadWritten(b.path, [last] + ts);
    assert all[2 + |b.path|] == last;
  }

  /** The settings of a trie that come with the blocks. */
  datatype Settings = Settings(loadFactor: real, threshold: nat)

  /** What a trie becomes when it is read from ts. */
  function Deserialized<V>(ts: seq<Token<V>>): Result<(Decoded<V>, Settings)> {
    if !(|ts| > 0 && ts[0].Num?) then Err(Malformed)
    else if ts[0].n != SERIALIZATION_PROTOCOL_VERSION then Err(BadVersion)
    else if !(|ts| >= 4 && ts[1].Num? && ts[2].Real? && ts[3].Num?) then Err(Malformed)
    else
      var d := DecodeAll(None, 0, ts[1].n, ts[4..]);
      if d.Err? then Err(d.error) else Ok((d.value, Settings(ClampLoadFactor(ts[2].x), ClampThreshold(ts[3].n))))
  }

  lemma NothingToDecode<V>(ts: seq<Token<V>>)
    ensures DecodeAll(None, 0, 0, ts) == Ok(Decoded(None, 0, ts))
  {
  }

  /** Reading back what was written gives the same tree, count and settings, and leaves the rest of
      the input untouched. */
  lemma RoundTrip<V>(root: Option<Node<V>>, loadFactor: real, threshold: nat, rest: seq<Token<V>>)
    requires root.Some? ==> Wf(root.value)
    requires MIN_BURST_THRESHOLD <= threshold <= MAX_BURST_THRESHOLD && loadFactor >= MIN_MAX_LOAD_FACTOR
    ensures Deserialized(Serialized(root, |KeysIn(root)|, loadFactor, threshold) + rest)
      == Ok((Decoded(root, |KeysIn(root)|, rest), Settings(loadFactor, threshold)))
  {
    hide Wf, KeySet, Lookup, DecodeAll, PutAll, EncodeAll, Blocks, NoneEmpty, Total, KeyList;
    var ts := Serialized(root, |KeysIn(root)|, loadFactor, threshold) + rest;
    if root.None? {
      NothingToDecode(rest);
      assert ts[4..] == rest;
    } else {
      var n := root.value;
      Rebuild(n);
      BlocksCount(n);
      TotalBlocks(n);
      KeyListSize(n);
      DecodeEncodeAll(None, 0, Blocks(n), rest);
      assert ts[4..] == EncodeAll(Blocks(n)) + rest;
    }
  }

  // ---------- what can be read ----------

  /** The tokens of a block, one by one: the kind, the length of the path, its characters, and the value
      or the bucket. */
  lemma EncodeIs<V>(b: Block<V>)
    ensures var e, n := Encode(b), |b.path|;
      && |e| == n + 3 && e[0] == Char(if b.item.ABucket? then 1 else 0) && e[1] == Num(n)
      && (forall i :: 0 <= i < n ==> e[2 + i] == Char(b.path[i]))
      && e[n + 2] == if b.item.ABucket? then Bucket(b.item.b) else Value(b.item.v)
  {
  }

  lemma ReadIs<V>(ts: seq<Token<V>>, n: nat)
    requires ReadChars(ts, n).Some?
    ensures ts[..n] == Chars(ReadChars(ts, n).value)
  {
  }

  /** Only what a block is written as is read as that block. */
  lemma DecodeBlockIs<V>(ts: seq<Token<V>>)
    requires DecodeBlock(ts).Ok?
    ensures ts == Encode(DecodeBlock(ts).value) + ts[BlockSize(DecodeBlock(ts).value)..]
  {
    var b := DecodeBlock(ts).value;
    var n := |b.path|;
    ReadIs(ts[2..], n);
    hide ReadChars, Chars;
    assert ts == ts[..2] + ts[2..][..n] + [ts[2 + n]] + ts[3 + n..];
    assert ts[..2] == [Char(if b.item.ABucket? then 1 else 0), Num(n)];
  }

  lemma {:induction false} PutError<V>(o: Option<Node<V>>, p: Key, item: Item<V>)
    ensures Put(o, p, item).Err? ==> Put(o, p, item) == Err(Malformed)
    decreases |p|
  {
    if p != [] && !(o.Some? && o.value.Hash?) {
      var t := if o.Some? then o.value else Trie(None, map[]);
      PutError(if p[0] in t.children then Some(t.children[p[0]]) else None, p[1..], item);
    }
  }

  /** No block comes after the elements are complete. */
  ghost predicate AllDue<V>(bs: seq<Block<V>>, count: nat, total: nat) {
    bs != [] ==> count + Total(bs[..|bs| - 1]) < total
  }

  lemma DueNext<V>(bs: seq<Block<V>>, count: nat, total: nat)
    requires bs != []
    ensures AllDue(bs, count, total) ==> count < total
    ensures count < total ==> (AllDue(bs, count, total) <==> AllDue(bs[1..], count + Count(bs[0]), total))
  {
    var m := |bs| - 1;
    if m > 0 {
      assert bs[..m][1..] == bs[1..][..m - 1] && bs[..m][0] == bs[0];
    }
  }

  /** Where the count is not reached with bs, or just with the last of them, reading goes on behind
      them. */
  lemma {:induction false} DecodeAllOf<V>(o: Option<Node<V>>, count: nat, total: nat, bs: seq<Block<V>>,
                                          ts: seq<Token<V>>)
    requires PutAll(o, bs).Ok? && AllDue(bs, count, total)
    ensures DecodeAll(o, count, total, EncodeAll(bs) + ts)
      == DecodeAll(PutAll(o, bs).value, count + Total(bs), total, ts)
    decreases |bs|
  {
    hide DecodeBlock, Put, Encode, AllDue;
    if bs == [] {
      assert EncodeAll(bs) + ts == ts;
    } else {
      EncodeAllFirst(bs);
      DueNext(bs, count, total);
      DecodeEncode(bs[0], EncodeAll(bs[1..]) + ts);
      assert EncodeAll(bs) + ts == Encode(bs[0]) + (EncodeAll(bs[1..]) + ts);
      var r := Put(o, bs[0].path, bs[0].item);
      DecodeAllOf(Some(r.value), count + Count(bs[0]), total, bs[1..], ts);
    }
  }

  lemma Complete<V>(o: Option<Node<V>>, count: nat, total: nat, ts: seq<Token<V>>)
    requires count >= total
    ensures DecodeAll(o, count, total, ts) == Ok(Decoded(o, count, ts))
  {
  }

  /** The counting loop consumes exactly the blocks that were written. */
  lemma DecodeEncodeAll<V>(o: Option<Node<V>>, count: nat, bs: seq<Block<V>>, ts: seq<Token<V>>)
    requires NoneEmpty(bs) && PutAll(o, bs).Ok?
    ensures DecodeAll(o, count, count + Total(bs), EncodeAll(bs) + ts)
      == Ok(Decoded(PutAll(o, bs).value, count + Total(bs), ts))
  {
    hide DecodeAll, PutAll, EncodeAll;
    if bs != [] {
      var m := |bs| - 1;
      assert bs == bs[..m] + [bs[m]];
      TotalAppend(bs[..m], [bs[m]]);
      assert [bs[m]][1..] == [];
    }
    DecodeAllOf(o, count, count + Total(bs), bs, ts);
    Complete(PutAll(o, bs).value, count + Total(bs), count + Total(bs), ts);
  }

  /** Conversely, reading goes as far as there are such blocks, and ends with the elements complete, or
      with the error of what comes next. */
  lemma {:induction false} DecodeAllIs<V>(o: Option<Node<V>>, count: nat, total: nat, ts: seq<Token<V>>)
      returns (bs: seq<Block<V>>, rest: seq<Token<V>>)
    ensures ts == EncodeAll(bs) + rest && AllDue(bs, count, total) && PutAll(o, bs).Ok?
    ensures var r, n := DecodeAll(o, count, total, ts), count + Total(bs);
      if n >= total then r == Ok(Decoded(PutAll(o, bs).value, n, rest))
      else r.Err? && (if DecodeBlock(rest).Err? then r.error == DecodeBlock(rest).error else r.error == Malformed)
    decreases |ts|
  {
    hide DecodeBlock, DecodeAll, Put, PutAll, Encode, EncodeAll, Total, AllDue;
    bs, rest := [], ts;
    NoBlocks(o, count, total, ts);
    if count >= total {
      Complete(o, count, total, ts);
    } else if DecodeBlock(ts).Err? {
      Fails(o, count, total, ts);
    } else {
      var b := DecodeBlock(ts).value;
      PutError(o, b.path, b.item);
      DecodeStep(o, count, total, ts);
      var r := Put(o, b.path, b.item);
      if r.Ok? {
        DecodeBlockIs(ts);
        bs, rest := DecodeAllIs(Some(r.value), count + Count(b), total, ts[BlockSize(b)..]);
        Prepended(o, b, bs, count, total);
        assert Encode(b) + (EncodeAll(bs) + rest) == (Encode(b) + EncodeAll(bs)) + rest;
        bs := [b] + bs;
      }
    }
  }

  lemma DecodeStep<V>(o: Option<Node<V>>, count: nat, total: nat, ts: seq<Token<V>>)
    requires count < total && DecodeBlock(ts).Ok?
    ensures var b := DecodeBlock(ts).value; var r := Put(o, b.path, b.item);
      DecodeAll(o, count, total, ts) == if r.Err? then Err(r.error)
        else DecodeAll(Some(r.value), count + Count(b), total, ts[BlockSize(b)..])
  {
  }

  lemma NoBlocks<V>(o: Option<Node<V>>, count: nat, total: nat, ts: seq<Token<V>>)
    ensures EncodeAll<V>([]) + ts == ts && AllDue<V>([], count, total) && PutAll(o, []) == Ok(o) && Total<V>([]) == 0
  {
  }

  lemma Prepended<V>(o: Option<Node<V>>, b: Block<V>, bs: seq<Block<V>>, count: nat, total: nat)
    requires count < total && Put(o, b.path, b.item).Ok? && AllDue(bs, count + Count(b), total)
    requires PutAll(Some(Put(o, b.path, b.item).value), bs).Ok?
    ensures PutAll(o, [b] + bs) == PutAll(Some(Put(o, b.path, b.item).value), bs) && AllDue([b] + bs, count, total)
    ensures EncodeAll([b] + bs) == Encode(b) + EncodeAll(bs) && Total([b] + bs) == Count(b) + Total(bs)
  {
    hide Put, Encode, AllDue;
    assert ([b] + bs)[1..] == bs && ([b] + bs)[0] == b;
    EncodeAllFirst([b] + bs);
    DueNext([b] + bs, count, total);
  }

  /** The input is a header, blocks that are all due, and a rest. */
  ghost predicate Starts<V>(ts: seq<Token<V>>, total: nat, x: real, th: nat, bs: seq<Block<V>>, rest: seq<Token<V>>) {
    && ts == [Num(1), Num(total), Real(x), Num(th)] + (EncodeAll(bs) + rest)
    && AllDue(bs, 0, total) && PutAll(None, bs).Ok?
  }

  /** What is read: blocks with at least as many elements as announced; they make the tree. */
  ghost predicate ReadAs<V(!new)>(ts: seq<Token<V>>, root: Option<Node<V>>, n: nat, x: real, th: nat,
                                  rest: seq<Token<V>>) {
    exists total, y, u, bs ::
      && Starts(ts, total, y, u, bs, rest) && Total(bs) >= total
      && PutAll(None, bs).value == root && n == Total(bs) && x == ClampLoadFactor(y) && th == ClampThreshold(u)
  }

  ghost predicate WrongVersion<V>(ts: seq<Token<V>>) {
    ts != [] && ts[0].Num? && ts[0].n != 1
  }

  ghost predicate OddType<V>(ts: seq<Token<V>>) {
    ts != [] && ts[0].Char? && ts[0].c > 1
  }

  /** A node type is due and is neither of the two. */
  ghost predicate UnknownDue<V(!new)>(ts: seq<Token<V>>) {
    exists total, y, u, bs, rest ::
      Starts(ts, total, y, u, bs, rest) && Total(bs) < total && OddType(rest)
  }

  lemma HeaderIs<V>(ts: seq<Token<V>>, total: nat, x: real, th: nat, rest: seq<Token<V>>)
    requires ts == [Num(1), Num(total), Real(x), Num(th)] + rest
    ensures |ts| >= 4 && ts[0] == Num(1) && ts[1] == Num(total) && ts[2] == Real(x) && ts[3] == Num(th)
      && ts[4..] == rest
  {
  }

  /** Nothing else is accepted, and all of it is. */
  lemma ReadIff<V(!new)>(ts: seq<Token<V>>, root: Option<Node<V>>, n: nat, x: real, th: nat, rest: seq<Token<V>>)
    ensures ReadAs(ts, root, n, x, th, rest) <==> Deserialized(ts) == Ok((Decoded(root, n, rest), Settings(x, th)))
  {
    hide DecodeAll, EncodeAll, PutAll, AllDue, Total;
    forall total, y, u, bs | Starts(ts, total, y, u, bs, rest) && Total(bs) >= total
      ensures Deserialized(ts) == Ok((Decoded(PutAll(None, bs).value, Total(bs), rest),
                                      Settings(ClampLoadFactor(y), ClampThreshold(u))))
    {
      HeaderIs(ts, total, y, u, EncodeAll(bs) + rest);
      DecodeAllOf(None, 0, total, bs, rest);
      Complete(PutAll(None, bs).value, Total(bs), total, rest);
    }
    if Deserialized(ts) == Ok((Decoded(root, n, rest), Settings(x, th))) {
      var bs, more := DecodeAllIs(None, 0, ts[1].n, ts[4..]);
      assert ts == [Num(1), ts[1], ts[2], ts[3]] + ts[4..];
      assert Starts(ts, ts[1].n, ts[2].x, ts[3].n, bs, more);
    }
  }

  lemma Fails<V>(o: Option<Node<V>>, count: nat, total: nat, ts: seq<Token<V>>)
    requires count < total && DecodeBlock(ts).Err?
    ensures DecodeAll(o, count, total, ts) == Err(DecodeBlock(ts).error)
  {
  }

  lemma BlockErrors<V>(ts: seq<Token<V>>)
    ensures DecodeBlock(ts) == Err(UnknownNodeType) <==> OddType(ts)
    ensures DecodeBlock(ts) != Err(BadVersion)
  {
  }

  /** The two particular errors, exactly. */
  lemma ErrorsAre<V(!new)>(ts: seq<Token<V>>)
    ensures Deserialized(ts) == Err(BadVersion) <==> WrongVersion(ts)
    ensures Deserialized(ts) == Err(UnknownNodeType) <==> UnknownDue(ts)
  {
    hide DecodeAll, EncodeAll, PutAll, AllDue, Total, DecodeBlock;
    forall total, y, u, bs, rest
      | Starts(ts, total, y, u, bs, rest) && Total(bs) < total && OddType(rest)
      ensures Deserialized(ts) == Err(UnknownNodeType)
    {
      HeaderIs(ts, total, y, u, EncodeAll(bs) + rest);
      DecodeAllOf(None, 0, total, bs, rest);
      BlockErrors(rest);
      Fails(PutAll(None, bs).value, Total(bs), total, rest);
    }
    if |ts| >= 4 && ts[0] == Num(1) && ts[1].Num? && ts[2].Real? && ts[3].Num? {
      var bs, rest := DecodeAllIs(None, 0, ts[1].n, ts[4..]);
      assert ts == [Num(1), ts[1], ts[2], ts[3]] + ts[4..];
      assert Starts(ts, ts[1].n, ts[2].x, ts[3].n, bs, rest);
      BlockErrors(rest);
    }
  }

  // ---------- writing ----------

  /** The block that the walk writes when it arrives at a position. */
  function BlocksAt<V>(root: Node<V>, it: Position): seq<Block<V>>
    requires Stands(root, it) && it != End
  {
    match it
    case AtValue(p) => [Block(p, AValue(ValueAt(root, it)))]
    case AtEntry(p, i) => if i == 0 then [Block(p, ABucket(NodeAt(root, p).bucket))] else []
  }

  ghost function BlocksFrom<V>(root: Node<V>, ps: seq<Position>): seq<Block<V>> {
    if ps == [] then []
    else (if Stands(root, ps[0]) && ps[0] != End then BlocksAt(root, ps[0]) else []) + BlocksFrom(root, ps[1..])
  }

  lemma {:induction false} BlocksFromAppend<V>(root: Node<V>, a: seq<Position>, b: seq<Position>)
    ensures BlocksFrom(root, a + b) == BlocksFrom(root, a) + BlocksFrom(root, b)
    decreases |a|
  {
    hide BlocksAt, Stands;
    if a == [] {
      assert a + b == b;
    } else {
      var here := if Stands(root, a[0]) && a[0] != End then BlocksAt(root, a[0]) else [];
      BlocksFromAppend(root, a[1..], b);
      calc {
        BlocksFrom(root, a + b);
        { assert (a + b)[0] == a[0] && (a + b)[1..] == a[1..] + b; }
        here + BlocksFrom(root, a[1..] + b);
        here + (BlocksFrom(root, a[1..]) + BlocksFrom(root, b));
        BlocksFrom(root, a) + BlocksFrom(root, b);
      }
    }
  }

  /** The other entries of a bucket add nothing to its first. */
  lemma {:induction false} BlocksFromBucket<V>(root: Node<V>, p: Key, from: nat, size: nat)
    requires 1 <= from <= size
    ensures BlocksFrom(root, BucketPositions(p, from, size)) == []
    decreases size - from
  {
    if from < size {
      assert BucketPositions(p, from, size)[1..] == BucketPositions(p, from + 1, size);
      BlocksFromBucket(root, p, from + 1, size);
    }
  }

  lemma {:induction false} BlocksFromPositions<V>(root: Node<V>, p: Key)
    requires ValidPath(root, p) && Wf(NodeAt(root, p))
    ensures BlocksFrom(root, Positions(NodeAt(root, p), p)) == Below(p, Blocks(NodeAt(root, p)))
    decreases NodeAt(root, p), 257
  {
    hide Below, ValidPath, NodeAt, Stands, BucketPositions, BlocksFrom, ChildPositions, ChildBlocks;
    var n := NodeAt(root, p);
    match n
    case Hash(b) =>
      assert b != [];
      BlocksFromHash(root, p);
    case Trie(v, _) =>
      BlocksFromChildren(root, p, 0);
      var pv: seq<Position> := if v.Some? then [AtValue(p)] else [];
      var bv: seq<Block<V>> := if v.Some? then [Block([], AValue(v.value))] else [];
      BlocksFromAppend(root, pv, ChildPositions(n, p, 0));
      BelowAppend(p, bv, ChildBlocks(n, 0));
      BlocksFromValue(root, p);
  }

  lemma BelowAppend<V>(p: Key, a: seq<Block<V>>, b: seq<Block<V>>)
    ensures Below(p, a + b) == Below(p, a) + Below(p, b)
  {
  }

  lemma BlocksFromHash<V>(root: Node<V>, p: Key)
    requires ValidPath(root, p) && NodeAt(root, p).Hash? && NodeAt(root, p).bucket != []
    ensures BlocksFrom(root, Positions(NodeAt(root, p), p)) == Below(p, Blocks(NodeAt(root, p)))
  {
    var b := NodeAt(root, p).bucket;
    var ps := BucketPositions(p, 0, |b|);
    assert ps[1..] == BucketPositions(p, 1, |b|);
    BlocksFromBucket(root, p, 1, |b|);
    assert ps[0] == AtEntry(p, 0) && Stands(root, ps[0]);
    assert p + [] == p;
  }

  lemma BlocksFromValue<V>(root: Node<V>, p: Key)
    requires ValidPath(root, p) && NodeAt(root, p).Trie?
    ensures var v := NodeAt(root, p).val;
      BlocksFrom(root, if v.Some? then [AtValue(p)] else [])
        == Below(p, if v.Some? then [Block([], AValue(v.value))] else [])
  {
    if NodeAt(root, p).val.Some? {
      assert [AtValue(p)][1..] == [];
      assert BlocksFrom(root, [AtValue(p)]) == BlocksAt(root, AtValue(p)) + BlocksFrom(root, []);
      assert p + [] == p;
    }
  }

  lemma BelowBelow<V>(p: Key, q: Key, bs: seq<Block<V>>)
    ensures Below(p, Below(q, bs)) == Below(p + q, bs)
  {
    forall i | 0 <= i < |bs| ensures Below(p, Below(q, bs))[i] == Below(p + q, bs)[i] {
      assert p + (q + bs[i].path) == (p + q) + bs[i].path;
    }
  }

  lemma NoPositions<V>(root: Node<V>)
    ensures BlocksFrom(root, []) == []
  {
  }

  lemma {:induction false} BlocksFromChildren<V>(root: Node<V>, p: Key, c: nat)
    requires ValidPath(root, p) && NodeAt(root, p).Trie? && Wf(NodeAt(root, p)) && c <= 256
    ensures BlocksFrom(root, ChildPositions(NodeAt(root, p), p, c)) == Below(p, ChildBlocks(NodeAt(root, p), c))
    decreases NodeAt(root, p), 256 - c
  {
    hide Below, ValidPath, NodeAt, Stands, BlocksFrom, Blocks, Positions, Lookup;
    var n := NodeAt(root, p);
    if c == 256 {
      assert BlocksFrom(root, []) == [] by { NoPositions(root); }
    } else {
      BlocksFromChildren(root, p, c + 1);
      if c in n.children {
        PathSnoc(root, p, c);
        BlocksFromPositions(root, p + [c]);
        BlocksFromAppend(root, Positions(n.children[c], p + [c]), ChildPositions(n, p, c + 1));
        BelowBelow(p, [c], Blocks(n.children[c]));
        BelowAppend(p, Below([c], Blocks(n.children[c])), ChildBlocks(n, c + 1));
      } else {
        assert [] + ChildPositions(n, p, c + 1) == ChildPositions(n, p, c + 1);
        assert [] + ChildBlocks(n, c + 1) == ChildBlocks(n, c + 1);
      }
    }
  }

  lemma AllBlocks<V>(n: Node<V>)
    requires Wf(n)
    ensures BlocksFrom(n, Positions(n, [])) == Blocks(n)
  {
    BlocksFromPositions(n, []);
    forall i | 0 <= i < |Blocks(n)| ensures Below([], Blocks(n))[i] == Blocks(n)[i] {
      assert [] + Blocks(n)[i].path == Blocks(n)[i].path;
    }
  }

  /** Position it is where the next block is due: all blocks before it have been written. */
  ghost predicate Written<V>(n: Node<V>, out: seq<Block<V>>, it: Position)
    requires Stands(n, it)
  {
    out + BlocksFrom(n, Remaining(n, it)) == Blocks(n)
  }

  lemma WrittenStep<V>(n: Node<V>, out: seq<Block<V>>, it: Position, next: Position)
    requires Stands(n, it) && it != End && Written(n, out, it) && Stands(n, next)
    requires it.AtValue? ==> Remaining(n, next) == Remaining(n, it)[1..]
    requires it.AtEntry? ==> it.index == 0 && Remaining(n, next) == After(n, it.path)
    ensures Written(n, out + BlocksAt(n, it), next)
    ensures |Remaining(n, next)| < |Remaining(n, it)|
  {
    hide BlocksAt, Positions, ChildPositions, After;
    var rem := Remaining(n, it);
    if it.AtEntry? {
      var size := |NodeAt(n, it.path).bucket|;
      BlocksFromAppend(n, BucketPositions(it.path, 0, size), After(n, it.path));
      assert BucketPositions(it.path, 0, size)[1..] == BucketPositions(it.path, 1, size);
      BlocksFromBucket(n, it.path, 1, size);
      assert BlocksFrom(n, BucketPositions(it.path, 0, size)) == BlocksAt(n, it);
    } else {
      assert rem[0] == it;
    }
    assert BlocksFrom(n, rem) == BlocksAt(n, it) + BlocksFrom(n, Remaining(n, next));
    assert (out + BlocksAt(n, it)) + BlocksFrom(n, Remaining(n, next)) == out + BlocksFrom(n, rem);
  }

  /** `serialize_impl`. */
  method Serialize<V>(t: HTrie<V>) returns (out: seq<Token<V>>)
    requires t.Valid()
    ensures out == Serialized(t.root, t.nbElements, t.maxLoadFactor, t.burstThreshold)
  {
    hide Wf, Lookup, KeySet, Positions, Remaining, BlocksFrom, BlocksAt, EncodeAll, Encode, Blocks, Stands, Written,
         NodeAt, After;
    var version := SERIALIZATION_PROTOCOL_VERSION;
    var header := [Num(version), Num(t.nbElements), Real(t.maxLoadFactor), Num(t.burstThreshold)];
    out := header;
    if t.root.None? {
      return;
    }
    var n := t.root.value;
    var it := First(n, []);
    ghost var done: seq<Block<V>> := [];
    WrittenStart(n, it);
    NothingWritten<V>();
    while it != End
      invariant Stands(n, it) && (it.AtEntry? ==> it.index == 0)
      invariant Written(n, done, it) && out == header + EncodeAll(done)
      decreases |Remaining(n, it)|
    {
      var block, next := BlockOf(n, it);
      EncodeNext(done, block);
      out := out + Encode(block);
      WrittenStep(n, done, it, next);
      done := done + [block];
      it := next;
    }
    AllWritten(n, done);
  }

  lemma NothingWritten<V>()
    ensures EncodeAll<V>([]) == []
  {
  }

  lemma EncodeNext<V>(bs: seq<Block<V>>, b: Block<V>)
    ensures EncodeAll(bs + [b]) == EncodeAll(bs) + Encode(b)
  {
    assert (bs + [b])[..|bs|] == bs;
  }

  lemma WrittenStart<V>(n: Node<V>, it: Position)
    requires Wf(n) && Stands(n, it) && Remaining(n, it) == Positions(NodeAt(n, []), []) + After(n, [])
    ensures Written(n, [], it)
  {
    AllBlocks(n);
    assert Positions(n, []) + [] == Positions(n, []);
  }

  lemma AllWritten<V>(n: Node<V>, done: seq<Block<V>>)
    requires Stands(n, End) && Written(n, done, End)
    ensures done == Blocks(n)
  {
  }

  /** The block at an iterator, and the iterator moved past it: `++it` or `skip_hash_node`. */
  method BlockOf<V>(n: Node<V>, it: Position) returns (b: Block<V>, next: Position)
    requires Wf(n) && Stands(n, it) && it != End && (it.AtEntry? ==> it.index == 0)
    ensures BlocksAt(n, it) == [b]
    ensures Stands(n, next) && (next.AtEntry? ==> next.index == 0)
    ensures it.AtValue? ==> Remaining(n, next) == Remaining(n, it)[1..]
    ensures it.AtEntry? ==> Remaining(n, next) == After(n, it.path)
  {
    match it {
      case AtValue(p) =>
        b := Block(p, AValue(ValueAt(n, it)));
        next := Increment(n, it);
      case AtEntry(p, _) =>
        b := Block(p, ABucket(NodeAt(n, p).bucket));
        next := Ascend(n, p);
    }
  }

  // ---------- reading ----------

  lemma {:induction false} PutMeetsBucket<V>(n: Node<V>, q: Key, p: Key, item: Item<V>)
    requires ValidPath(n, q) && NodeAt(n, q).Hash? && q <= p && (item.AValue? || q != p)
    ensures Put(Some(n), p, item) == Err(Malformed)
    decreases |q|
  {
    if q != [] {
      PutMeetsBucket(n.children[q[0]], q[1..], p[1..], item);
    }
  }

  /** The nodes made on the way do not change what is put in the end. */
  lemma {:induction false} PutCreates<V>(n: Node<V>, q: Key, c: Byte, p: Key, item: Item<V>)
    requires ValidPath(n, q) && NodeAt(n, q).Trie? && c !in NodeAt(n, q).children
    requires q + [c] <= p && (item.AValue? || q + [c] != p)
    ensures Put(Some(Update(n, q, WithEmptyChild(NodeAt(n, q), c))), p, item) == Put(Some(n), p, item)
    decreases |q|
  {
    if q == [] {
      assert p[0] == c;
      assert p == [c] + p[1..];
      var r := Put(None, p[1..], item);
      assert Put(Some(Node<V>.Trie(None, map[])), p[1..], item) == r;
      if r.Ok? {
        assert n.children[c := Node<V>.Trie(None, map[])][c := r.value] == n.children[c := r.value];
      }
    } else {
      var d := q[0];
      var s, s' := n.children[d], Update(n.children[d], q[1..], WithEmptyChild(NodeAt(n, q), c));
      assert p[0] == d && (q + [c])[1..] == q[1..] + [c] && q[1..] + [c] <= p[1..];
      assert q + [c] == p <==> q[1..] + [c] == p[1..] by {
        assert p == [d] + p[1..] && q == [d] + q[1..];
      }
      PutCreates(s, q[1..], c, p[1..], item);
      var r := Put(Some(s), p[1..], item);
      if r.Ok? {
        assert n.children[d := s'][d := r.value] == n.children[d := r.value];
      }
    }
  }

  function WithEmptyChild<V>(n: Node<V>, c: Byte): Node<V>
    requires n.Trie?
  {
    Trie(n.val, n.children[c := Trie(None, map[])])
  }

  /** At the end of the way: the assignment to the value, or `set_child`. */
  lemma {:induction false} PutValueAt<V>(n: Node<V>, p: Key, v: V)
    requires ValidPath(n, p) && NodeAt(n, p).Trie?
    ensures Put(Some(n), p, AValue(v)) == Ok(Update(n, p, Trie(Some(v), NodeAt(n, p).children)))
    decreases |p|
  {
    if p != [] {
      PutValueAt(n.children[p[0]], p[1..], v);
    }
  }

  lemma {:induction false} PutBucketAt<V>(n: Node<V>, p: Key, c: Byte, b: seq<Entry<V>>)
    requires ValidPath(n, p) && NodeAt(n, p).Trie?
    ensures var t := NodeAt(n, p);
      Put(Some(n), p + [c], ABucket(b)) == Ok(Update(n, p, Trie(t.val, t.children[c := Hash(b)])))
    decreases |p|
  {
    if p != [] {
      assert (p + [c])[1..] == p[1..] + [c];
      PutBucketAt(n.children[p[0]], p[1..], c, b);
    } else {
      assert (p + [c])[1..] == [];
    }
  }

  /** `insert_prefix_trie_nodes` on the way to putting `item` at p. */
  method InsertPrefixTrieNodes<V>(o: Option<Node<V>>, prefix: Key, ghost p: Key, ghost item: Item<V>)
      returns (r: Result<Node<V>>)
    requires prefix <= p && (item.AValue? || prefix != p)
    ensures r.Err? ==> Put(o, p, item) == Err(r.error)
    ensures r.Ok? ==> (ValidPath(r.value, prefix) && NodeAt(r.value, prefix).Trie?
                       && Put(Some(r.value), p, item) == Put(o, p, item))
  {
    hide Put;
    var n := if o.Some? then o.value else Trie(None, map[]);
    PutFresh<V>(p, item);
    for i := 0 to |prefix|
      invariant ValidPath(n, prefix[..i]) && Put(Some(n), p, item) == Put(o, p, item)
    {
      var q, c := prefix[..i], prefix[i];
      assert prefix[..i + 1] == q + [c];
      if NodeAt(n, q).Hash? {
        PutMeetsBucket(n, q, p, item);
        return Err(Malformed);
      }
      if c !in NodeAt(n, q).children {
        PutCreates(n, q, c, p, item);
        UpdatePath(n, q, WithEmptyChild(NodeAt(n, q), c));
        n := Update(n, q, WithEmptyChild(NodeAt(n, q), c));
      }
      PathSnoc(n, q, c);
    }
    assert prefix[..|prefix|] == prefix;
    if NodeAt(n, prefix).Hash? {
      PutMeetsBucket(n, prefix, p, item);
      return Err(Malformed);
    }
    return Ok(n);
  }

  lemma PutFresh<V>(p: Key, item: Item<V>)
    requires item.AValue? || p != []
    ensures Put(Some(Node<V>.Trie(None, map[])), p, item) == Put(None, p, item)
  {
  }

  /** One round of the reading loop: puts a decoded block into the tree. */
  method PutBlock<V>(o: Option<Node<V>>, b: Block<V>) returns (r: Result<Node<V>>)
    ensures r == Put(o, b.path, b.item)
  {
    match b.item {
      case AValue(v) =>
        r := InsertPrefixTrieNodes(o, b.path, b.path, b.item);
        if r.Ok? {
          PutValueAt(r.value, b.path, v);
          r := Ok(Update(r.value, b.path, Trie(Some(v), NodeAt(r.value, b.path).children)));
        }
      case ABucket(e) =>
        if b.path == [] {
          return Ok(Hash(e));
        }
        var q, c := b.path[..|b.path| - 1], b.path[|b.path| - 1];
        assert b.path == q + [c];
        r := InsertPrefixTrieNodes(o, q, b.path, b.item);
        if r.Ok? {
          PutBucketAt(r.value, q, c, e);
          var t := NodeAt(r.value, q);
          r := Ok(Update(r.value, q, Trie(t.val, t.children[c := Hash(e)])));
        }
    }
  }

  /** `deserialize_impl`, into an empty trie; what is left of the input comes back. */
  method Deserialize<V(!new)>(t: HTrie<V>, ts: seq<Token<V>>) returns (r: Result<seq<Token<V>>>)
    requires t.Valid() && t.nbElements == 0 && t.root == None
    modifies t
    ensures r.Err? <==> Deserialized(ts).Err?
    ensures r.Err? ==> Deserialized(ts) == Err(r.error)
    ensures r.Ok? ==> (Deserialized(ts)
                       == Ok((Decoded(t.root, t.nbElements, r.value), Settings(t.maxLoadFactor, t.burstThreshold))))
    ensures r.Ok? ==> ReadAs(ts, t.root, t.nbElements, t.maxLoadFactor, t.burstThreshold, r.value)
    ensures r.Err? ==> forall root, n, x, th, rest :: !ReadAs(ts, root, n, x, th, rest)
    ensures r == Err(BadVersion) <==> WrongVersion(ts)
    ensures r == Err(UnknownNodeType) <==> UnknownDue(ts)
  {
    hide Put, DecodeBlock, ReadAs, WrongVersion, UnknownDue;
    ErrorsAre(ts);
    forall root, n, x, th, rest
      ensures ReadAs(ts, root, n, x, th, rest) <==> Deserialized(ts) == Ok((Decoded(root, n, rest), Settings(x, th)))
    {
      ReadIff(ts, root, n, x, th, rest);
    }
    if !(|ts| > 0 && ts[0].Num?) {
      return Err(Malformed);
    }
    if ts[0].n != SERIALIZATION_PROTOCOL_VERSION {
      return Err(BadVersion);
    }
    if !(|ts| >= 4 && ts[1].Num? && ts[2].Real? && ts[3].Num?) {
      return Err(Malformed);
    }
    var total := ts[1].n;
    t.burstThreshold := ClampThreshold(ts[3].n);
    t.maxLoadFactor := ClampLoadFactor(ts[2].x);
    var rest := ts[4..];
    while t.nbElements < total
      invariant DecodeAll(t.root, t.nbElements, total, rest) == DecodeAll(None, 0, total, ts[4..])
      invariant t.burstThreshold == ClampThreshold(ts[3].n) && t.maxLoadFactor == ClampLoadFactor(ts[2].x)
      decreases |rest|
    {
      var b := DecodeBlock(rest);
      if b.Err? {
        return Err(b.error);
      }
      var n := PutBlock(t.root, b.value);
      if n.Err? {
        return Err(n.error);
      }
      t.root := Some(n.value);
      t.nbElements := t.nbElements + Count(b.value);
      rest := rest[BlockSize(b.value)..];
    }
    return Ok(rest);
  }

  /** A trie written out and read back into an empty one is the same trie. */
  method CopyThroughStream<V(!new)>(from: HTrie<V>, to: HTrie<V>) returns (rest: Result<seq<Token<V>>>)
    requires from.Valid() && to.Valid() && to.nbElements == 0 && to.root == None && from != to
    modifies to
    ensures to.Valid() && rest == Ok([])
    ensures to.root == from.root && to.nbElements == from.nbElements
    ensures to.burstThreshold == from.burstThreshold && to.maxLoadFactor == from.maxLoadFactor
  {
    var ts := Serialize(from);
    rest := Deserialize(to, ts);
    RoundTrip(from.root, from.maxLoadFactor, from.burstThreshold, []);
    assert ts + [] == ts;
  }
}
