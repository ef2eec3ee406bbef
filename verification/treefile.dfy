/** `save_to_file` / `load_from_file` of `CompleteBTree`, and the vector files
    of the database, as encoders and decoders over byte sequences.

    A tree file is the 8-byte key count followed by one (key, value) pair per
    key in `get_all_keys` order; a vector file is the 8-byte element count
    followed by the elements. Opening, closing and the existence test of the
    file are left to the caller: a missing file is `None`. */
module TreeFile {
  import opened Wrappers
  import opened ByteStrings
  import opened Codec
  import opened BTree
  import opened BTreeProofs

  /** `load_from_file` reads nothing when the stored count exceeds this. */
  const MAX_TREE_COUNT: nat := 1000000
  /** The vector loaders read entries only when the stored count is below this. */
  const MAX_VECTOR_COUNT: nat := 100000

  /** How values of one type are written and read, and which values the
      reader is able to give back (strings and vectors below the codec's
      bounds). */
  datatype ValueCodec<!V> = ValueCodec(write: V -> Bytes, read: Bytes -> Decoded<V>, storable: V -> bool)

  ghost predicate Inverts<V(!new)>(c: ValueCodec<V>)
  {
    forall v: V, rest: Bytes :: c.storable(v) ==> c.read(c.write(v) + rest) == Some((v, rest))
  }

  /** A tree whose file reads back: few enough keys, and every key and value
      within the codec's bounds. */
  ghost predicate TreeFits<V(!new)>(t: Tree<V>, c: ValueCodec<V>)
  {
    var es := Entries(t.root);
    |es| <= MAX_TREE_COUNT && forall i :: 0 <= i < |es| ==> ShortString(es[i].0) && c.storable(es[i].1)
  }

  /** A vector whose file reads back. */
  ghost predicate VectorFits<T(!new)>(xs: seq<T>, c: ValueCodec<T>)
  {
    |xs| < MAX_VECTOR_COUNT && forall i :: 0 <= i < |xs| ==> c.storable(xs[i])
  }

  // ------------------------------------------------------------ pairs

  /** `save_..._pair`: the key with `write_string`, then the value. */
  function WritePair<V(!new)>(c: ValueCodec<V>, k: Key, v: V): (r: Bytes)
    ensures |r| >= 8 + |k| && r[..8 + |k|] == WriteString(k)
  {
    assert (WriteString(k) + c.write(v))[..8 + |k|] == WriteString(k);
    WriteString(k) + c.write(v)
  }

  /** `load_..._pair`: the key with `read_string`, then the value. */
  function ReadPair<V(!new)>(c: ValueCodec<V>, bs: Bytes): (r: Decoded<Entry<V>>)
    ensures |bs| < 8 ==> r.None?
  {
    var k :- ReadString(bs);
    var v :- c.read(k.1);
    Some(((k.0, v.0), v.1))
  }

  lemma PairRoundTrip<V(!new)>(c: ValueCodec<V>, e: Entry<V>, rest: Bytes)
    requires Inverts(c) && ShortString(e.0) && c.storable(e.1)
    ensures ReadPair(c, WritePair(c, e.0, e.1) + rest) == Some((e, rest))
  {
    assert WritePair(c, e.0, e.1) + rest == WriteString(e.0) + (c.write(e.1) + rest);
    StringRoundTrip(e.0, c.write(e.1) + rest);
  }

  function WriteEntries<V(!new)>(es: seq<Entry<V>>, c: ValueCodec<V>): Bytes
  {
    if |es| == 0 then [] else WritePair(c, es[0].0, es[0].1) + WriteEntries(es[1..], c)
  }

  // ------------------------------------------------------------ save

  /** The pair loop of `save_to_file`: each key's value is fetched with
      `search`, and a key whose search throws is skipped. */
  function SavePairs<V(!new)>(t: Tree<V>, ks: seq<Key>, c: ValueCodec<V>): (r: Bytes)
    ensures |ks| == 0 ==> r == []
  {
    if |ks| == 0 then []
    else
      (match Search(t, ks[0])
       case Success(v) => WritePair(c, ks[0], v)
       case Failure(_) => [])
      + SavePairs(t, ks[1..], c)
  }

  /** `save_to_file`: the key count, then the pairs in `get_all_keys` order. */
  function SaveTree<V(!new)>(t: Tree<V>, c: ValueCodec<V>): (r: Bytes)
    ensures |r| >= 8 && r[..8] == WriteU64(GetSize(t))
  {
    var r := WriteU64(GetSize(t)) + SavePairs(t, GetAllKeys(t), c);
    assert r[..8] == WriteU64(GetSize(t));
    r
  }

  // ------------------------------------------------------------ load

  /** The pair loop of `load_from_file`: read a pair, store it, repeat
      `count` times. A read that runs out of input has no defined result. */
  function LoadPairs<V(!new)>(t: Tree<V>, bs: Bytes, count: nat, c: ValueCodec<V>): (r: Option<Tree<V>>)
    requires Good(t)
    ensures r.Some? ==> Good(r.value)
    ensures r.Some? ==> GetSize(t) <= GetSize(r.value) <= GetSize(t) + count
    decreases count
  {
    if count == 0 then Some(t)
    else
      var p :- ReadPair(c, bs);
      PutCorrect(t, p.0.0, p.0.1);
      LoadPairs(Put(t, p.0.0, p.0.1), p.1, count - 1, c)
  }

  /** `load_from_file` into the tree `t`: a missing file and a count above
      `MAX_TREE_COUNT` leave `t` as it is; otherwise the pairs are stored one
      by one. */
  function LoadTree<V(!new)>(t: Tree<V>, file: Option<Bytes>, c: ValueCodec<V>): (r: Option<Tree<V>>)
    requires Good(t)
    ensures r.Some? ==> Good(r.value)
    ensures file.None? ==> r == Some(t)
    ensures file.Some? && |file.value| < 8 ==> r.None?
  {
    match file
    case None => Some(t)
    case Some(bs) =>
      var h :- ReadU64(bs);
      if h.0 > MAX_TREE_COUNT then Some(t) else LoadPairs(t, h.1, h.0, c)
  }

  // ------------------------------------------------------------ round trip

  /** When every key of `es` searches to its own value, the save loop writes
      exactly the pairs of `es`. */
  lemma {:induction false} SavePairsEntries<V(!new)>(t: Tree<V>, es: seq<Entry<V>>, c: ValueCodec<V>)
    requires forall i :: 0 <= i < |es| ==> Search(t, es[i].0) == Success(es[i].1)
    ensures SavePairs(t, KeysOf(es), c) == WriteEntries(es, c)
  {
    if |es| > 0 {
      assert KeysOf(es)[1..] == KeysOf(es[1..]);
      SavePairsEntries(t, es[1..], c);
    }
  }

  /** The file of a sorted tree holds its traversal, pair by pair. */
  lemma SaveTreeLayout<V(!new)>(t: Tree<V>, c: ValueCodec<V>)
    requires Good(t)
    ensures SaveTree(t, c) == WriteU64(GetSize(t)) + WriteEntries(Entries(t.root), c)
  {
    var es := Entries(t.root);
    forall i | 0 <= i < |es|
      ensures Search(t, es[i].0) == Success(es[i].1)
    {
      SearchCorrect(t.root, es[i].0, true);
      LookupSortedAt(es, i);
    }
    SavePairsEntries(t, es, c);
  }

  /** `insert_key` of a key above every key appends the pair. */
  lemma InsertKeyAppends<V(!new)>(s: seq<Entry<V>>, k: Key, v: V)
    requires Below(s, k)
    ensures InsertKey(s, k, v) == s + [(k, v)]
  {
    LowerBoundIs(s, k, |s|);
    assert s[..|s|] == s && s[|s|..] == [];
  }

  /** One turn of the pair loop over the bytes of a written pair. */
  lemma LoadPairsStep<V(!new)>(t: Tree<V>, e: Entry<V>, tail: Bytes, count: nat, c: ValueCodec<V>)
    requires Good(t) && Inverts(c) && ShortString(e.0) && c.storable(e.1) && count > 0
    ensures Good(Put(t, e.0, e.1))
    ensures LoadPairs(t, WritePair(c, e.0, e.1) + tail, count, c) == LoadPairs(Put(t, e.0, e.1), tail, count - 1, c)
  {
    PairRoundTrip(c, e, tail);
    PutCorrect(t, e.0, e.1);
  }

  /** Storing a key above every key of a sorted tree appends its pair to the
      traversal. */
  lemma PutAbove<V(!new)>(t: Tree<V>, e: Entry<V>, es: seq<Entry<V>>)
    requires Good(t) && |es| > 0 && es[0] == e && Sorted(Entries(t.root) + es)
    ensures Good(Put(t, e.0, e.1))
    ensures Entries(Put(t, e.0, e.1).root) + es[1..] == Entries(t.root) + es
  {
    var prev := Entries(t.root);
    PutCorrect(t, e.0, e.1);
    assert Below(prev, e.0) by {
      forall i | 0 <= i < |prev|
        ensures Less(prev[i].0, e.0)
      {
        assert (prev + es)[i] == prev[i] && (prev + es)[|prev|] == e;
      }
    }
    InsertKeyAppends(prev, e.0, e.1);
    assert (prev + [e]) + es[1..] == prev + es;
  }

  /** Loading pairs written in ascending key order after the keys of `t`
      appends them to the traversal of `t`. */
  lemma {:induction false} LoadPairsRoundTrip<V(!new)>(t: Tree<V>, es: seq<Entry<V>>, rest: Bytes, c: ValueCodec<V>)
    requires Good(t) && Inverts(c) && Sorted(Entries(t.root) + es)
    requires forall i :: 0 <= i < |es| ==> ShortString(es[i].0) && c.storable(es[i].1)
    ensures LoadPairs(t, WriteEntries(es, c) + rest, |es|, c).Some?
    ensures Entries(LoadPairs(t, WriteEntries(es, c) + rest, |es|, c).value.root) == Entries(t.root) + es
    decreases |es|
  {
    if |es| == 0 {
      assert WriteEntries(es, c) + rest == rest;
      assert Entries(t.root) + es == Entries(t.root);
    } else {
      var e := es[0];
      var tail := WriteEntries(es[1..], c) + rest;
      assert WriteEntries(es, c) + rest == WritePair(c, e.0, e.1) + tail;
      LoadPairsStep(t, e, tail, |es|, c);
      PutAbove(t, e, es);
      LoadPairsRoundTrip(Put(t, e.0, e.1), es[1..], rest, c);
    }
  }

  /** Loading the bytes `save_to_file` wrote, into an empty tree, gives back
      the same traversal, hence the same keys, size and search answers. */
  lemma SaveLoadTree<V(!new)>(t: Tree<V>, c: ValueCodec<V>)
    requires Good(t) && Inverts(c) && TreeFits(t, c)
    ensures LoadTree(Empty(), Some(SaveTree(t, c)), c).Some?
    ensures var r := LoadTree(Empty(), Some(SaveTree(t, c)), c).value;
      Entries(r.root) == Entries(t.root) && GetAllKeys(r) == GetAllKeys(t) && GetSize(r) == GetSize(t)
    ensures forall k :: Search(LoadTree(Empty(), Some(SaveTree(t, c)), c).value, k) == Search(t, k)
  {
    var es := Entries(t.root);
    var e: Tree<V> := Empty();
    EmptyGood<V>();
    SaveTreeLayout(t, c);
    U64RoundTrip(GetSize(t), WriteEntries(es, c));
    assert Entries(e.root) + es == es;
    LoadPairsRoundTrip(e, es, [], c);
    assert WriteEntries(es, c) + [] == WriteEntries(es, c);
    var r := LoadTree(e, Some(SaveTree(t, c)), c).value;
    forall k
      ensures Search(r, k) == Search(t, k)
    {
      SearchCorrect(t.root, k, true);
      SearchCorrect(r.root, k, true);
    }
  }

  /** A stored count above `MAX_TREE_COUNT` loads nothing. */
  lemma LoadTooManyPairs<V(!new)>(t: Tree<V>, n: nat, rest: Bytes, c: ValueCodec<V>)
    requires Good(t) && MAX_TREE_COUNT < n < TWO64
    ensures LoadTree(t, Some(WriteU64(n) + rest), c) == Some(t)
  {
    U64RoundTrip(n, rest);
  }

  // ------------------------------------------------------------ vectors

  function WriteItems<T(!new)>(xs: seq<T>, c: ValueCodec<T>): Bytes
  {
    if |xs| == 0 then [] else c.write(xs[0]) + WriteItems(xs[1..], c)
  }

  /** `save_hash_table`, `save_graph`, `save_priority_queue`: the element
      count, then each element. */
  function SaveVector<T(!new)>(xs: seq<T>, c: ValueCodec<T>): (r: Bytes)
    ensures |r| >= 8 && r[..8] == WriteU64(|xs|)
  {
    var r := WriteU64(|xs|) + WriteItems(xs, c);
    assert r[..8] == WriteU64(|xs|);
    r
  }

  function ReadItems<T(!new)>(bs: Bytes, count: nat, c: ValueCodec<T>): (r: Decoded<seq<T>>)
    ensures r.Some? ==> |r.value.0| == count
    decreases count
  {
    if count == 0 then Some(([], bs))
    else
      var first :- c.read(bs);
      var others :- ReadItems(first.1, count - 1, c);
      Some(([first.0] + others.0, others.1))
  }

  /** `load_hash_table`, `load_graph`, `load_priority_queue`: a missing file
      or a count of `MAX_VECTOR_COUNT` or more keeps the old vector; otherwise
      the vector becomes exactly the stored elements. */
  function LoadVector<T(!new)>(prev: seq<T>, file: Option<Bytes>, c: ValueCodec<T>): (r: Option<seq<T>>)
    ensures file.None? ==> r == Some(prev)
    ensures r.Some? && r.value != prev ==> |r.value| < MAX_VECTOR_COUNT
  {
    match file
    case None => Some(prev)
    case Some(bs) =>
      var h :- ReadU64(bs);
      if h.0 < MAX_VECTOR_COUNT then
        var items :- ReadItems(h.1, h.0, c);
        Some(items.0)
      else Some(prev)
  }

  lemma {:induction false} ItemsRoundTrip<T(!new)>(xs: seq<T>, rest: Bytes, c: ValueCodec<T>)
    requires Inverts(c) && forall i :: 0 <= i < |xs| ==> c.storable(xs[i])
    ensures ReadItems(WriteItems(xs, c) + rest, |xs|, c) == Some((xs, rest))
  {
    if |xs| == 0 {
      assert WriteItems(xs, c) + rest == rest;
    } else {
      var tail := WriteItems(xs[1..], c) + rest;
      assert WriteItems(xs, c) + rest == c.write(xs[0]) + tail;
      ItemsRoundTrip(xs[1..], rest, c);
      assert [xs[0]] + xs[1..] == xs;
    }
  }

  /** A saved vector below the bound reloads element for element, whatever
      the vector held before. */
  lemma SaveLoadVector<T(!new)>(prev: seq<T>, xs: seq<T>, c: ValueCodec<T>)
    requires Inverts(c) && VectorFits(xs, c)
    ensures LoadVector(prev, Some(SaveVector(xs, c)), c) == Some(xs)
  {
    U64RoundTrip(|xs|, WriteItems(xs, c));
    ItemsRoundTrip(xs, [], c);
    assert WriteItems(xs, c) + [] == WriteItems(xs, c);
  }

  /** A stored count of `MAX_VECTOR_COUNT` or more leaves the vector alone. */
  lemma LoadTooManyItems<T(!new)>(prev: seq<T>, n: nat, rest: Bytes, c: ValueCodec<T>)
    requires MAX_VECTOR_COUNT <= n < TWO64
    ensures LoadVector(prev, Some(WriteU64(n) + rest), c) == Some(prev)
  {
    U64RoundTrip(n, rest);
  }
}
