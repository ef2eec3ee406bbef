/** `CompleteBTree<std::string, V>`: an order-3 B-tree whose nodes hold at most
    five (key, value) pairs and which splits a full node eagerly, before it
    descends into it.

    The functions here follow the C++ member functions branch for branch,
    including the way `insert` treats a key that is already present (see
    `Insert` and `Put`). Proofs about them are in module BTreeProofs. */
module BTree {
  import opened Wrappers
  import opened ByteStrings

  type Key = Bytes
  type Entry<V> = (Key, V)

  const ORDER: nat := 3
  /** Keys kept in each half of a split, and the index of the median. */
  const MIN_KEYS: nat := ORDER - 1
  const MAX_KEYS: nat := 2 * ORDER - 1

  /** `BTreeNode`: the `is_leaf` flag, the ordered pairs and the owned children. */
  datatype Node<V> = Node(leaf: bool, entries: seq<Entry<V>>, children: seq<Node<V>>)

  /** The tree object owns its root; a fresh tree has an empty leaf root. */
  datatype Tree<V> = Tree(root: Node<V>)

  function EmptyLeaf<V>(): (n: Node<V>)
    ensures n.leaf && n.entries == [] && n.children == []
  {
    Node(true, [], [])
  }

  function Empty<V>(): (t: Tree<V>)
    ensures t.root == EmptyLeaf()
  {
    Tree(EmptyLeaf())
  }

  // ------------------------------------------------------------ sequences of pairs

  function KeysOf<V>(s: seq<Entry<V>>): (r: seq<Key>)
    ensures |r| == |s| && forall i :: 0 <= i < |s| ==> r[i] == s[i].0
  {
    seq(|s|, i requires 0 <= i < |s| => s[i].0)
  }

  /** Keys strictly ascending: the order invariant of a tree's in-order traversal. */
  ghost predicate Sorted<V>(s: seq<Entry<V>>)
  {
    forall i, j :: 0 <= i < j < |s| ==> Less(s[i].0, s[j].0)
  }

  /** The value stored with the first occurrence of `k`. */
  function Lookup<V>(s: seq<Entry<V>>, k: Key): (r: Option<V>)
    ensures r.Some? <==> k in KeysOf(s)
  {
    if |s| == 0 then None
    else if s[0].0 == k then Some(s[0].1)
    else
      assert KeysOf(s) == [s[0].0] + KeysOf(s[1..]);
      Lookup(s[1..], k)
  }

  /** `find_key_position`: the first position whose key is not below `k`
      (`key <= keys[i].first` is `!(keys[i].first < key)` for a total order). */
  function LowerBound<V>(s: seq<Entry<V>>, k: Key): (r: nat)
    ensures r <= |s|
    ensures forall j :: 0 <= j < r ==> Less(s[j].0, k)
    ensures r < |s| ==> !Less(s[r].0, k)
  {
    if |s| == 0 then 0
    else if Less(s[0].0, k) then 1 + LowerBound(s[1..], k)
    else 0
  }

  /** `insert_key`: overwrite the pair at the lower bound when its key is `k`,
      otherwise insert a new pair there. */
  function InsertKey<V>(s: seq<Entry<V>>, k: Key, v: V): (r: seq<Entry<V>>)
    ensures |r| == |s| || |r| == |s| + 1
    ensures LowerBound(s, k) < |r| && r[LowerBound(s, k)] == (k, v)
  {
    var p := LowerBound(s, k);
    if p < |s| && s[p].0 == k then s[p := (k, v)] else s[..p] + [(k, v)] + s[p..]
  }

  /** The descent index of `insert_non_full`: scanning from the right, one past
      the last key that is not greater than `k`. */
  function UpperBound<V>(s: seq<Entry<V>>, k: Key): (r: nat)
    ensures r <= |s|
    ensures forall j :: r <= j < |s| ==> Less(k, s[j].0)
    ensures r > 0 ==> !Less(k, s[r - 1].0)
  {
    if |s| == 0 then 0
    else if Less(k, s[|s| - 1].0) then UpperBound(s[..|s| - 1], k)
    else |s|
  }

  /** Values of the pairs whose key lies in `[lo, hi]`, in sequence order. */
  function FilterValues<V>(s: seq<Entry<V>>, lo: Key, hi: Key): (r: seq<V>)
    ensures |r| <= |s|
  {
    if |s| == 0 then []
    else
      (if !Less(s[0].0, lo) && !Less(hi, s[0].0) then [s[0].1] else [])
      + FilterValues(s[1..], lo, hi)
  }

  // ------------------------------------------------------------ shape

  /** `get_height`: the length of the leftmost path. */
  function Height<V>(n: Node<V>): (h: nat)
    ensures h >= 1
  {
    if n.leaf || |n.children| == 0 then 1 else 1 + Height(n.children[0])
  }

  /** The node shape `insert` maintains: at most five pairs, at least two except
      at the root, a leaf has no children, an internal node has one child more
      than it has pairs, and every child is one level lower. */
  ghost predicate WF<V>(n: Node<V>, isRoot: bool)
    decreases n
  {
    && |n.entries| <= MAX_KEYS
    && (!isRoot ==> |n.entries| >= MIN_KEYS)
    && (n.leaf <==> |n.children| == 0)
    && (!n.leaf ==> |n.children| == |n.entries| + 1)
    && forall i :: 0 <= i < |n.children| ==>
         Height(n.children[i]) + 1 == Height(n) && WF(n.children[i], false)
  }

  ghost predicate Valid<V>(t: Tree<V>)
  {
    WF(t.root, true)
  }

  /** The invariant every tree built by `Put` keeps: well formed, and the
      traversal strictly ascending (so no key is stored twice). */
  ghost predicate Good<V>(t: Tree<V>)
  {
    Valid(t) && Sorted(Entries(t.root))
  }

  // ------------------------------------------------------------ in-order traversal

  /** The pairs of `n` in the order `get_all_keys` visits them: child 0, pair 0,
      child 1, pair 1, ..., last child. */
  function Entries<V>(n: Node<V>): seq<Entry<V>>
    decreases n
  {
    Weave(n.leaf, n.entries, n.children)
  }

  /** The traversal loop over `entries` with the matching children; a child is
      visited only when the node is internal and the child exists. */
  function Weave<V>(leaf: bool, es: seq<Entry<V>>, cs: seq<Node<V>>): seq<Entry<V>>
    decreases cs, |es|
  {
    var first := if !leaf && 0 < |cs| then Entries(cs[0]) else [];
    if |es| == 0 then first
    else first + [es[0]] + Weave(leaf, es[1..], if |cs| > 0 then cs[1..] else [])
  }

  // ------------------------------------------------------------ split and insert

  lemma WFNonRoot<V>(n: Node<V>)
    requires WF(n, false)
    ensures WF(n, true)
  {
  }

  /** The part of a full node that stays in place when it splits. */
  function LowerHalf<V>(c: Node<V>): Node<V>
    requires |c.entries| == MAX_KEYS && (c.leaf || |c.children| == MAX_KEYS + 1)
  {
    Node(c.leaf, c.entries[..MIN_KEYS], if c.leaf then c.children else c.children[..MIN_KEYS + 1])
  }

  /** The part of a full node that moves to the new right sibling. */
  function UpperHalf<V>(c: Node<V>): Node<V>
    requires |c.entries| == MAX_KEYS && (c.leaf || |c.children| == MAX_KEYS + 1)
  {
    Node(c.leaf, c.entries[MIN_KEYS + 1..], if c.leaf then [] else c.children[MIN_KEYS + 1..])
  }

  /** `split_child`: the full child `i` keeps its first two pairs, a new right
      sibling takes the last two, and the median moves up into the parent via
      `insert_key`. */
  function SplitChild<V>(p: Node<V>, i: nat): (r: Node<V>)
    requires i < |p.children|
    requires |p.children[i].entries| == MAX_KEYS
    requires p.children[i].leaf || |p.children[i].children| == MAX_KEYS + 1
    ensures r.leaf == p.leaf
    ensures |r.children| == |p.children| + 1
    ensures r.children[..i] == p.children[..i] && r.children[i + 2..] == p.children[i + 1..]
    ensures r.children[i] == LowerHalf(p.children[i]) && r.children[i + 1] == UpperHalf(p.children[i])
    ensures r.children[i].entries == p.children[i].entries[..MIN_KEYS]
    ensures r.children[i + 1].entries == p.children[i].entries[MIN_KEYS + 1..]
    ensures |r.children[i].entries| == MIN_KEYS && |r.children[i + 1].entries| == MIN_KEYS
    ensures r.entries == InsertKey(p.entries, p.children[i].entries[MIN_KEYS].0, p.children[i].entries[MIN_KEYS].1)
  {
    var c := p.children[i];
    var mid := c.entries[MIN_KEYS];
    var cs := p.children[..i] + [LowerHalf(c), UpperHalf(c)] + p.children[i + 1..];
    assert cs[..i] == p.children[..i] && cs[i + 2..] == p.children[i + 1..];
    Node(p.leaf, InsertKey(p.entries, mid.0, mid.1), cs)
  }

  /** Both halves of a split child are well formed one level below the parent. */
  lemma SplitChildShape<V>(p: Node<V>, i: nat)
    requires WF(p, true) && i < |p.children| && |p.children[i].entries| == MAX_KEYS
    ensures p.children[i].leaf || |p.children[i].children| == MAX_KEYS + 1
    ensures var r := SplitChild(p, i);
      Height(r) == Height(p) &&
      forall j :: 0 <= j < |r.children| ==> WF(r.children[j], false) && Height(r.children[j]) + 1 == Height(p)
  {
    var c := p.children[i];
    assert WF(c, false);
    HalvesShape(c);
    var r := SplitChild(p, i);
    forall j | 0 <= j < |r.children|
      ensures WF(r.children[j], false) && Height(r.children[j]) + 1 == Height(p)
    {
      if j < i {
        assert r.children[j] == p.children[j];
      } else if j > i + 1 {
        assert r.children[j] == r.children[i + 2..][j - i - 2] == p.children[i + 1..][j - i - 2];
      }
    }
  }

  /** The two halves of a full node are well formed and as tall as the node. */
  lemma HalvesShape<V>(c: Node<V>)
    requires WF(c, false) && |c.entries| == MAX_KEYS
    ensures c.leaf || |c.children| == MAX_KEYS + 1
    ensures WF(LowerHalf(c), false) && Height(LowerHalf(c)) == Height(c)
    ensures WF(UpperHalf(c), false) && Height(UpperHalf(c)) == Height(c)
  {
    var left, right := LowerHalf(c), UpperHalf(c);
    if !c.leaf {
      assert left.children[0] == c.children[0];
      assert right.children[0] == c.children[MIN_KEYS + 1];
      assert forall j :: 0 <= j < |right.children| ==> right.children[j] == c.children[MIN_KEYS + 1 + j];
    }
  }

  /** `insert_non_full`: insert into a leaf with `insert_key`; in an internal
      node find the descent index, split that child first when it is full
      (then go right only when `k` is greater than the new separator), and
      recurse. A key equal to a separator is not looked at on the way down. */
  function InsertNonFull<V>(n: Node<V>, k: Key, v: V): (r: Node<V>)
    requires WF(n, true)
    ensures Height(r) == Height(n)
    ensures r.leaf == n.leaf
    decreases Height(n)
  {
    if n.leaf then
      n.(entries := InsertKey(n.entries, k, v))
    else
      var i := UpperBound(n.entries, k);
      if i < |n.children| && |n.children[i].entries| == MAX_KEYS then
        SplitChildShape(n, i);
        var s := SplitChild(n, i);
        var j := if i < |s.entries| && Less(s.entries[i].0, k) then i + 1 else i;
        DescendInto(s, j, k, v, Height(n))
      else
        DescendInto(n, i, k, v, Height(n))
  }

  /** The last step of `insert_non_full`: recurse into child `j` if it exists. */
  function DescendInto<V>(s: Node<V>, j: nat, k: Key, v: V, h: nat): (r: Node<V>)
    requires !s.leaf && |s.children| > 0
    requires forall c :: 0 <= c < |s.children| ==> WF(s.children[c], false) && Height(s.children[c]) + 1 == h
    ensures Height(r) == Height(s) && r.leaf == s.leaf
    ensures r.entries == s.entries && |r.children| == |s.children|
    decreases h, 0
  {
    if j < |s.children| then
      WFNonRoot(s.children[j]);
      var c := InsertNonFull(s.children[j], k, v);
      s.(children := s.children[j := c])
    else s
  }

  /** `insert`: a full root is first pushed below a fresh internal root and
      split, which is how the tree grows in height. */
  function Insert<V>(t: Tree<V>, k: Key, v: V): (r: Tree<V>)
    requires Valid(t)
    ensures Height(r.root) == Height(t.root) + (if |t.root.entries| == MAX_KEYS then 1 else 0)
  {
    if |t.root.entries| == MAX_KEYS then
      var grown := Node(false, [], [t.root]);
      assert WF(grown, true);
      SplitChildShape(grown, 0);
      var s := SplitChild(grown, 0);
      assert WF(s, true);
      Tree(InsertNonFull(s, k, v))
    else
      Tree(InsertNonFull(t.root, k, v))
  }

  // ------------------------------------------------------------ queries

  /** `search_node`: scan to the first key not below `k`; an equal key answers,
      otherwise descend into the child at that position. */
  function SearchNode<V>(n: Node<V>, k: Key): (r: Option<V>)
    decreases n
  {
    var i := LowerBound(n.entries, k);
    if i < |n.entries| && n.entries[i].0 == k then Some(n.entries[i].1)
    else if n.leaf then None
    else if i < |n.children| then SearchNode(n.children[i], k)
    else None
  }

  /** `search`: throws "Key not found in B-Tree" when the descent finds nothing. */
  function Search<V>(t: Tree<V>, k: Key): (r: Result<V>)
    ensures r.Failure? <==> SearchNode(t.root, k).None?
    ensures r.Failure? ==> r.error == NotFound
  {
    match SearchNode(t.root, k)
    case Some(v) => Success(v)
    case None => Failure(NotFound)
  }

  predicate Exists<V>(t: Tree<V>, k: Key)
  {
    SearchNode(t.root, k).Some?
  }

  /** `get_all_keys`: the keys in traversal order. */
  function GetAllKeys<V>(t: Tree<V>): (r: seq<Key>)
    ensures |r| == |Entries(t.root)|
  {
    KeysOf(Entries(t.root))
  }

  function GetHeight<V>(t: Tree<V>): (h: nat)
    ensures h >= 1
  {
    Height(t.root)
  }

  function GetSize<V>(t: Tree<V>): nat
  {
    |GetAllKeys(t)|
  }

  /** `range_query`: visits every node in pre-order (the node's own pairs, then
      each child in turn) and keeps the values whose key is in `[lo, hi]`. */
  function RangeNode<V>(n: Node<V>, lo: Key, hi: Key): seq<V>
    decreases n
  {
    FilterValues(n.entries, lo, hi) + (if n.leaf then [] else RangeChildren(n.children, lo, hi))
  }

  function RangeChildren<V>(cs: seq<Node<V>>, lo: Key, hi: Key): seq<V>
    decreases cs
  {
    if |cs| == 0 then [] else RangeNode(cs[0], lo, hi) + RangeChildren(cs[1..], lo, hi)
  }

  function RangeQuery<V>(t: Tree<V>, lo: Key, hi: Key): seq<V>
  {
    RangeNode(t.root, lo, hi)
  }

  /** `clear`: the root is replaced by an empty leaf. */
  function Clear<V>(t: Tree<V>): (r: Tree<V>)
    ensures Valid(r) && GetAllKeys(r) == [] && GetHeight(r) == 1
  {
    Empty()
  }

  // ------------------------------------------------------------ corrected upsert

  /** Overwrite the value of every pair whose key is `k`, keeping the shape. */
  function Replace<V>(n: Node<V>, k: Key, v: V): (r: Node<V>)
    ensures r.leaf == n.leaf && |r.entries| == |n.entries| && |r.children| == |n.children|
    decreases n
  {
    Node(n.leaf, ReplaceIn(n.entries, k, v), ReplaceAll(n.children, k, v))
  }

  function ReplaceAll<V>(cs: seq<Node<V>>, k: Key, v: V): (r: seq<Node<V>>)
    ensures |r| == |cs| && forall i :: 0 <= i < |cs| ==> r[i] == Replace(cs[i], k, v)
    decreases cs
  {
    if |cs| == 0 then [] else [Replace(cs[0], k, v)] + ReplaceAll(cs[1..], k, v)
  }

  function ReplaceIn<V>(s: seq<Entry<V>>, k: Key, v: V): (r: seq<Entry<V>>)
    ensures |r| == |s|
    ensures forall i :: 0 <= i < |s| ==> r[i] == if s[i].0 == k then (k, v) else s[i]
  {
    seq(|s|, i requires 0 <= i < |s| => if s[i].0 == k then (k, v) else s[i])
  }

  /** The upsert that line 141's comment promises: when the key is already in
      the tree its value is overwritten where it sits, otherwise `Insert`
      adds it. */
  function Put<V>(t: Tree<V>, k: Key, v: V): (r: Tree<V>)
    requires Valid(t)
  {
    if Exists(t, k) then Tree(Replace(t.root, k, v)) else Insert(t, k, v)
  }
}
