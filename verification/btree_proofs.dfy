/** What `CompleteBTree` guarantees, stated over the in-order traversal:
    inserting a key that is not yet present keeps the shape and puts the pair
    where `insert_key` would put it in the sorted sequence, search finds what
    the traversal holds, and `range_query` returns the in-range values.
    The corrected upsert `Put` keeps all of this for every key; the as-written
    `Insert` does not, as the counterexamples at the end show. */
module BTreeProofs {
  import opened Wrappers
  import opened ByteStrings
  import opened BTree

  // ================================================================ order facts

  ghost predicate Below<V>(s: seq<Entry<V>>, k: Key)
  {
    forall i :: 0 <= i < |s| ==> Less(s[i].0, k)
  }

  ghost predicate Above<V>(s: seq<Entry<V>>, k: Key)
  {
    forall i :: 0 <= i < |s| ==> Less(k, s[i].0)
  }

  /** `k` falls strictly between the pairs before position `j` and those from `j` on. */
  ghost predicate Separates<V>(s: seq<Entry<V>>, j: nat, k: Key)
  {
    j <= |s| && Below(s[..j], k) && Above(s[j..], k)
  }

  lemma SortedParts<V>(a: seq<Entry<V>>, b: seq<Entry<V>>)
    requires Sorted(a + b)
    ensures Sorted(a) && Sorted(b)
    ensures forall i, j :: 0 <= i < |a| && 0 <= j < |b| ==> Less(a[i].0, b[j].0)
  {
    forall i, j | 0 <= i < j < |a|
      ensures Less(a[i].0, a[j].0)
    {
      assert (a + b)[i] == a[i] && (a + b)[j] == a[j];
    }
    forall i, j | 0 <= i < j < |b|
      ensures Less(b[i].0, b[j].0)
    {
      assert (a + b)[|a| + i] == b[i] && (a + b)[|a| + j] == b[j];
    }
    forall i, j | 0 <= i < |a| && 0 <= j < |b|
      ensures Less(a[i].0, b[j].0)
    {
      assert (a + b)[i] == a[i] && (a + b)[|a| + j] == b[j];
    }
  }

  lemma BelowFromLast<V>(s: seq<Entry<V>>, k: Key)
    requires Sorted(s) && |s| > 0 && Less(s[|s| - 1].0, k)
    ensures Below(s, k)
  {
    forall i | 0 <= i < |s| - 1
      ensures Less(s[i].0, k)
    {
      LessTransitive(s[i].0, s[|s| - 1].0, k);
    }
  }

  lemma AboveFromFirst<V>(s: seq<Entry<V>>, k: Key)
    requires Sorted(s) && |s| > 0 && Less(k, s[0].0)
    ensures Above(s, k)
  {
    forall i | 0 < i < |s|
      ensures Less(k, s[i].0)
    {
      LessTransitive(k, s[0].0, s[i].0);
    }
  }

  lemma KeysOfConcat<V>(a: seq<Entry<V>>, b: seq<Entry<V>>)
    ensures KeysOf(a + b) == KeysOf(a) + KeysOf(b)
  {
  }

  lemma KeysOfMember<V>(s: seq<Entry<V>>, i: nat)
    requires i < |s|
    ensures s[i].0 in KeysOf(s)
  {
    assert KeysOf(s)[i] == s[i].0;
  }

  lemma SeparatedAbsent<V>(s: seq<Entry<V>>, j: nat, k: Key)
    requires Separates(s, j, k)
    ensures k !in KeysOf(s)
  {
    LessIrreflexive(k);
    forall i | 0 <= i < |s|
      ensures s[i].0 != k
    {
      if i < j {
        assert s[..j][i] == s[i];
      } else {
        assert s[j..][i - j] == s[i];
      }
    }
  }

  /** `LowerBound` is the unique position that separates the keys below `k`. */
  lemma {:induction false} LowerBoundIs<V>(s: seq<Entry<V>>, k: Key, p: nat)
    requires p <= |s|
    requires forall j :: 0 <= j < p ==> Less(s[j].0, k)
    requires p < |s| ==> !Less(s[p].0, k)
    ensures LowerBound(s, k) == p
  {
    if |s| > 0 && Less(s[0].0, k) {
      LowerBoundIs(s[1..], k, p - 1);
    }
  }

  /** In a sorted sequence, the lower bound of an absent key separates it. */
  lemma LowerBoundSeparates<V>(s: seq<Entry<V>>, k: Key)
    requires Sorted(s)
    requires var i := LowerBound(s, k); i == |s| || s[i].0 != k
    ensures Separates(s, LowerBound(s, k), k)
  {
    var i := LowerBound(s, k);
    if i < |s| {
      LessTotal(s[i].0, k);
      AboveFromFirst(s[i..], k);
    }
  }

  /** In a sorted sequence without `k`, the descent index separates it. */
  lemma UpperBoundSeparates<V>(s: seq<Entry<V>>, k: Key)
    requires Sorted(s) && k !in KeysOf(s)
    ensures Separates(s, UpperBound(s, k), k)
  {
    var i := UpperBound(s, k);
    if i > 0 {
      KeysOfMember(s, i - 1);
      LessTotal(s[i - 1].0, k);
      BelowFromLast(s[..i], k);
    }
  }

  // ================================================================ lookup

  lemma {:induction false} LookupAppend<V>(a: seq<Entry<V>>, b: seq<Entry<V>>, k: Key)
    ensures Lookup(a + b, k) == if k in KeysOf(a) then Lookup(a, k) else Lookup(b, k)
  {
    if |a| == 0 {
      assert a + b == b;
    } else if a[0].0 != k {
      assert (a + b)[1..] == a[1..] + b;
      assert KeysOf(a) == [a[0].0] + KeysOf(a[1..]);
      LookupAppend(a[1..], b, k);
    } else {
      KeysOfMember(a, 0);
    }
  }

  /** A pair with another key does not change what a lookup of `k` finds. */
  lemma LookupSkip<V>(a: seq<Entry<V>>, y: Entry<V>, b: seq<Entry<V>>, k: Key)
    requires y.0 != k
    ensures Lookup(a + [y] + b, k) == Lookup(a + b, k)
  {
    LookupAppend(a + [y], b, k);
    LookupAppend(a, [y], k);
    LookupAppend(a, b, k);
    KeysOfConcat(a, [y]);
  }

  lemma LookupMiddle<V>(p: seq<Entry<V>>, m: seq<Entry<V>>, t: seq<Entry<V>>, k: Key)
    requires Below(p, k) && Above(t, k)
    ensures Lookup(p + m + t, k) == Lookup(m, k)
  {
    LessIrreflexive(k);
    assert k !in KeysOf(p);
    assert k !in KeysOf(t);
    LookupAppend(p + m, t, k);
    LookupAppend(p, m, k);
    KeysOfConcat(p, m);
  }

  /** In a sorted sequence each key's first occurrence is its only one. */
  lemma LookupSortedAt<V>(s: seq<Entry<V>>, i: nat)
    requires Sorted(s) && i < |s|
    ensures Lookup(s, s[i].0) == Some(s[i].1)
  {
    assert s == s[..i] + s[i..];
    assert s[i..][0] == s[i];
    LessIrreflexive(s[i].0);
    assert s[i].0 !in KeysOf(s[..i]);
    LookupAppend(s[..i], s[i..], s[i].0);
  }

  /** `insert_key` on any sequence: a later lookup of `k` sees the new value,
      and every other key reads as before. */
  lemma LookupInsertKey<V>(s: seq<Entry<V>>, k: Key, v: V, k2: Key)
    ensures Lookup(InsertKey(s, k, v), k2) == if k2 == k then Some(v) else Lookup(s, k2)
  {
    var p := LowerBound(s, k);
    LessIrreflexive(k);
    assert k !in KeysOf(s[..p]);
    if p < |s| && s[p].0 == k {
      assert InsertKey(s, k, v) == s[..p] + [(k, v)] + s[p + 1..];
      assert s == s[..p] + [s[p]] + s[p + 1..];
      if k2 == k {
        LookupAppend(s[..p] + [(k, v)], s[p + 1..], k);
        LookupAppend(s[..p], [(k, v)], k);
        KeysOfConcat(s[..p], [(k, v)]);
      } else {
        LookupSkip(s[..p], (k, v), s[p + 1..], k2);
        LookupSkip(s[..p], s[p], s[p + 1..], k2);
      }
    } else {
      assert s == s[..p] + s[p..];
      if k2 == k {
        LookupAppend(s[..p] + [(k, v)], s[p..], k);
        LookupAppend(s[..p], [(k, v)], k);
        KeysOfConcat(s[..p], [(k, v)]);
      } else {
        LookupSkip(s[..p], (k, v), s[p..], k2);
      }
    }
  }

  /** The key set after `insert_key` gains exactly `k`. */
  lemma KeysInsertKey<V>(s: seq<Entry<V>>, k: Key, v: V, k2: Key)
    ensures k2 in KeysOf(InsertKey(s, k, v)) <==> k2 == k || k2 in KeysOf(s)
  {
    LookupInsertKey(s, k, v, k2);
  }

  /** `insert_key` grows the sequence exactly when the key was absent. */
  lemma InsertKeyLength<V>(s: seq<Entry<V>>, k: Key, v: V)
    ensures k !in KeysOf(s) ==> |InsertKey(s, k, v)| == |s| + 1
    ensures k in KeysOf(s) && Sorted(s) ==> |InsertKey(s, k, v)| == |s|
  {
    var p := LowerBound(s, k);
    if p < |s| && s[p].0 == k {
      KeysOfMember(s, p);
    } else if k in KeysOf(s) && Sorted(s) {
      LowerBoundSeparates(s, k);
      SeparatedAbsent(s, p, k);
    }
  }

  /** `insert_key` keeps a sorted sequence sorted. */
  lemma InsertKeySorted<V>(s: seq<Entry<V>>, k: Key, v: V)
    requires Sorted(s)
    ensures Sorted(InsertKey(s, k, v))
  {
    var p := LowerBound(s, k);
    var r := InsertKey(s, k, v);
    if p < |s| && s[p].0 == k {
      assert forall i :: 0 <= i < |s| ==> r[i].0 == s[i].0;
    } else {
      if p < |s| {
        LessTotal(s[p].0, k);
      }
      forall i, j | 0 <= i < j < |r|
        ensures Less(r[i].0, r[j].0)
      {
        if j < p {
          assert r[i] == s[i] && r[j] == s[j];
        } else if j == p {
          assert r[i] == s[i] && r[j].0 == k;
        } else if i < p {
          assert r[i] == s[i] && r[j] == s[j - 1];
        } else if i == p {
          assert r[i].0 == k && r[j] == s[j - 1];
          if j - 1 > p {
            LessTransitive(k, s[p].0, s[j - 1].0);
          }
        } else {
          assert r[i] == s[i - 1] && r[j] == s[j - 1];
        }
      }
    }
  }

  /** Inserting a key that lies between a prefix and a suffix touches only the middle. */
  lemma InsertKeyMiddle<V>(p: seq<Entry<V>>, m: seq<Entry<V>>, t: seq<Entry<V>>, k: Key, v: V)
    requires Below(p, k) && Above(t, k)
    ensures InsertKey(p + m + t, k, v) == p + InsertKey(m, k, v) + t
  {
    LowerBoundMiddle(p, m, t, k);
    InsertKeyInside(p, m, t, k, v);
  }

  lemma InsertKeyInside<V>(p: seq<Entry<V>>, m: seq<Entry<V>>, t: seq<Entry<V>>, k: Key, v: V)
    requires var s, q := p + m + t, LowerBound(m, k);
      LowerBound(s, k) == |p| + q
      && (q < |m| ==> s[|p| + q] == m[q])
      && (q == |m| && |p| + q < |s| ==> s[|p| + q].0 != k)
    ensures InsertKey(p + m + t, k, v) == p + InsertKey(m, k, v) + t
  {
    var q := LowerBound(m, k);
    if q < |m| && m[q].0 == k {
      UpdateInside(p, m, t, q, k, v);
    } else {
      AddInside(p, m, t, q, k, v);
    }
  }

  lemma UpdateInside<V>(p: seq<Entry<V>>, m: seq<Entry<V>>, t: seq<Entry<V>>, q: nat, k: Key, v: V)
    requires q == LowerBound(m, k) && LowerBound(p + m + t, k) == |p| + q
    requires q < |m| && m[q].0 == k && (p + m + t)[|p| + q] == m[q]
    ensures InsertKey(p + m + t, k, v) == p + InsertKey(m, k, v) + t
  {
    InsertKeyAtBound(p + m + t, |p| + q, k, v);
    InsertKeyAtBound(m, q, k, v);
    UpdateMiddle(p, m, t, q, (k, v));
  }

  lemma AddInside<V>(p: seq<Entry<V>>, m: seq<Entry<V>>, t: seq<Entry<V>>, q: nat, k: Key, v: V)
    requires q == LowerBound(m, k) && LowerBound(p + m + t, k) == |p| + q
    requires !(q < |m| && m[q].0 == k) && !(|p| + q < |p + m + t| && (p + m + t)[|p| + q].0 == k)
    ensures InsertKey(p + m + t, k, v) == p + InsertKey(m, k, v) + t
  {
    InsertKeyAtBound(p + m + t, |p| + q, k, v);
    InsertKeyAtBound(m, q, k, v);
    InsertMiddle(p, m, t, q, (k, v));
  }

  /** `insert_key` once its lower bound is known. */
  lemma InsertKeyAtBound<V>(s: seq<Entry<V>>, at: nat, k: Key, v: V)
    requires LowerBound(s, k) == at
    ensures at <= |s|
    ensures at < |s| && s[at].0 == k ==> InsertKey(s, k, v) == s[at := (k, v)]
    ensures !(at < |s| && s[at].0 == k) ==> InsertKey(s, k, v) == s[..at] + [(k, v)] + s[at..]
  {
  }

  lemma UpdateMiddle<T>(p: seq<T>, m: seq<T>, t: seq<T>, q: nat, x: T)
    requires q < |m|
    ensures (p + m + t)[|p| + q := x] == p + m[q := x] + t
  {
  }

  lemma InsertMiddle<T>(p: seq<T>, m: seq<T>, t: seq<T>, q: nat, x: T)
    requires q <= |m|
    ensures var s := p + m + t;
      s[..|p| + q] + [x] + s[|p| + q..] == p + (m[..q] + [x] + m[q..]) + t
  {
    var s := p + m + t;
    assert s[..|p| + q] == p + m[..q];
    assert s[|p| + q..] == m[q..] + t;
  }

  /** The lower bound of `k` in `p + m + t` falls inside `m`. */
  lemma LowerBoundMiddle<V>(p: seq<Entry<V>>, m: seq<Entry<V>>, t: seq<Entry<V>>, k: Key)
    requires Below(p, k) && Above(t, k)
    ensures var s, q := p + m + t, LowerBound(m, k);
      LowerBound(s, k) == |p| + q
      && (q < |m| ==> s[|p| + q] == m[q])
      && (q == |m| && |p| + q < |s| ==> s[|p| + q].0 != k)
  {
    var s := p + m + t;
    var q := LowerBound(m, k);
    var at := |p| + q;
    if q == |m| && |t| > 0 {
      assert s[at] == t[0];
      LessAsymmetric(k, t[0].0);
      LessIrreflexive(k);
    }
    forall j | 0 <= j < at
      ensures Less(s[j].0, k)
    {
      if j < |p| {
        assert s[j] == p[j];
      } else {
        assert s[j] == m[j - |p|];
      }
    }
    if q < |m| {
      assert s[at] == m[q];
    }
    LowerBoundIs(s, k, at);
  }

  /** In a sorted sequence holding `k`, overwriting every pair with key `k` is
      `insert_key`'s in-place update. */
  lemma ReplaceIsInsertKey<V>(s: seq<Entry<V>>, k: Key, v: V)
    requires Sorted(s) && k in KeysOf(s)
    ensures ReplaceIn(s, k, v) == InsertKey(s, k, v)
  {
    var q :| 0 <= q < |s| && s[q].0 == k;
    var p := LowerBound(s, k);
    LessIrreflexive(k);
    assert p <= q;
    assert p == q;
    forall i | 0 <= i < |s| && i != q
      ensures s[i].0 != k
    {
      if i < q {
        LessAsymmetric(s[i].0, s[q].0);
      } else {
        LessAsymmetric(s[q].0, s[i].0);
      }
    }
  }

  /** The sequence viewed as a map: the first value stored for each key. */
  ghost function Contents<V>(s: seq<Entry<V>>): (m: map<Key, V>)
    ensures m.Keys == set k | k in KeysOf(s)
  {
    map k | k in KeysOf(s) :: Lookup(s, k).value
  }

  lemma ContentsInsertKey<V>(s: seq<Entry<V>>, k: Key, v: V)
    ensures Contents(InsertKey(s, k, v)) == Contents(s)[k := v]
  {
    var r := InsertKey(s, k, v);
    forall k2 | true
      ensures k2 in KeysOf(r) <==> k2 in Contents(s)[k := v]
      ensures k2 in KeysOf(r) ==> Lookup(r, k2).value == Contents(s)[k := v][k2]
    {
      LookupInsertKey(s, k, v, k2);
    }
  }

  // ================================================================ traversal structure

  lemma {:induction false} WeaveLeaf<V>(es: seq<Entry<V>>, cs: seq<Node<V>>)
    ensures Weave(true, es, cs) == es
    decreases |es|
  {
    if |es| > 0 {
      WeaveLeaf(es[1..], if |cs| > 0 then cs[1..] else []);
    }
  }

  lemma {:induction false} WeaveAppend<V>(es1: seq<Entry<V>>, cs1: seq<Node<V>>, es2: seq<Entry<V>>, cs2: seq<Node<V>>)
    requires |cs1| == |es1|
    ensures Weave(false, es1 + es2, cs1 + cs2) == Weave(false, es1, cs1) + Weave(false, es2, cs2)
    decreases |es1|
  {
    if |es1| == 0 {
      assert es1 + es2 == es2 && cs1 + cs2 == cs2;
    } else {
      assert (es1 + es2)[1..] == es1[1..] + es2;
      assert (cs1 + cs2)[1..] == cs1[1..] + cs2;
      WeaveAppend(es1[1..], cs1[1..], es2, cs2);
    }
  }

  lemma {:induction false} WeaveMember<V>(leaf: bool, es: seq<Entry<V>>, cs: seq<Node<V>>, j: nat)
    requires j < |es|
    ensures es[j] in Weave(leaf, es, cs)
    decreases j
  {
    if j > 0 {
      WeaveMember(leaf, es[1..], if |cs| > 0 then cs[1..] else [], j - 1);
    }
  }

  /** A node's own pairs appear in ascending order when its traversal does. */
  lemma {:induction false} WeaveSortedEntries<V>(leaf: bool, es: seq<Entry<V>>, cs: seq<Node<V>>)
    requires Sorted(Weave(leaf, es, cs))
    ensures Sorted(es)
    decreases |es|
  {
    if |es| > 1 {
      var first := if !leaf && 0 < |cs| then Entries(cs[0]) else [];
      var rest := Weave(leaf, es[1..], if |cs| > 0 then cs[1..] else []);
      SortedParts(first + [es[0]], rest);
      WeaveSortedEntries(leaf, es[1..], if |cs| > 0 then cs[1..] else []);
      forall j | 0 < j < |es|
        ensures Less(es[0].0, es[j].0)
      {
        WeaveMember(leaf, es[1..], if |cs| > 0 then cs[1..] else [], j - 1);
        assert (first + [es[0]])[|first|] == es[0];
      }
      forall i, j | 0 < i < j < |es|
        ensures Less(es[i].0, es[j].0)
      {
        assert es[1..][i - 1] == es[i] && es[1..][j - 1] == es[j];
      }
    }
  }

  /** The traversal before child `j`: children and pairs `0 .. j-1`. */
  function Before<V>(n: Node<V>, j: nat): seq<Entry<V>>
    requires j <= |n.entries| && j <= |n.children|
  {
    Weave(false, n.entries[..j], n.children[..j])
  }

  /** The traversal after child `j`: pair `j`, then the rest. */
  function After<V>(n: Node<V>, j: nat): seq<Entry<V>>
    requires j <= |n.entries| && j < |n.children|
  {
    if j == |n.entries| then [] else [n.entries[j]] + Weave(false, n.entries[j + 1..], n.children[j + 1..])
  }

  lemma Decompose<V>(n: Node<V>, j: nat)
    requires !n.leaf && |n.children| == |n.entries| + 1 && j <= |n.entries|
    ensures Entries(n) == Before(n, j) + Entries(n.children[j]) + After(n, j)
  {
    WeaveSplitAt(n.entries, n.children, j);
    WeaveFrom(n.entries, n.children, j);
  }

  lemma WeaveSplitAt<V>(es: seq<Entry<V>>, cs: seq<Node<V>>, j: nat)
    requires |cs| == |es| + 1 && j <= |es|
    ensures Weave(false, es, cs) == Weave(false, es[..j], cs[..j]) + Weave(false, es[j..], cs[j..])
  {
    var es1, es2, cs1, cs2 := es[..j], es[j..], cs[..j], cs[j..];
    assert es == es1 + es2;
    assert cs == cs1 + cs2;
    WeaveAppend(es1, cs1, es2, cs2);
  }

  lemma WeaveFrom<V>(es: seq<Entry<V>>, cs: seq<Node<V>>, j: nat)
    requires |cs| == |es| + 1 && j <= |es|
    ensures Weave(false, es[j..], cs[j..])
         == Entries(cs[j]) + (if j == |es| then [] else [es[j]] + Weave(false, es[j + 1..], cs[j + 1..]))
  {
    assert cs[j..] == [cs[j]] + cs[j + 1..];
    WeaveAfterChild(es[j..], cs[j], cs[j + 1..]);
    if j < |es| {
      assert es[j..][0] == es[j] && es[j..][1..] == es[j + 1..];
    }
  }

  lemma BeforeEndsWith<V>(n: Node<V>, j: nat)
    requires 0 < j <= |n.entries| && j <= |n.children|
    ensures |Before(n, j)| > 0 && Before(n, j)[|Before(n, j)| - 1] == n.entries[j - 1]
  {
    var es := n.entries;
    var cs := n.children;
    WeaveAppend(es[..j - 1], cs[..j - 1], [es[j - 1]], [cs[j - 1]]);
    assert es[..j - 1] + [es[j - 1]] == es[..j];
    assert cs[..j - 1] + [cs[j - 1]] == cs[..j];
  }

  /** The traversal around a child whose position separates `k`: everything
      before it is below `k` and everything after it is above. */
  lemma ChildSeparated<V>(n: Node<V>, j: nat, k: Key)
    requires !n.leaf && |n.children| == |n.entries| + 1
    requires Sorted(Entries(n)) && Separates(n.entries, j, k)
    ensures Entries(n) == Before(n, j) + Entries(n.children[j]) + After(n, j)
    ensures Below(Before(n, j), k) && Above(After(n, j), k)
    ensures Sorted(Entries(n.children[j]))
  {
    Decompose(n, j);
    var p := Before(n, j);
    var t := After(n, j);
    SortedParts(p + Entries(n.children[j]), t);
    SortedParts(p, Entries(n.children[j]));
    if j > 0 {
      BeforeEndsWith(n, j);
      assert n.entries[..j][j - 1] == n.entries[j - 1];
      BelowFromLast(p, k);
    }
    if j < |n.entries| {
      assert n.entries[j..][0] == n.entries[j];
      AboveFromFirst(t, k);
    }
  }

  // ================================================================ split

  /** A full node's traversal is its lower half, the median, then its upper half. */
  lemma SplitTraversal<V>(c: Node<V>)
    requires WF(c, false) && |c.entries| == MAX_KEYS
    ensures c.leaf || |c.children| == MAX_KEYS + 1
    ensures Entries(c) == Entries(LowerHalf(c)) + [c.entries[MIN_KEYS]] + Entries(UpperHalf(c))
  {
    if c.leaf {
      SplitLeafTraversal(c);
    } else {
      SplitInternalTraversal(c);
    }
  }

  lemma SplitLeafTraversal<V>(c: Node<V>)
    requires c.leaf && |c.entries| == MAX_KEYS
    ensures Entries(c) == Entries(LowerHalf(c)) + [c.entries[MIN_KEYS]] + Entries(UpperHalf(c))
  {
    var es := c.entries;
    WeaveLeaf(es, c.children);
    WeaveLeaf(es[..MIN_KEYS], c.children);
    WeaveLeaf(es[MIN_KEYS + 1..], []);
    assert es == es[..MIN_KEYS] + [es[MIN_KEYS]] + es[MIN_KEYS + 1..];
  }

  lemma SplitInternalTraversal<V>(c: Node<V>)
    requires !c.leaf && |c.entries| == MAX_KEYS && |c.children| == MAX_KEYS + 1
    ensures Entries(c) == Entries(LowerHalf(c)) + [c.entries[MIN_KEYS]] + Entries(UpperHalf(c))
  {
    var es, cs := c.entries, c.children;
    Decompose(c, MIN_KEYS);
    var es1, cs1 := es[..MIN_KEYS], cs[..MIN_KEYS];
    var tail: seq<Entry<V>>, last := [], [cs[MIN_KEYS]];
    assert es1 == es1 + tail;
    assert cs[..MIN_KEYS + 1] == cs1 + last;
    WeaveAppend(es1, cs1, tail, last);
  }

  /** One step of the traversal past a child placed in front of `cs`. */
  lemma WeaveAfterChild<V>(es: seq<Entry<V>>, c: Node<V>, cs: seq<Node<V>>)
    ensures Weave(false, es, [c] + cs)
         == Entries(c) + (if |es| == 0 then [] else [es[0]] + Weave(false, es[1..], cs))
  {
    assert ([c] + cs)[0] == c && ([c] + cs)[1..] == cs;
  }

  /** The median of a full child sorts strictly between the parent pairs
      that surround the child, so `insert_key` puts it at the child's index. */
  lemma SplitMedianPlace<V>(p: Node<V>, i: nat)
    requires !p.leaf && |p.children| == |p.entries| + 1 && i < |p.children|
    requires WF(p.children[i], false) && |p.children[i].entries| == MAX_KEYS
    requires Sorted(Entries(p))
    ensures var mid := p.children[i].entries[MIN_KEYS];
      LowerBound(p.entries, mid.0) == i && (i < |p.entries| ==> p.entries[i].0 != mid.0)
  {
    var c := p.children[i];
    var es := p.entries;
    var cs := p.children;
    var mid := c.entries[MIN_KEYS];
    SplitTraversal(c);
    Decompose(p, i);
    var before := Before(p, i);
    var after := After(p, i);
    SortedParts(before + Entries(c), after);
    SortedParts(before, Entries(c));
    var m := |Entries(LowerHalf(c))|;
    assert Entries(c)[m] == mid;
    forall t | 0 <= t < i
      ensures Less(es[t].0, mid.0)
    {
      WeaveMember(false, es[..i], cs[..i], t);
      assert es[..i][t] == es[t];
      var q :| 0 <= q < |before| && before[q] == es[t];
      assert Less(before[q].0, Entries(c)[m].0);
    }
    if i < |es| {
      assert after[0] == es[i];
      assert (before + Entries(c))[|before| + m] == mid;
      LessAsymmetric(mid.0, es[i].0);
    }
    LowerBoundIs(es, mid.0, i);
  }

  /** `split_child` leaves the parent's traversal unchanged. */
  lemma SplitEntries<V>(p: Node<V>, i: nat)
    requires !p.leaf && |p.children| == |p.entries| + 1 && i < |p.children|
    requires WF(p.children[i], false) && |p.children[i].entries| == MAX_KEYS
    requires Sorted(Entries(p))
    ensures p.children[i].leaf || |p.children[i].children| == MAX_KEYS + 1
    ensures var s := SplitChild(p, i);
      && Entries(s) == Entries(p)
      && s.entries == p.entries[..i] + [p.children[i].entries[MIN_KEYS]] + p.entries[i..]
  {
    var c := p.children[i];
    var mid := c.entries[MIN_KEYS];
    SplitMedianPlace(p, i);
    SplitTraversal(c);
    var s := SplitChild(p, i);
    var lower, upper := LowerHalf(c), UpperHalf(c);
    InsertKeyAt(p.entries, mid, i);
    Decompose(p, i);
    Decompose(s, i);
    SplitBefore(p, s, i, mid);
    SplitAfter(p, s, i, mid, upper);
    Regroup(Before(p, i), Entries(lower), [mid], Entries(upper), After(p, i));
  }

  /** `insert_key` of a key that is new and belongs at `i` inserts there. */
  lemma InsertKeyAt<V>(es: seq<Entry<V>>, e: Entry<V>, i: nat)
    requires LowerBound(es, e.0) == i && (i < |es| ==> es[i].0 != e.0)
    ensures InsertKey(es, e.0, e.1) == es[..i] + [e] + es[i..]
  {
  }

  lemma Regroup<T>(a: seq<T>, b: seq<T>, c: seq<T>, d: seq<T>, e: seq<T>)
    ensures a + b + (c + d + e) == a + (b + c + d) + e
  {
  }

  /** Inserting a pair and a child at position `i` leaves the traversal before
      child `i` as it was. */
  lemma SplitBefore<V>(p: Node<V>, s: Node<V>, i: nat, mid: Entry<V>)
    requires i <= |p.entries| && i < |p.children|
    requires s.entries == p.entries[..i] + [mid] + p.entries[i..]
    requires |s.children| == |p.children| + 1 && s.children[..i] == p.children[..i]
    ensures Before(s, i) == Before(p, i)
  {
    assert s.entries[..i] == p.entries[..i];
  }

  /** After the new child `i`, the split parent visits the median, the upper
      half, then what followed child `i` before the split. */
  lemma SplitAfter<V>(p: Node<V>, s: Node<V>, i: nat, mid: Entry<V>, upper: Node<V>)
    requires |p.children| == |p.entries| + 1 && i < |p.children|
    requires s.entries == p.entries[..i] + [mid] + p.entries[i..]
    requires |s.children| == |p.children| + 1
    requires s.children[i + 1] == upper && s.children[i + 2..] == p.children[i + 1..]
    ensures After(s, i) == [mid] + Entries(upper) + After(p, i)
  {
    var es, cs := p.entries, p.children;
    assert s.entries[i] == mid && s.entries[i + 1..] == es[i..];
    assert s.children[i + 1..] == [upper] + cs[i + 1..];
    WeaveAfterChild(es[i..], upper, cs[i + 1..]);
    if i < |es| {
      assert es[i..][0] == es[i] && es[i..][1..] == es[i + 1..];
    }
  }

  /** `split_child` on a non-full parent keeps the node shape and the traversal,
      and the median lands between the pairs that surround the split child. */
  lemma SplitPreserves<V>(p: Node<V>, i: nat, isRoot: bool)
    requires WF(p, isRoot) && |p.entries| < MAX_KEYS
    requires i < |p.children| && |p.children[i].entries| == MAX_KEYS
    requires Sorted(Entries(p))
    ensures p.children[i].leaf || |p.children[i].children| == MAX_KEYS + 1
    ensures var s := SplitChild(p, i);
      && WF(s, isRoot) && Entries(s) == Entries(p)
      && s.entries == p.entries[..i] + [p.children[i].entries[MIN_KEYS]] + p.entries[i..]
  {
    SplitEntries(p, i);
    SplitChildShape(p, i);
  }

  // ================================================================ insert

  lemma InsertLeafCorrect<V>(n: Node<V>, k: Key, v: V, isRoot: bool)
    requires WF(n, isRoot) && n.leaf && |n.entries| < MAX_KEYS
    requires k !in KeysOf(Entries(n))
    ensures var r := InsertNonFull(n, k, v);
      WF(r, isRoot) && Entries(r) == InsertKey(Entries(n), k, v)
  {
    WeaveLeaf(n.entries, n.children);
    var r := InsertNonFull(n, k, v);
    WeaveLeaf(r.entries, r.children);
    InsertKeyLength(n.entries, k, v);
  }

  /** Every key a node holds itself also appears in its traversal. */
  lemma NodeKeysInTraversal<V>(n: Node<V>, k: Key)
    requires k !in KeysOf(Entries(n))
    ensures k !in KeysOf(n.entries)
  {
    forall t | 0 <= t < |n.entries|
      ensures n.entries[t].0 != k
    {
      WeaveMember(n.leaf, n.entries, n.children, t);
      var q :| 0 <= q < |Entries(n)| && Entries(n)[q] == n.entries[t];
      KeysOfMember(Entries(n), q);
    }
  }

  /** After the median is inserted at `i`, the descent index of
      `insert_non_full` (right of the median only when `k` is greater)
      still separates `k`. */
  lemma MedianSeparates<V>(es: seq<Entry<V>>, i: nat, mid: Entry<V>, k: Key)
    requires Separates(es, i, k) && mid.0 != k
    ensures Separates(es[..i] + [mid] + es[i..], if Less(mid.0, k) then i + 1 else i, k)
  {
    var s := es[..i] + [mid] + es[i..];
    if Less(mid.0, k) {
      assert s[..i + 1] == es[..i] + [mid];
      assert s[i + 1..] == es[i..];
    } else {
      LessTotal(mid.0, k);
      assert s[..i] == es[..i];
      assert s[i..] == [mid] + es[i..];
    }
  }

  /** `insert_non_full` with a key the subtree does not hold keeps the node
      shape and inserts the pair into the traversal exactly where
      `insert_key` would insert it. */
  lemma {:induction false} InsertNonFullCorrect<V>(n: Node<V>, k: Key, v: V, isRoot: bool)
    requires WF(n, isRoot) && |n.entries| < MAX_KEYS
    requires Sorted(Entries(n)) && k !in KeysOf(Entries(n))
    ensures var r := InsertNonFull(n, k, v);
      WF(r, isRoot) && Entries(r) == InsertKey(Entries(n), k, v)
    decreases Height(n), 2
  {
    if n.leaf {
      InsertLeafCorrect(n, k, v, isRoot);
    } else {
      DescentIndex(n, k, isRoot);
      var i := UpperBound(n.entries, k);
      if |n.children[i].entries| == MAX_KEYS {
        SplitThenDescend(n, i, k, v, isRoot);
      } else {
        DirectDescend(n, i, k, v, isRoot);
      }
    }
  }

  /** The child `insert_non_full` descends into separates a new key. */
  lemma DescentIndex<V>(n: Node<V>, k: Key, isRoot: bool)
    requires WF(n, isRoot) && !n.leaf
    requires Sorted(Entries(n)) && k !in KeysOf(Entries(n))
    ensures UpperBound(n.entries, k) < |n.children| && Separates(n.entries, UpperBound(n.entries, k), k)
  {
    WeaveSortedEntries(false, n.entries, n.children);
    NodeKeysInTraversal(n, k);
    UpperBoundSeparates(n.entries, k);
  }

  /** The branch of `insert_non_full` that first splits the full child `i`. */
  lemma {:induction false} SplitThenDescend<V>(n: Node<V>, i: nat, k: Key, v: V, isRoot: bool)
    requires WF(n, isRoot) && !n.leaf && |n.entries| < MAX_KEYS
    requires Sorted(Entries(n)) && k !in KeysOf(Entries(n))
    requires i == UpperBound(n.entries, k) && i < |n.children| && Separates(n.entries, i, k)
    requires |n.children[i].entries| == MAX_KEYS
    ensures var r := InsertNonFull(n, k, v);
      WF(r, isRoot) && Entries(r) == InsertKey(Entries(n), k, v)
    decreases Height(n), 1
  {
    SplitChildShape(n, i);
    var s := SplitChild(n, i);
    var j := if i < |s.entries| && Less(s.entries[i].0, k) then i + 1 else i;
    SplitDescentIndex(n, i, k, isRoot);
    DescendCorrect(s, j, k, v, isRoot, Height(n));
    assert InsertNonFull(n, k, v) == DescendInto(s, j, k, v, Height(n));
  }

  /** After the split, the index `insert_non_full` picks separates the new
      key and leads to a child with room. */
  lemma SplitDescentIndex<V>(n: Node<V>, i: nat, k: Key, isRoot: bool)
    requires WF(n, isRoot) && !n.leaf && |n.entries| < MAX_KEYS
    requires Sorted(Entries(n)) && k !in KeysOf(Entries(n))
    requires i < |n.children| && Separates(n.entries, i, k)
    requires |n.children[i].entries| == MAX_KEYS
    ensures n.children[i].leaf || |n.children[i].children| == MAX_KEYS + 1
    ensures var s := SplitChild(n, i);
      var j := if i < |s.entries| && Less(s.entries[i].0, k) then i + 1 else i;
      && WF(s, isRoot) && !s.leaf && Height(s) == Height(n)
      && Entries(s) == Entries(n) && Sorted(Entries(s)) && k !in KeysOf(Entries(s))
      && j < |s.children| && Separates(s.entries, j, k) && |s.children[j].entries| < MAX_KEYS
  {
    SplitPreserves(n, i, isRoot);
    SplitChildShape(n, i);
    var s := SplitChild(n, i);
    var mid := n.children[i].entries[MIN_KEYS];
    NodeKeysInTraversal(s, k);
    KeysOfMember(s.entries, i);
    MedianSeparates(n.entries, i, mid, k);
  }

  /** The branch of `insert_non_full` whose child `i` has room. */
  lemma {:induction false} DirectDescend<V>(n: Node<V>, i: nat, k: Key, v: V, isRoot: bool)
    requires WF(n, isRoot) && !n.leaf
    requires Sorted(Entries(n)) && k !in KeysOf(Entries(n))
    requires i == UpperBound(n.entries, k) && i < |n.children| && Separates(n.entries, i, k)
    requires |n.children[i].entries| < MAX_KEYS
    ensures var r := InsertNonFull(n, k, v);
      WF(r, isRoot) && Entries(r) == InsertKey(Entries(n), k, v)
    decreases Height(n), 1
  {
    DescendCorrect(n, i, k, v, isRoot, Height(n));
    assert InsertNonFull(n, k, v) == DescendInto(n, i, k, v, Height(n));
  }

  lemma {:induction false} DescendCorrect<V>(s: Node<V>, j: nat, k: Key, v: V, isRoot: bool, h: nat)
    requires WF(s, isRoot) && !s.leaf && Height(s) == h
    requires Sorted(Entries(s)) && k !in KeysOf(Entries(s))
    requires Separates(s.entries, j, k) && |s.children[j].entries| < MAX_KEYS
    ensures var r := DescendInto(s, j, k, v, h);
      WF(r, isRoot) && Entries(r) == InsertKey(Entries(s), k, v)
    decreases h, 0
  {
    var c := s.children[j];
    ChildSeparated(s, j, k);
    var before := Before(s, j);
    var after := After(s, j);
    KeysOfConcat(before + Entries(c), after);
    KeysOfConcat(before, Entries(c));
    InsertNonFullCorrect(c, k, v, false);
    var c' := InsertNonFull(c, k, v);
    assert DescendInto(s, j, k, v, h) == s.(children := s.children[j := c']);
    ReplaceChild(s, j, c', isRoot);
    InsertKeyMiddle(before, Entries(c), after, k, v);
  }

  /** Putting a child of the same height in place of child `j` keeps the node
      well formed and changes only that child's part of the traversal. */
  lemma ReplaceChild<V>(s: Node<V>, j: nat, c': Node<V>, isRoot: bool)
    requires WF(s, isRoot) && !s.leaf && j < |s.children|
    requires WF(c', false) && Height(c') == Height(s.children[j])
    ensures var r := s.(children := s.children[j := c']);
      WF(r, isRoot) && Entries(r) == Before(s, j) + Entries(c') + After(s, j)
  {
    var r := s.(children := s.children[j := c']);
    Decompose(r, j);
    assert r.children[..j] == s.children[..j] && r.children[j + 1..] == s.children[j + 1..];
    assert Height(r) == Height(s);
    assert forall t :: 0 <= t < |r.children| && t != j ==> r.children[t] == s.children[t];
  }

  /** `insert` of a key the tree does not hold: the tree stays well formed and
      sorted, and the traversal gains the pair at its sorted position. */
  lemma InsertCorrect<V>(t: Tree<V>, k: Key, v: V)
    requires Good(t) && k !in GetAllKeys(t)
    ensures Good(Insert(t, k, v))
    ensures Entries(Insert(t, k, v).root) == InsertKey(Entries(t.root), k, v)
    ensures GetSize(Insert(t, k, v)) == GetSize(t) + 1
  {
    if |t.root.entries| == MAX_KEYS {
      var grown := Node(false, [], [t.root]);
      assert Entries(grown) == Entries(t.root);
      assert WF(grown, true);
      SplitPreserves(grown, 0, true);
      InsertNonFullCorrect(SplitChild(grown, 0), k, v, true);
    } else {
      InsertNonFullCorrect(t.root, k, v, true);
    }
    InsertKeySorted(Entries(t.root), k, v);
    InsertKeyLength(Entries(t.root), k, v);
  }

  // ================================================================ search

  /** `search_node` on a well-formed sorted subtree finds exactly what its
      traversal holds. */
  lemma {:induction false} SearchCorrect<V>(n: Node<V>, k: Key, isRoot: bool)
    requires WF(n, isRoot) && Sorted(Entries(n))
    ensures SearchNode(n, k) == Lookup(Entries(n), k)
    decreases n
  {
    var es := n.entries;
    var i := LowerBound(es, k);
    if i < |es| && es[i].0 == k {
      FoundInNode(n, i);
    } else {
      WeaveSortedEntries(n.leaf, es, n.children);
      LowerBoundSeparates(es, k);
      if n.leaf {
        WeaveLeaf(es, n.children);
        SeparatedAbsent(es, i, k);
      } else {
        ChildSeparated(n, i, k);
        LookupMiddle(Before(n, i), Entries(n.children[i]), After(n, i), k);
        SearchCorrect(n.children[i], k, false);
      }
    }
  }

  /** A pair held by the node itself is what its traversal looks up. */
  lemma FoundInNode<V>(n: Node<V>, i: nat)
    requires WF(n, false) || WF(n, true)
    requires Sorted(Entries(n)) && i < |n.entries|
    ensures Lookup(Entries(n), n.entries[i].0) == Some(n.entries[i].1)
  {
    var es := n.entries;
    if n.leaf {
      WeaveLeaf(es, n.children);
      LookupSortedAt(es, i);
    } else {
      Decompose(n, i);
      var s := Entries(n);
      var m := |Before(n, i)| + |Entries(n.children[i])|;
      assert s[m] == After(n, i)[0] == es[i];
      LookupSortedAt(s, m);
    }
  }

  /** A fresh tree is well formed and holds nothing. */
  lemma EmptyGood<V>()
    ensures Good(Empty<V>()) && Entries(Empty<V>().root) == [] && GetSize(Empty<V>()) == 0
  {
  }

  /** `search` and `exists` on a well-formed sorted tree agree with its
      traversal: the key is found exactly when `get_all_keys` lists it. */
  lemma SearchTree<V>(t: Tree<V>, k: Key)
    requires Good(t)
    ensures Exists(t, k) <==> k in GetAllKeys(t)
    ensures Search(t, k).Success? ==> Search(t, k).value == Contents(Entries(t.root))[k]
    ensures Search(t, k) == Failure(NotFound) <==> k !in GetAllKeys(t)
  {
    SearchCorrect(t.root, k, true);
  }

  /** `get_all_keys` of a sorted tree is strictly ascending, so holds no duplicate. */
  lemma KeysAscending<V>(t: Tree<V>)
    requires Good(t)
    ensures forall i, j :: 0 <= i < j < |GetAllKeys(t)| ==> Less(GetAllKeys(t)[i], GetAllKeys(t)[j])
    ensures forall i, j :: 0 <= i < j < |GetAllKeys(t)| ==> GetAllKeys(t)[i] != GetAllKeys(t)[j]
  {
    forall i, j | 0 <= i < j < |GetAllKeys(t)|
      ensures GetAllKeys(t)[i] != GetAllKeys(t)[j]
    {
      LessAsymmetric(GetAllKeys(t)[i], GetAllKeys(t)[j]);
    }
  }

  // ================================================================ corrected upsert

  lemma ReplaceInConcat<V>(a: seq<Entry<V>>, b: seq<Entry<V>>, k: Key, v: V)
    ensures ReplaceIn(a + b, k, v) == ReplaceIn(a, k, v) + ReplaceIn(b, k, v)
  {
  }

  lemma {:induction false} ReplaceEntries<V>(n: Node<V>, k: Key, v: V)
    ensures Entries(Replace(n, k, v)) == ReplaceIn(Entries(n), k, v)
    decreases n, 1
  {
    ReplaceWeave(n.leaf, n.entries, n.children, k, v);
  }

  lemma {:induction false} ReplaceWeave<V>(leaf: bool, es: seq<Entry<V>>, cs: seq<Node<V>>, k: Key, v: V)
    ensures Weave(leaf, ReplaceIn(es, k, v), ReplaceAll(cs, k, v)) == ReplaceIn(Weave(leaf, es, cs), k, v)
    decreases cs, |es|
  {
    var es' := ReplaceIn(es, k, v);
    var cs' := ReplaceAll(cs, k, v);
    var first := if !leaf && 0 < |cs| then Entries(cs[0]) else [];
    var first' := if !leaf && 0 < |cs'| then Entries(cs'[0]) else [];
    if !leaf && 0 < |cs| {
      ReplaceEntries(cs[0], k, v);
    }
    assert first' == ReplaceIn(first, k, v);
    if |es| > 0 {
      var rest := if |cs| > 0 then cs[1..] else [];
      var rest' := if |cs'| > 0 then cs'[1..] else [];
      assert es'[1..] == ReplaceIn(es[1..], k, v);
      assert rest' == ReplaceAll(rest, k, v);
      ReplaceWeave(leaf, es[1..], rest, k, v);
      var w := Weave(leaf, es[1..], rest);
      assert Weave(leaf, es', cs') == first' + [es'[0]] + ReplaceIn(w, k, v);
      assert Weave(leaf, es, cs) == first + [es[0]] + w;
      ReplaceInConcat(first + [es[0]], w, k, v);
      ReplaceInConcat(first, [es[0]], k, v);
      assert ReplaceIn([es[0]], k, v) == [es'[0]];
    }
  }

  lemma {:induction false} ReplaceWF<V>(n: Node<V>, k: Key, v: V, isRoot: bool)
    requires WF(n, isRoot)
    ensures WF(Replace(n, k, v), isRoot) && Height(Replace(n, k, v)) == Height(n)
    decreases n
  {
    var r := Replace(n, k, v);
    forall i | 0 <= i < |n.children|
      ensures WF(r.children[i], false) && Height(r.children[i]) == Height(n.children[i])
    {
      ReplaceWF(n.children[i], k, v, false);
    }
  }

  /** The corrected upsert keeps the invariant for every key, present or not:
      the traversal is `insert_key` applied to the old one, so the contents are
      the old map with `k` bound to `v`, and the size grows only for a new key. */
  lemma PutCorrect<V>(t: Tree<V>, k: Key, v: V)
    requires Good(t)
    ensures Good(Put(t, k, v))
    ensures Entries(Put(t, k, v).root) == InsertKey(Entries(t.root), k, v)
    ensures Contents(Entries(Put(t, k, v).root)) == Contents(Entries(t.root))[k := v]
    ensures GetSize(Put(t, k, v)) == if k in GetAllKeys(t) then GetSize(t) else GetSize(t) + 1
  {
    SearchCorrect(t.root, k, true);
    if Exists(t, k) {
      ReplaceEntries(t.root, k, v);
      ReplaceWF(t.root, k, v, true);
      ReplaceIsInsertKey(Entries(t.root), k, v);
      InsertKeySorted(Entries(t.root), k, v);
    } else {
      InsertCorrect(t, k, v);
    }
    ContentsInsertKey(Entries(t.root), k, v);
    InsertKeyLength(Entries(t.root), k, v);
  }

  /** After `Put`, searching the key yields the value just stored. */
  lemma PutThenSearch<V>(t: Tree<V>, k: Key, v: V, k2: Key)
    requires Good(t)
    ensures Search(Put(t, k, v), k2) == if k2 == k then Success(v) else Search(t, k2)
  {
    PutCorrect(t, k, v);
    SearchCorrect(t.root, k2, true);
    SearchCorrect(Put(t, k, v).root, k2, true);
    LookupInsertKey(Entries(t.root), k, v, k2);
  }

  /** For a key the tree does not hold, `Put` is the as-written `insert`: the
      two differ only on keys that are already present. */
  lemma PutAbsentIsInsert<V>(t: Tree<V>, k: Key, v: V)
    requires Good(t) && k !in GetAllKeys(t)
    ensures Put(t, k, v) == Insert(t, k, v)
  {
    SearchTree(t, k);
  }

  // ================================================================ range query

  lemma {:induction false} FilterValuesConcat<V>(a: seq<Entry<V>>, b: seq<Entry<V>>, lo: Key, hi: Key)
    ensures FilterValues(a + b, lo, hi) == FilterValues(a, lo, hi) + FilterValues(b, lo, hi)
  {
    if |a| > 0 {
      assert (a + b)[1..] == a[1..] + b;
      FilterValuesConcat(a[1..], b, lo, hi);
    } else {
      assert a + b == b;
    }
  }

  lemma {:induction false} RangeNodeCorrect<V>(n: Node<V>, lo: Key, hi: Key, isRoot: bool)
    requires WF(n, isRoot)
    ensures multiset(RangeNode(n, lo, hi)) == multiset(FilterValues(Entries(n), lo, hi))
    decreases n, 1
  {
    if n.leaf {
      WeaveLeaf(n.entries, n.children);
    } else {
      RangeWeave(n.entries, n.children, lo, hi);
    }
  }

  lemma {:induction false} RangeWeave<V>(es: seq<Entry<V>>, cs: seq<Node<V>>, lo: Key, hi: Key)
    requires |cs| == |es| + 1
    requires forall i :: 0 <= i < |cs| ==> WF(cs[i], false)
    ensures multiset(FilterValues(Weave(false, es, cs), lo, hi))
         == multiset(FilterValues(es, lo, hi)) + multiset(RangeChildren(cs, lo, hi))
    decreases cs, |es|
  {
    RangeNodeCorrect(cs[0], lo, hi, false);
    if |es| == 0 {
      assert cs[1..] == [];
    } else {
      var c0, e0 := cs[0], es[0];
      var rest := Weave(false, es[1..], cs[1..]);
      assert Weave(false, es, cs) == Entries(c0) + [e0] + rest;
      FilterValuesConcat(Entries(c0) + [e0], rest, lo, hi);
      FilterValuesConcat(Entries(c0), [e0], lo, hi);
      assert es == [e0] + es[1..];
      FilterValuesConcat([e0], es[1..], lo, hi);
      RangeWeave(es[1..], cs[1..], lo, hi);
      var a, b, c := FilterValues(Entries(c0), lo, hi), FilterValues([e0], lo, hi), FilterValues(rest, lo, hi);
      var d, f := FilterValues(es[1..], lo, hi), RangeChildren(cs[1..], lo, hi);
      assert RangeChildren(cs, lo, hi) == RangeNode(c0, lo, hi) + f;
      MultisetShuffle(a, b, c, d, f, RangeNode(c0, lo, hi));
    }
  }

  lemma MultisetShuffle<T>(a: seq<T>, b: seq<T>, c: seq<T>, d: seq<T>, f: seq<T>, r: seq<T>)
    requires multiset(c) == multiset(d) + multiset(f) && multiset(r) == multiset(a)
    ensures multiset(a + b + c) == multiset(b + d) + multiset(r + f)
  {
  }

  /** `range_query` returns, as a multiset, the values of exactly the pairs
      whose key lies in `[lo, hi]` (in pre-order, not in key order). */
  lemma RangeQueryCorrect<V>(t: Tree<V>, lo: Key, hi: Key)
    requires Valid(t)
    ensures multiset(RangeQuery(t, lo, hi)) == multiset(FilterValues(Entries(t.root), lo, hi))
  {
    RangeNodeCorrect(t.root, lo, hi, true);
  }

  // ================================================================ building a tree

  /** No key occurs twice. */
  ghost predicate DistinctKeys<V>(es: seq<Entry<V>>)
  {
    forall i, j :: 0 <= i < j < |es| ==> es[i].0 != es[j].0
  }

  /** One as-written `insert` of a new key: the key set gains exactly that
      key, and searches of every other key answer as before. */
  lemma InsertNewKey<V>(t: Tree<V>, k: Key, v: V)
    requires Good(t) && k !in GetAllKeys(t)
    ensures Good(Insert(t, k, v)) && GetSize(Insert(t, k, v)) == GetSize(t) + 1
    ensures forall k2 :: k2 in GetAllKeys(Insert(t, k, v)) <==> k2 == k || k2 in GetAllKeys(t)
    ensures forall k2 :: Search(Insert(t, k, v), k2) == if k2 == k then Success(v) else Search(t, k2)
  {
    InsertCorrect(t, k, v);
    forall k2
      ensures k2 in GetAllKeys(Insert(t, k, v)) <==> k2 == k || k2 in GetAllKeys(t)
      ensures Search(Insert(t, k, v), k2) == if k2 == k then Success(v) else Search(t, k2)
    {
      KeysInsertKey(Entries(t.root), k, v, k2);
      PutAbsentIsInsert(t, k, v);
      PutThenSearch(t, k, v, k2);
    }
  }

  /** The as-written `insert` applied to each pair in turn. With no key
      repeated and none already stored, every step inserts a new key, so the
      tree stays well formed and sorted throughout. */
  function InsertAll<V>(t: Tree<V>, es: seq<Entry<V>>): (r: Tree<V>)
    requires Good(t) && DistinctKeys(es)
    requires forall i :: 0 <= i < |es| ==> es[i].0 !in GetAllKeys(t)
    ensures Good(r)
    decreases |es|
  {
    if |es| == 0 then t
    else
      InsertNewKey(t, es[0].0, es[0].1);
      assert forall i :: 0 <= i < |es| - 1 ==> es[1..][i] == es[i + 1];
      InsertAll(Insert(t, es[0].0, es[0].1), es[1..])
  }

  /** Inserting distinct new pairs one by one: the size grows by their
      number, the key set gains exactly their keys, each of their keys
      searches to its own value, and every other key answers as before. */
  lemma {:induction false} InsertAllCorrect<V>(t: Tree<V>, es: seq<Entry<V>>)
    requires Good(t) && DistinctKeys(es)
    requires forall i :: 0 <= i < |es| ==> es[i].0 !in GetAllKeys(t)
    ensures GetSize(InsertAll(t, es)) == GetSize(t) + |es|
    ensures forall k :: k in GetAllKeys(InsertAll(t, es)) <==> k in GetAllKeys(t) || k in KeysOf(es)
    ensures forall k :: Search(InsertAll(t, es), k) ==
                          if k in KeysOf(es) then Success(Lookup(es, k).value) else Search(t, k)
    decreases |es|
  {
    if |es| > 0 {
      var e, tail := es[0], es[1..];
      InsertNewKey(t, e.0, e.1);
      var t1 := Insert(t, e.0, e.1);
      InsertAllUnfold(t, es);
      InsertAllCorrect(t1, tail);
      var r := InsertAll(t1, tail);
      forall k
        ensures Search(r, k) == if k in KeysOf(es) then Success(Lookup(es, k).value) else Search(t, k)
      {
        if k != e.0 {
          assert Lookup(es, k) == Lookup(tail, k);
        }
      }
    }
  }

  /** The first step of `InsertAll`, and the facts about the remaining
      pairs that the next step needs. */
  lemma InsertAllUnfold<V>(t: Tree<V>, es: seq<Entry<V>>)
    requires Good(t) && DistinctKeys(es) && |es| > 0
    requires forall i :: 0 <= i < |es| ==> es[i].0 !in GetAllKeys(t)
    requires Good(Insert(t, es[0].0, es[0].1))
    requires forall k2 :: k2 in GetAllKeys(Insert(t, es[0].0, es[0].1)) <==> k2 == es[0].0 || k2 in GetAllKeys(t)
    ensures DistinctKeys(es[1..])
    ensures forall i :: 0 <= i < |es| - 1 ==> es[1..][i].0 !in GetAllKeys(Insert(t, es[0].0, es[0].1))
    ensures InsertAll(t, es) == InsertAll(Insert(t, es[0].0, es[0].1), es[1..])
    ensures KeysOf(es) == [es[0].0] + KeysOf(es[1..]) && es[0].0 !in KeysOf(es[1..])
  {
    var tail := es[1..];
    assert forall i :: 0 <= i < |tail| ==> tail[i] == es[i + 1];
  }

  /** A tree built from empty by inserting pairwise-distinct keys:
      `get_all_keys` is strictly ascending and lists exactly those keys,
      `get_size` is their number, `exists` holds exactly for them, and
      `search` returns each key's value and throws for any other key. */
  lemma BuildFromEmpty<V>(es: seq<Entry<V>>)
    requires DistinctKeys(es)
    ensures Good(Empty<V>())
    ensures var t := InsertAll(Empty(), es);
      && (forall i, j :: 0 <= i < j < |GetAllKeys(t)| ==> Less(GetAllKeys(t)[i], GetAllKeys(t)[j]))
      && (forall k :: k in GetAllKeys(t) <==> k in KeysOf(es))
      && GetSize(t) == |es|
      && (forall k :: Exists(t, k) <==> k in KeysOf(es))
      && (forall i :: 0 <= i < |es| ==> Search(t, es[i].0) == Success(es[i].1))
      && (forall k :: k !in KeysOf(es) ==> Search(t, k) == Failure(NotFound))
  {
    EmptyGood<V>();
    var e: Tree<V> := Empty();
    InsertAllCorrect(e, es);
    var t := InsertAll(e, es);
    KeysAscending(t);
    forall k
      ensures Exists(t, k) <==> k in KeysOf(es)
      ensures k !in KeysOf(es) ==> Search(t, k) == Failure(NotFound)
    {
      SearchTree(t, k);
      SearchTree(e, k);
    }
    forall i | 0 <= i < |es|
      ensures Search(t, es[i].0) == Success(es[i].1)
    {
      DistinctLookup(es, i);
    }
  }

  /** With distinct keys, each pair is the one its key looks up. */
  lemma {:induction false} DistinctLookup<V>(es: seq<Entry<V>>, i: nat)
    requires DistinctKeys(es) && i < |es|
    ensures es[i].0 in KeysOf(es) && Lookup(es, es[i].0) == Some(es[i].1)
    decreases i
  {
    if i > 0 {
      var tail := es[1..];
      assert forall a :: 0 <= a < |tail| ==> tail[a] == es[a + 1];
      DistinctLookup(tail, i - 1);
      assert es[0].0 != es[i].0;
    }
  }

  // ================================================================ the as-written insert

  /** A single-byte key, for the concrete trees below. */
  function K(b: byte): Key
  {
    [b]
  }

  function Leaf<V>(es: seq<Entry<V>>): Node<V>
  {
    Node(true, es, [])
  }

  /** Pairs whose keys are single bytes in increasing order are sorted. */
  lemma SinglesSorted<V>(s: seq<Entry<V>>)
    requires forall i :: 0 <= i < |s| ==> |s[i].0| == 1
    requires forall i, j :: 0 <= i < j < |s| ==> s[i].0[0] < s[j].0[0]
    ensures Sorted(s)
  {
  }

  /** Keys 1 to 5 in one full leaf root; key 3 holds `w`, the others `v`. */
  function FullLeaf<V>(v: V, w: V): Node<V>
  {
    Leaf([(K(1), v), (K(2), v), (K(3), w), (K(4), v), (K(5), v)])
  }

  /** The same pairs after one root split: 3 above, 1 2 and 4 5 below. */
  function SplitRoot<V>(v: V, w: V): Node<V>
  {
    Node(false, [(K(3), w)], [Leaf([(K(1), v), (K(2), v)]), Leaf([(K(4), v), (K(5), v)])])
  }

  /** `SplitRoot` with a second pair for key 3, holding `x`, in the right leaf. */
  function DuplicateRoot<V>(v: V, w: V, x: V): Node<V>
  {
    Node(false, [(K(3), w)], [Leaf([(K(1), v), (K(2), v)]), Leaf([(K(3), x), (K(4), v), (K(5), v)])])
  }

  /** Key 10 in the root, over the full leaf 1 to 5 and the leaf 11 12. */
  function MedianRoot<V>(v: V, w: V): Node<V>
  {
    Node(false, [(K(10), v)], [FullLeaf(v, w), Leaf([(K(11), v), (K(12), v)])])
  }

  /** `MedianRoot` after the full leaf split with 3 as its median, and a second
      pair for key 3, holding `x`, in the left half. */
  function MedianDuplicate<V>(v: V, w: V, x: V): Node<V>
  {
    Node(false, [(K(3), w), (K(10), v)],
         [Leaf([(K(1), v), (K(2), v), (K(3), x)]), Leaf([(K(4), v), (K(5), v)]), Leaf([(K(11), v), (K(12), v)])])
  }

  lemma TwoLevelEntries<V>(x: Entry<V>, lower: Node<V>, upper: Node<V>)
    requires lower.leaf && lower.children == [] && upper.leaf && upper.children == []
    ensures Entries(Node(false, [x], [lower, upper])) == lower.entries + [x] + upper.entries
  {
    var root := Node(false, [x], [lower, upper]);
    WeaveLeaf(lower.entries, lower.children);
    WeaveLeaf(upper.entries, upper.children);
    assert root.children[1..] == [upper];
    assert Weave(false, root.entries[1..], root.children[1..]) == Entries(upper);
    assert Entries(root) == Entries(lower) + [x] + Weave(false, root.entries[1..], root.children[1..]);
  }

  lemma ThreeLevelEntries<V>(x: Entry<V>, y: Entry<V>, a: Node<V>, b: Node<V>, c: Node<V>)
    requires a.leaf && a.children == [] && b.leaf && b.children == [] && c.leaf && c.children == []
    ensures Entries(Node(false, [x, y], [a, b, c])) == a.entries + [x] + b.entries + [y] + c.entries
  {
    var root := Node(false, [x, y], [a, b, c]);
    WeaveLeaf(a.entries, a.children);
    WeaveLeaf(b.entries, b.children);
    WeaveLeaf(c.entries, c.children);
    assert root.entries[1..] == [y] && root.children[1..] == [b, c];
    TwoLevelEntries(y, b, c);
    assert Weave(false, [y], [b, c]) == b.entries + [y] + c.entries;
    assert Entries(root) == Entries(a) + [x] + Weave(false, root.entries[1..], root.children[1..]);
  }

  lemma SplitRootGood<V>(v: V, w: V)
    ensures Good(Tree(SplitRoot(v, w)))
    ensures GetAllKeys(Tree(SplitRoot(v, w))) == [K(1), K(2), K(3), K(4), K(5)]
  {
    var root := SplitRoot(v, w);
    assert Height(root.children[0]) == 1 && Height(root.children[1]) == 1 && Height(root) == 2;
    assert WF(root.children[0], false) && WF(root.children[1], false);
    TwoLevelEntries((K(3), w), root.children[0], root.children[1]);
    var es := [(K(1), v), (K(2), v), (K(3), w), (K(4), v), (K(5), v)];
    assert Entries(root) == es;
    SinglesSorted(es);
  }

  lemma MedianRootGood<V>(v: V, w: V)
    ensures Good(Tree(MedianRoot(v, w)))
    ensures GetAllKeys(Tree(MedianRoot(v, w))) == [K(1), K(2), K(3), K(4), K(5), K(10), K(11), K(12)]
  {
    var root := MedianRoot(v, w);
    TwoLevelEntries((K(10), v), root.children[0], root.children[1]);
    var es := [(K(1), v), (K(2), v), (K(3), w), (K(4), v), (K(5), v), (K(10), v), (K(11), v), (K(12), v)];
    assert Entries(root) == es;
    SinglesSorted(es);
  }

  /** Key 3 is stored twice, and the search finds the copy in the root. */
  lemma DuplicateRootFacts<V>(v: V, w: V, x: V)
    ensures GetAllKeys(Tree(DuplicateRoot(v, w, x))) == [K(1), K(2), K(3), K(3), K(4), K(5)]
    ensures Search(Tree(DuplicateRoot(v, w, x)), K(3)) == Success(w)
    ensures !Good(Tree(DuplicateRoot(v, w, x)))
  {
    var root := DuplicateRoot(v, w, x);
    TwoLevelEntries((K(3), w), root.children[0], root.children[1]);
    LessIrreflexive(K(3));
    assert Entries(root)[2].0 == Entries(root)[3].0;
    assert LowerBound(root.entries, K(3)) == 0;
  }

  lemma MedianDuplicateFacts<V>(v: V, w: V, x: V)
    ensures GetAllKeys(Tree(MedianDuplicate(v, w, x)))
      == [K(1), K(2), K(3), K(3), K(4), K(5), K(10), K(11), K(12)]
    ensures Search(Tree(MedianDuplicate(v, w, x)), K(3)) == Success(w)
    ensures !Good(Tree(MedianDuplicate(v, w, x)))
  {
    var root := MedianDuplicate(v, w, x);
    ThreeLevelEntries((K(3), w), (K(10), v), root.children[0], root.children[1], root.children[2]);
    LessIrreflexive(K(3));
    assert Entries(root)[2].0 == Entries(root)[3].0;
    assert LowerBound(root.entries, K(3)) == 0;
  }

  /** Inserting key 3 into `SplitRoot`: the descent index is right of the
      separator 3, so the pair is added to the right leaf. */
  lemma InsertIntoSplitRoot<V>(v: V, w: V, x: V)
    ensures Valid(Tree(SplitRoot(v, w)))
    ensures Insert(Tree(SplitRoot(v, w)), K(3), x) == Tree(DuplicateRoot(v, w, x))
  {
    var root := SplitRoot(v, w);
    var upper := root.children[1];
    LessIrreflexive(K(3));
    assert UpperBound(root.entries, K(3)) == 1;
    assert LowerBound(upper.entries, K(3)) == 0;
    assert InsertNonFull(upper, K(3), x) == DuplicateRoot(v, w, x).children[1];
    assert InsertNonFull(root, K(3), x) == DescendInto(root, 1, K(3), x, Height(root));
    assert DescendInto(root, 1, K(3), x, Height(root)) == DuplicateRoot(v, w, x);
  }

  /** Inserting key 3 into `FullLeaf`: the root splits with 3 as the median,
      which moves up, and the descent then passes it to the right. */
  lemma InsertIntoFullLeaf<V>(v: V, w: V, x: V)
    ensures Valid(Tree(FullLeaf(v, w)))
    ensures Insert(Tree(FullLeaf(v, w)), K(3), x) == Tree(DuplicateRoot(v, w, x))
  {
    var leaf := FullLeaf(v, w);
    var grown := Node(false, [], [leaf]);
    assert LowerBound(grown.entries, K(3)) == 0;
    assert InsertKey(grown.entries, K(3), w) == [(K(3), w)];
    assert LowerHalf(leaf) == SplitRoot(v, w).children[0];
    assert UpperHalf(leaf) == SplitRoot(v, w).children[1];
    assert SplitChild(grown, 0) == SplitRoot(v, w);
    InsertIntoSplitRoot(v, w, x);
    assert InsertNonFull(SplitRoot(v, w), K(3), x) == DuplicateRoot(v, w, x);
  }

  /** The split of the full leaf under `MedianRoot`: 3 moves up in front of 10. */
  lemma SplitUnderMedianRoot<V>(v: V, w: V)
    ensures WF(MedianRoot(v, w), true)
    ensures SplitChild(MedianRoot(v, w), 0)
      == Node(false, [(K(3), w), (K(10), v)],
              [Leaf([(K(1), v), (K(2), v)]), Leaf([(K(4), v), (K(5), v)]), Leaf([(K(11), v), (K(12), v)])])
  {
    var root := MedianRoot(v, w);
    var leaf := FullLeaf(v, w);
    assert Less(K(3), K(10));
    assert LowerBound(root.entries, K(3)) == 0;
    assert InsertKey(root.entries, K(3), w) == [(K(3), w), (K(10), v)];
    assert LowerHalf(leaf) == Leaf([(K(1), v), (K(2), v)]);
    assert UpperHalf(leaf) == Leaf([(K(4), v), (K(5), v)]);
  }

  /** Inserting key 3 into `MedianRoot`: the full child is split with 3 as
      its median, and since 3 is not greater than the new separator 3 the
      descent stays in the left half, which gets a second pair for 3. */
  lemma InsertIntoMedianRoot<V>(v: V, w: V, x: V)
    ensures Valid(Tree(MedianRoot(v, w)))
    ensures Insert(Tree(MedianRoot(v, w)), K(3), x) == Tree(MedianDuplicate(v, w, x))
  {
    var root := MedianRoot(v, w);
    SplitUnderMedianRoot(v, w);
    var s := SplitChild(root, 0);
    LessIrreflexive(K(3));
    assert Less(K(3), K(10));
    assert UpperBound(root.entries, K(3)) == 0;
    var lower := s.children[0];
    assert LowerBound(lower.entries, K(3)) == 2;
    assert InsertNonFull(lower, K(3), x) == MedianDuplicate(v, w, x).children[0];
    assert InsertNonFull(root, K(3), x) == MedianDuplicate(v, w, x);
  }

  /** The as-written `insert` is not an upsert: re-inserting a key held in an
      internal node stores it a second time, breaks the order invariant, and
      a later `search` still returns the old value. */
  lemma InsertDuplicatesInternalKey<V>(v: V, w: V, x: V)
    requires w != x
    ensures var t := Tree(SplitRoot(v, w));
      && Good(t) && Exists(t, K(3))
      && GetSize(Insert(t, K(3), x)) == GetSize(t) + 1
      && Search(Insert(t, K(3), x), K(3)) == Success(w) != Success(x)
      && !Good(Insert(t, K(3), x))
  {
    SplitRootGood(v, w);
    InsertIntoSplitRoot(v, w, x);
    DuplicateRootFacts(v, w, x);
    SearchTree(Tree(SplitRoot(v, w)), K(3));
  }

  /** The same when a full root is split first: the key moves up as the
      median and the descent then passes it. */
  lemma InsertDuplicatesAfterRootSplit<V>(v: V, w: V, x: V)
    requires w != x
    ensures var t := Tree(FullLeaf(v, w));
      && Good(t) && K(3) in GetAllKeys(t)
      && GetSize(Insert(t, K(3), x)) == GetSize(t) + 1
      && Search(Insert(t, K(3), x), K(3)) == Success(w) != Success(x)
      && !Good(Insert(t, K(3), x))
  {
    var es := FullLeaf(v, w).entries;
    WeaveLeaf(es, []);
    SinglesSorted(es);
    InsertIntoFullLeaf(v, w, x);
    DuplicateRootFacts(v, w, x);
  }

  /** And when a full child is split on the way down with the key as its
      median: the test `key > keys[i]` fails, so the descent goes into the
      left half, which does not hold the key any more. */
  lemma InsertDuplicatesMedian<V>(v: V, w: V, x: V)
    requires w != x
    ensures var t := Tree(MedianRoot(v, w));
      && Good(t) && Exists(t, K(3))
      && GetSize(Insert(t, K(3), x)) == GetSize(t) + 1
      && Search(Insert(t, K(3), x), K(3)) == Success(w) != Success(x)
      && !Good(Insert(t, K(3), x))
  {
    MedianRootGood(v, w);
    InsertIntoMedianRoot(v, w, x);
    MedianDuplicateFacts(v, w, x);
    SearchTree(Tree(MedianRoot(v, w)), K(3));
  }
}
