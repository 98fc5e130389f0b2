/** In-order iteration: which leaves are visited, in what order, and where a callback stops it. */
module TrieOrder {
  import opened Bytes
  import opened Trie

  datatype Entry = Entry(key: Key, val: CellId)

  /** The leaves below `t` in the order of the recursive iteration: edge bytes ascending. */
  function Entries(t: Tree): seq<Entry>
    decreases t, 1
  {
    match t
    case Leaf(key, val) => [Entry(key, val)]
    case Inner(_, _, _, _) => EntriesFrom(t, 0)
  }

  /** The leaves below the children of `t` whose edge byte is at least `b`. */
  function EntriesFrom(t: Tree, b: nat): seq<Entry>
    requires t.Inner? && b <= 256
    decreases t, 0, 256 - b
  {
    if b == 256 then []
    else (if b in t.kids then Entries(t.kids[b]) else []) + EntriesFrom(t, b + 1)
  }

  lemma {:induction false} EntriesHas(t: Tree, k: Key, v: CellId)
    ensures Entry(k, v) in Entries(t) <==> Has(t, k, v)
    decreases t, 1
  {
    if t.Inner? {
      EntriesFromHas(t, 0, k, v);
    }
  }

  lemma {:induction false} EntriesFromHas(t: Tree, b: nat, k: Key, v: CellId)
    requires t.Inner? && b <= 256
    ensures Entry(k, v) in EntriesFrom(t, b) <==> exists c :: c in t.kids && b <= c && Has(t.kids[c], k, v)
    decreases t, 0, 256 - b
  {
    if b < 256 {
      EntriesFromHas(t, b + 1, k, v);
      if b in t.kids {
        EntriesHas(t.kids[b], k, v);
      }
    }
  }

  ghost predicate Ascending(es: seq<Entry>) {
    forall i, j :: 0 <= i < j < |es| ==> Less(es[i].key, es[j].key)
  }

  lemma AscendingConcat(a: seq<Entry>, b: seq<Entry>)
    requires Ascending(a) && Ascending(b)
    requires forall i, j :: 0 <= i < |a| && 0 <= j < |b| ==> Less(a[i].key, b[j].key)
    ensures Ascending(a + b)
  {
  }

  /** The iteration meets the leaves in strictly ascending byte-lexicographic order of their keys. */
  lemma {:induction false} IterationAscends(t: Tree, d: nat)
    requires WF(t, d)
    ensures Ascending(Entries(t))
    decreases t, 1
  {
    hide WF, NodeOk, MinKey;
    if t.Inner? {
      AscendsFrom(t, d, 0);
    }
  }

  lemma {:induction false} AscendsFrom(t: Tree, d: nat, b: nat)
    requires WF(t, d) && t.Inner? && b <= 256
    ensures Ascending(EntriesFrom(t, b))
    decreases t, 0, 256 - b
  {
    hide WF, NodeOk, MinKey;
    if b < 256 {
      AscendsFrom(t, d, b + 1);
      if b in t.kids {
        var here, rest := Entries(t.kids[b]), EntriesFrom(t, b + 1);
        Child(t, d, b);
        IterationAscends(t.kids[b], d + t.plen + 1);
        forall i, j | 0 <= i < |here| && 0 <= j < |rest|
          ensures Less(here[i].key, rest[j].key)
        {
          EarlierChildFirst(t, d, b, here[i], rest[j]);
        }
        AscendingConcat(here, rest);
      }
    }
  }

  lemma EarlierChildFirst(t: Tree, d: nat, b: Byte, x: Entry, y: Entry)
    requires WF(t, d) && t.Inner? && b in t.kids
    requires x in Entries(t.kids[b]) && y in EntriesFrom(t, b + 1)
    ensures Less(x.key, y.key)
  {
    hide WF, NodeOk, MinKey;
    EntriesHas(t.kids[b], x.key, x.val);
    EntriesFromHas(t, b + 1, y.key, y.val);
    var c :| c in t.kids && b + 1 <= c && Has(t.kids[c], y.key, y.val);
    BelowChild(t, d, b, x.key, x.val);
    BelowChild(t, d, c, y.key, y.val);
    LessAt(x.key, y.key, d + t.plen);
  }

  /** A key below child `c` spells the path of the node and continues with `c`. */
  lemma BelowChild(t: Tree, d: nat, c: Byte, k: Key, v: CellId)
    requires WF(t, d) && t.Inner? && c in t.kids && Has(t.kids[c], k, v)
    ensures Has(t, k, v) && Edge(k, MinKey(t), d + t.plen, c)
  {
    hide WF, NodeOk, MinKey;
    Child(t, d, c);
    KeyThrough(t.kids[c], d + t.plen + 1, k, v);
  }

  /** The leaf that `minimum` finds is the first of the iteration: no stored key is smaller. */
  lemma MinimumFirst(t: Tree, d: nat)
    requires WF(t, d)
    ensures |Entries(t)| > 0 && Entries(t)[0].key == MinKey(t)
    ensures forall k, v :: Has(t, k, v) ==> k == MinKey(t) || Less(MinKey(t), k)
  {
    hide WF, NodeOk, MinKey;
    FirstEntry(t, d);
    IterationAscends(t, d);
    forall k, v: CellId | Has(t, k, v)
      ensures k == MinKey(t) || Less(MinKey(t), k)
    {
      EntriesHas(t, k, v);
    }
  }

  lemma {:induction false} FirstEntry(t: Tree, d: nat)
    requires WF(t, d)
    ensures |Entries(t)| > 0 && Entries(t)[0].key == MinKey(t)
    decreases t, 1
  {
    if t.Inner? {
      NodeOkAt(t, d);
      assert t.kids != map[];
      Child(t, d, Least(t.kids));
      FirstEntry(t.kids[Least(t.kids)], d + t.plen + 1);
      assert exists c :: c in t.kids && 0 <= c by {
        assert Least(t.kids) in t.kids;
      }
      SkipTo(t, 0);
    }
  }

  lemma {:induction false} SkipTo(t: Tree, b: Byte)
    requires t.Inner? && exists c :: c in t.kids && b <= c
    ensures Entries(t.kids[LeastFrom(t.kids, b)]) <= EntriesFrom(t, b)
    decreases 256 - b
  {
    if b !in t.kids {
      SkipTo(t, b + 1);
      assert EntriesFrom(t, b) == EntriesFrom(t, b + 1);
    }
  }

  /** The number of leaves is the number of stored keys. */
  lemma LeafCount(t: Tree, d: nat, m: map<Key, CellId>)
    requires WF(t, d) && Denotes(t, m)
    ensures |Entries(t)| == |m|
  {
    hide WF, NodeOk, MinKey;
    IterationAscends(t, d);
    var es := Entries(t);
    forall k
      ensures k in KeySet(es) <==> k in m
    {
      InKeySet(es, k);
      if k in m {
        assert Has(t, k, m[k]);
        EntriesHas(t, k, m[k]);
      }
      if k in KeySet(es) {
        var i :| 0 <= i < |es| && es[i].key == k;
        EntriesHas(t, k, es[i].val);
      }
    }
    DistinctKeys(es);
    assert KeySet(es) == m.Keys;
  }

  function KeySet(es: seq<Entry>): set<Key> {
    if es == [] then {} else KeySet(es[..|es| - 1]) + {es[|es| - 1].key}
  }

  lemma {:induction false} InKeySet(es: seq<Entry>, k: Key)
    ensures k in KeySet(es) <==> exists i :: 0 <= i < |es| && es[i].key == k
  {
    if es != [] {
      InKeySet(es[..|es| - 1], k);
    }
  }

  lemma {:induction false} DistinctKeys(es: seq<Entry>)
    requires Ascending(es)
    ensures |KeySet(es)| == |es|
  {
    if es != [] {
      hide Less;
      var init, last := es[..|es| - 1], es[|es| - 1];
      DistinctKeys(init);
      LessTotal(last.key, last.key);
      InKeySet(init, last.key);
    }
  }

  // ---------- callbacks ----------

  /**
   * The leaves visited and the result when every leaf is shown to a callback until one answers
   * non-zero. The callback's own state is a function of the leaves it has been shown.
   */
  function Visit(es: seq<Entry>, cb: seq<Entry> -> int, seen: seq<Entry>): (seq<Entry>, int) {
    if es == [] then (seen, 0)
    else
      var now := seen + [es[0]];
      if cb(now) != 0 then (now, cb(now)) else Visit(es[1..], cb, now)
  }

  lemma {:induction false} VisitConcat(a: seq<Entry>, b: seq<Entry>, cb: seq<Entry> -> int, seen: seq<Entry>)
    ensures Visit(a + b, cb, seen)
      == var (now, res) := Visit(a, cb, seen); if res != 0 then (now, res) else Visit(b, cb, now)
  {
    if a == [] {
      assert a + b == b;
    } else {
      assert (a + b)[1..] == a[1..] + b;
      VisitConcat(a[1..], b, cb, seen + [a[0]]);
    }
  }

  /** The visit covers exactly the entries up to and including the first non-zero answer, or all of them. */
  lemma {:induction false} VisitExact(es: seq<Entry>, cb: seq<Entry> -> int, seen: seq<Entry>) returns (n: nat)
    ensures n <= |es|
    ensures var (now, res) := Visit(es, cb, seen);
      && now == seen + es[..n]
      && (forall i :: 0 < i < n ==> cb(seen + es[..i]) == 0)
      && (res == 0 ==> n == |es| && (n > 0 ==> cb(now) == 0))
      && (res != 0 ==> n > 0 && cb(now) == res)
  {
    n := 0;
    if es != [] {
      n := 1;
      var now := seen + [es[0]];
      assert es[..1] == [es[0]];
      if cb(now) == 0 {
        var m := VisitExact(es[1..], cb, now);
        n := m + 1;
        assert forall i :: 0 <= i <= m ==> now + es[1..][..i] == seen + es[..i + 1];
        forall i | 0 < i < n
          ensures cb(seen + es[..i]) == 0
        {
          assert seen + es[..i] == now + es[1..][..i - 1];
        }
      }
    }
  }

  // ---------- one child at a time ----------

  /** `c` is the first edge byte at or after `lo`. */
  ghost predicate NextEdge(t: Tree, lo: nat, c: Byte)
    requires t.Inner?
  {
    c in t.kids && lo <= c && forall d :: d in t.kids && lo <= d ==> c <= d
  }

  lemma {:induction false} SkipToEdge(t: Tree, lo: nat, c: Byte)
    requires t.Inner? && NextEdge(t, lo, c)
    ensures EntriesFrom(t, lo) == Entries(t.kids[c]) + EntriesFrom(t, c + 1)
    decreases c - lo
  {
    if lo < c {
      SkipToEdge(t, lo + 1, c);
      assert EntriesFrom(t, lo) == [] + EntriesFrom(t, lo + 1);
    }
  }

  /** Visiting the rest of a node is visiting its next child and then, unless stopped, what is left. */
  lemma VisitEdge(t: Tree, lo: nat, c: Byte, cb: seq<Entry> -> int, seen: seq<Entry>)
    requires t.Inner? && NextEdge(t, lo, c)
    ensures Visit(EntriesFrom(t, lo), cb, seen)
      == var (now, res) := Visit(Entries(t.kids[c]), cb, seen);
         if res != 0 then (now, res) else Visit(EntriesFrom(t, c + 1), cb, now)
  {
    SkipToEdge(t, lo, c);
    VisitConcat(Entries(t.kids[c]), EntriesFrom(t, c + 1), cb, seen);
  }

  lemma {:induction false} NoEdgeLeft(t: Tree, lo: nat)
    requires t.Inner? && lo <= 256 && forall d :: d in t.kids ==> d < lo
    ensures EntriesFrom(t, lo) == []
    decreases 256 - lo
  {
    if lo < 256 {
      NoEdgeLeft(t, lo + 1);
    }
  }

  lemma NoEdgeAt(t: Tree, b: Byte)
    requires t.Inner? && b !in t.kids
    ensures EntriesFrom(t, b) == EntriesFrom(t, b + 1)
  {
  }

  lemma EntriesOf(t: Tree)
    ensures Entries(t) == if t.Leaf? then [Entry(t.key, t.val)] else EntriesFrom(t, 0)
  {
  }
}
