/** Rust's `BTreeMap<u32, V>`, modelled as its in-order contents: a list of
    (key, value) entries with strictly ascending keys. `View` is the plain map
    the entries denote; iteration visits the entries in list order. */
module BTreeMap {
  import opened Wrappers
  import opened Bytes

  /** Keys strictly increase along the list, so no key occurs twice. */
  ghost predicate StrictlySorted<V>(s: seq<(u32, V)>)
  {
    forall i, j :: 0 <= i < j < |s| ==> s[i].0 < s[j].0
  }

  /** A `BTreeMap<u32, V>`: its entries in ascending key order. */
  type OrderedMap<V> = s: seq<(u32, V)> | StrictlySorted(s) witness []

  /** The key-to-value map denoted by a list of entries. */
  function View<V>(s: seq<(u32, V)>): (m: map<u32, V>)
    ensures forall i :: 0 <= i < |s| ==> s[i].0 in m
    ensures forall k :: k in m ==> exists i :: 0 <= i < |s| && s[i].0 == k
    ensures StrictlySorted(s) ==> forall i :: 0 <= i < |s| ==> m[s[i].0] == s[i].1
  {
    if |s| == 0 then map[]
    else View(s[1..])[s[0].0 := s[0].1]
  }

  /** `BTreeMap::new()`. */
  function Empty<V>(): (m: OrderedMap<V>)
    ensures View(m) == map[]
  {
    []
  }

  /** `BTreeMap::insert`: adds the entry, replacing the value already stored
      under `k` if there is one, and keeps the keys in ascending order. */
  function Insert<V>(m: OrderedMap<V>, k: u32, v: V): (r: OrderedMap<V>)
    ensures View(r) == View(m)[k := v]
    ensures |r| == if k in View(m) then |m| else |m| + 1
  {
    if |m| == 0 then [(k, v)]
    else if k < m[0].0 then
      FirstKeyIsLeast(m);
      Cons((k, v), m)
    else if k == m[0].0 then
      ReplaceHead(m, v);
      Cons((k, v), m[1..])
    else
      var rest := Insert(m[1..], k, v);
      InsertPastHead(m, rest, k, v);
      Cons(m[0], rest)
  }

  /** A non-empty ordered map is its first entry added to the rest. */
  lemma HeadSplit<V>(m: OrderedMap<V>)
    requires |m| != 0
    ensures View(m) == View(m[1..])[m[0].0 := m[0].1]
    ensures forall k :: k in View(m[1..]) ==> m[0].0 < k
  {
    TailKeysAbove(m);
  }

  /** Inserting at the first key replaces the first entry. */
  lemma ReplaceHead<V>(m: OrderedMap<V>, v: V)
    requires |m| != 0
    ensures View(m)[m[0].0 := v] == View(m[1..])[m[0].0 := v]
    ensures forall k :: k in View(m[1..]) ==> m[0].0 < k
    ensures m[0].0 in View(m)
  {
    HeadSplit(m);
  }

  /** Inserting above the first key leaves the first entry in front. */
  lemma InsertPastHead<V>(m: OrderedMap<V>, rest: OrderedMap<V>, k: u32, v: V)
    requires |m| != 0 && m[0].0 < k
    requires View(rest) == View(m[1..])[k := v]
    ensures forall key :: key in View(rest) ==> m[0].0 < key
    ensures View(m)[k := v] == View(rest)[m[0].0 := m[0].1]
    ensures k in View(m) <==> k in View(m[1..])
  {
    HeadSplit(m);
    UpdatesCommute(View(m[1..]), k, v, m[0].0, m[0].1);
  }

  /** Updates of two different keys can be applied in either order. */
  lemma UpdatesCommute<V>(M: map<u32, V>, a: u32, x: V, b: u32, y: V)
    requires a != b
    ensures M[a := x][b := y] == M[b := y][a := x]
  {
  }

  /** Prepends an entry whose key is below every key of `s`. */
  function Cons<V>(e: (u32, V), s: OrderedMap<V>): (r: OrderedMap<V>)
    requires forall k :: k in View(s) ==> e.0 < k
    ensures View(r) == View(s)[e.0 := e.1]
    ensures |r| == |s| + 1 && r[0] == e && r[1..] == s
  {
    ConsSorted(e, s);
    [e] + s
  }

  /** Prepending a key below all others keeps the list ordered. */
  lemma ConsSorted<V>(e: (u32, V), s: OrderedMap<V>)
    requires forall k :: k in View(s) ==> e.0 < k
    ensures StrictlySorted([e] + s)
    ensures ([e] + s)[1..] == s
  {
    var r := [e] + s;
    assert r[1..] == s;
    forall i, j | 0 <= i < j < |r|
      ensures r[i].0 < r[j].0
    {
      assert r[j] == s[j - 1];
      if i == 0 {
        assert s[j - 1].0 in View(s);
      } else {
        assert r[i] == s[i - 1];
      }
    }
  }

  /** The first key of an ordered map is below every other key in it. */
  lemma FirstKeyIsLeast<V>(m: OrderedMap<V>)
    requires |m| != 0
    ensures forall k :: k in View(m) ==> m[0].0 <= k
  {
    forall k | k in View(m)
      ensures m[0].0 <= k
    {
      var i :| 0 <= i < |m| && m[i].0 == k;
    }
  }

  /** Every key after the first is strictly above it. */
  lemma TailKeysAbove<V>(m: OrderedMap<V>)
    requires |m| != 0
    ensures forall k :: k in View(m[1..]) ==> m[0].0 < k
  {
    var tail: OrderedMap<V> := m[1..];
    forall k | k in View(tail)
      ensures m[0].0 < k
    {
      var i :| 0 <= i < |tail| && tail[i].0 == k;
      assert tail[i] == m[i + 1];
    }
  }

  /** `iter().map(..)` over the entries: the same keys in the same order,
      each value transformed by `f`. */
  function MapValues<V, W>(m: OrderedMap<V>, f: V -> W): (r: OrderedMap<W>)
    ensures |r| == |m|
    ensures forall i :: 0 <= i < |m| ==> r[i].0 == m[i].0 && r[i].1 == f(m[i].1)
    ensures View(r).Keys == View(m).Keys
  {
    var r := seq(|m|, i requires 0 <= i < |m| => (m[i].0, f(m[i].1)));
    SameKeys(r, m);
    r
  }

  /** Lists with the same keys position by position have the same key set. */
  lemma SameKeys<V, W>(a: seq<(u32, V)>, b: seq<(u32, W)>)
    requires |a| == |b| && forall i :: 0 <= i < |a| ==> a[i].0 == b[i].0
    ensures View(a).Keys == View(b).Keys
  {
    forall k | k in View(a)
      ensures k in View(b)
    {
      var i :| 0 <= i < |a| && a[i].0 == k;
      assert b[i].0 in View(b);
    }
    forall k | k in View(b)
      ensures k in View(a)
    {
      var i :| 0 <= i < |b| && b[i].0 == k;
      assert a[i].0 in View(a);
    }
  }

  /** `BTreeMap::get`: the value stored under `k`, or `None`. */
  function Get<V>(m: OrderedMap<V>, k: u32): (r: Option<V>)
    ensures r.Some? <==> k in View(m)
    ensures r.Some? ==> r.value == View(m)[k]
  {
    if |m| == 0 then None
    else if m[0].0 == k then Some(m[0].1)
    else Get(m[1..], k)
  }

  /** The ascending order of a `BTreeMap`'s entries is determined by its
      contents: two ordered maps with the same view are the same list. */
  lemma {:induction false} ViewDeterminesEntries<V>(a: OrderedMap<V>, b: OrderedMap<V>)
    requires View(a) == View(b)
    ensures a == b
    decreases |a|
  {
    if |a| == 0 {
      EmptyView(b);
    } else {
      var k := a[0].0;
      assert k in View(b);
      assert |b| != 0;
      FirstKeyIsLeast(a);
      FirstKeyIsLeast(b);
      assert b[0].0 in View(a);
      assert b[0].0 == k;
      assert a[0] == b[0];
      var ta: OrderedMap<V> := a[1..];
      var tb: OrderedMap<V> := b[1..];
      TailKeysAbove(a);
      TailKeysAbove(b);
      assert View(a) == View(ta)[k := a[0].1];
      assert View(b) == View(tb)[k := a[0].1];
      UpdateCancels(View(ta), View(tb), k, a[0].1);
      ViewDeterminesEntries(ta, tb);
      assert a == [a[0]] + ta;
      assert b == [b[0]] + tb;
    }
  }

  /** Only the empty list denotes the empty map. */
  lemma EmptyView<V>(s: seq<(u32, V)>)
    requires View(s) == map[]
    ensures s == []
  {
  }

  /** An update of a key absent from both maps can be undone. */
  lemma UpdateCancels<V>(M: map<u32, V>, N: map<u32, V>, k: u32, x: V)
    requires k !in M && k !in N
    requires M[k := x] == N[k := x]
    ensures M == N
  {
    assert M == M[k := x] - {k};
    assert N == N[k := x] - {k};
  }
}
