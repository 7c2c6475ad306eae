/** A hash table that grows as items are added, and an iterator over it. */
module HashTables {
  import opened Options
  import opened Lists
  import W = Words

  const InitialBuckets: nat := 4
  const ResizeRatio: nat := 3
  const IncreaseSizeBy: nat := 4

  lemma SameRemainder(h: nat, n: nat)
    requires n > 0
    ensures (h - h % n) % n == 0
  {
    assert h == h / n * n + h % n;
    W.MultipleOf(h / n, n);
  }

  /** How keys are found and where they go. */
  datatype Scheme<!Key, !T> = Scheme(getKey: T -> Key, hash: Key -> nat) {
    function Slot(k: Key, n: nat): (i: nat)
      requires n > 0
      ensures i < n && (hash(k) - i) % n == 0
    {
      SameRemainder(hash(k), n);
      hash(k) % n
    }
  }

  type Table<T> = seq<seq<T>>

  // -------------------------------------------------------------- what a table holds

  /** Every item is the one the map has for its key, and sits in the bucket of its key. */
  ghost predicate Placed<Key, T>(s: Scheme<Key, T>, b: Table<T>, m: map<Key, T>) {
    forall i, j | 0 <= i < |b| && 0 <= j < |b[i]| ::
      s.getKey(b[i][j]) in m && m[s.getKey(b[i][j])] == b[i][j] && s.Slot(s.getKey(b[i][j]), |b|) == i
  }

  ghost predicate KeysDiffer<Key, T>(s: Scheme<Key, T>, bucket: seq<T>) {
    forall j, l | 0 <= j < l < |bucket| :: s.getKey(bucket[j]) != s.getKey(bucket[l])
  }

  ghost predicate Complete<Key, T>(s: Scheme<Key, T>, b: Table<T>, m: map<Key, T>)
    requires |b| > 0
  {
    forall k | k in m :: m[k] in b[s.Slot(k, |b|)] && s.getKey(m[k]) == k
  }

  /** The buckets hold the map: all of it, each item once, where its key hashes to. */
  ghost predicate Holds<Key, T>(s: Scheme<Key, T>, b: Table<T>, m: map<Key, T>) {
    && |b| > 0 && Placed(s, b, m) && Complete(s, b, m)
    && forall i | 0 <= i < |b| :: KeysDiffer(s, b[i])
  }

  lemma HoldsNothing<Key, T>(s: Scheme<Key, T>, n: nat)
    requires n > 0
    ensures Holds(s, seq(n, i => []), map[])
  {
  }

  lemma HoldsMore<Key, T>(s: Scheme<Key, T>, b: Table<T>, m: map<Key, T>, item: T)
    requires Holds(s, b, m) && s.getKey(item) !in m
    ensures var k := s.getKey(item);
            var i := s.Slot(k, |b|);
            Holds(s, b[i := b[i] + [item]], m[k := item])
  {
    var k := s.getKey(item);
    var i := s.Slot(k, |b|);
    var b', m' := b[i := b[i] + [item]], m[k := item];
    forall l | l in m' ensures m'[l] in b'[s.Slot(l, |b'|)] {
      if l == k {
        assert b'[i][|b[i]|] == item;
      }
    }
  }

  /** Taking out the item at a place. */
  lemma HoldsLess<Key, T>(s: Scheme<Key, T>, b: Table<T>, m: map<Key, T>, i: nat, j: nat)
    requires Holds(s, b, m) && i < |b| && j < |b[i]|
    ensures s.getKey(b[i][j]) in m
    ensures Holds(s, b[i := b[i][..j] + b[i][j + 1..]], m - {s.getKey(b[i][j])})
  {
    var k := s.getKey(b[i][j]);
    var rest := b[i][..j] + b[i][j + 1..];
    var b', m' := b[i := rest], m - {k};
    assert forall l | 0 <= l < |rest| :: rest[l] == b[i][if l < j then l else l + 1];
    forall l | l in m' ensures m'[l] in b'[s.Slot(l, |b'|)] {
      var h := s.Slot(l, |b|);
      var p :| 0 <= p < |b[h]| && b[h][p] == m[l];
      if h == i {
        assert p != j;
        assert rest[if p < j then p else p - 1] == m[l];
      }
    }
  }

  /** The item with a key, if the map has it, is the only one in its bucket with that key. */
  lemma FoundIs<Key, T>(s: Scheme<Key, T>, b: Table<T>, m: map<Key, T>, k: Key, j: nat)
    requires Holds(s, b, m) && j < |b[s.Slot(k, |b|)]| && s.getKey(b[s.Slot(k, |b|)][j]) == k
    ensures k in m && m[k] == b[s.Slot(k, |b|)][j]
  {
  }

  // -------------------------------------------------------------- all the items in order

  function Concat<T>(b: Table<T>): (r: seq<T>) {
    if b == [] then [] else b[0] + Concat(b[1..])
  }

  lemma {:induction false} ConcatHas<T>(b: Table<T>, x: T)
    ensures x in Concat(b) <==> exists i :: 0 <= i < |b| && x in b[i]
  {
    if b != [] {
      ConcatHas(b[1..], x);
      if x in Concat(b[1..]) {
        var i :| 0 <= i < |b[1..]| && x in b[1..][i];
        assert x in b[i + 1];
      }
      if i :| 0 <= i < |b| && x in b[i] && i > 0 {
        assert x in b[1..][i - 1];
      }
    }
  }

  /** Items in different places have different keys. */
  ghost predicate AllDiffer<Key, T>(s: Scheme<Key, T>, b: Table<T>) {
    && (forall i | 0 <= i < |b| :: KeysDiffer(s, b[i]))
    && (forall i, p, x, y | 0 <= i < p < |b| && x in b[i] && y in b[p] :: s.getKey(x) != s.getKey(y))
  }

  lemma HoldsDiffer<Key, T>(s: Scheme<Key, T>, b: Table<T>, m: map<Key, T>)
    requires Holds(s, b, m)
    ensures AllDiffer(s, b)
  {
    forall i, p, x, y | 0 <= i < p < |b| && x in b[i] && y in b[p] ensures s.getKey(x) != s.getKey(y) {
      var j :| 0 <= j < |b[i]| && b[i][j] == x;
      var l :| 0 <= l < |b[p]| && b[p][l] == y;
    }
  }

  lemma {:induction false} ConcatDiffers<Key, T>(s: Scheme<Key, T>, b: Table<T>)
    requires AllDiffer(s, b)
    ensures KeysDiffer(s, Concat(b))
  {
    if b != [] {
      assert AllDiffer(s, b[1..]) by {
        assert forall i | 0 <= i < |b[1..]| :: b[1..][i] == b[i + 1];
      }
      ConcatDiffers(s, b[1..]);
      var rest := Concat(b[1..]);
      forall x, y | x in b[0] && y in rest ensures s.getKey(x) != s.getKey(y) {
        ConcatHas(b[1..], y);
        var i :| 0 <= i < |b[1..]| && y in b[1..][i];
        assert y in b[i + 1];
      }
    }
  }

  ghost function Keys<Key, T>(s: Scheme<Key, T>, q: seq<T>): set<Key> {
    set i | 0 <= i < |q| :: s.getKey(q[i])
  }

  lemma {:induction false} KeyCount<Key, T>(s: Scheme<Key, T>, q: seq<T>)
    requires KeysDiffer(s, q)
    ensures |Keys(s, q)| == |q|
  {
    if q != [] {
      var n := |q| - 1;
      KeyCount(s, q[..n]);
      assert Keys(s, q) == Keys(s, q[..n]) + {s.getKey(q[n])};
      assert s.getKey(q[n]) !in Keys(s, q[..n]);
    }
  }

  /** Read bucket by bucket, a table lists every item of its map exactly once. */
  lemma ConcatIsContents<Key(!new), T(!new)>(s: Scheme<Key, T>, b: Table<T>, m: map<Key, T>)
    requires Holds(s, b, m)
    ensures KeysDiffer(s, Concat(b)) && |Concat(b)| == |m|
    ensures forall x :: x in Concat(b) <==> s.getKey(x) in m && m[s.getKey(x)] == x
  {
    HoldsDiffer(s, b, m);
    ConcatDiffers(s, b);
    forall x ensures x in Concat(b) <==> s.getKey(x) in m && m[s.getKey(x)] == x {
      ConcatMember(s, b, m, x);
    }
    forall k | k in m ensures m[k] in Concat(b) && s.getKey(m[k]) == k {
      ConcatMember(s, b, m, m[k]);
    }
    hide Holds, Concat, KeysDiffer;
    KeyCount(s, Concat(b));
    SameKeys(s, Concat(b), m);
  }

  lemma ConcatMember<Key, T>(s: Scheme<Key, T>, b: Table<T>, m: map<Key, T>, x: T)
    requires Holds(s, b, m)
    ensures x in Concat(b) <==> s.getKey(x) in m && m[s.getKey(x)] == x
  {
    hide Concat;
    ConcatHas(b, x);
    if s.getKey(x) in m && m[s.getKey(x)] == x {
      assert x in b[s.Slot(s.getKey(x), |b|)];
    }
  }

  lemma SameKeys<Key(!new), T(!new)>(s: Scheme<Key, T>, q: seq<T>, m: map<Key, T>)
    requires forall x | x in q :: s.getKey(x) in m && m[s.getKey(x)] == x
    requires forall k | k in m :: m[k] in q && s.getKey(m[k]) == k
    ensures Keys(s, q) == m.Keys
  {
    forall k | k in m ensures k in Keys(s, q) {
      var i :| 0 <= i < |q| && q[i] == m[k];
    }
  }

  // -------------------------------------------------------------- the table

  function LoadFactor(numItems: nat, numBuckets: nat): nat
    requires numBuckets > 0
  {
    numItems / numBuckets
  }

  lemma FullLoad(n: nat, b: nat)
    requires 0 < b && n <= ResizeRatio * b
    ensures LoadFactor(n, b) >= ResizeRatio <==> n == ResizeRatio * b
  {
    assert n == n / b * b + n % b;
    if n == ResizeRatio * b {
      assert n / b >= ResizeRatio by { DivExact(n, b); }
    } else if n / b >= ResizeRatio {
      AtLeast(n / b, b);
    }
  }

  lemma DivExact(n: nat, b: nat)
    requires b > 0 && n == ResizeRatio * b
    ensures n / b == ResizeRatio
  {
  }

  lemma AtLeast(q: nat, b: nat)
    requires q >= ResizeRatio
    ensures q * b >= ResizeRatio * b
  {
  }

  // -------------------------------------------------------------- buckets as linked lists

  /** Well-formed lists among the objects of repr, with all their elements there too, that share
      neither list nor element. */
  ghost predicate Separate<T>(ls: seq<List<T>>, repr: set<object>)
    reads repr
  {
    && (forall i | 0 <= i < |ls| :: Owned(ls[i], repr))
    && (forall i, j | 0 <= i < |ls| && 0 <= j < |ls| && i != j :: Apart(ls[i], ls[j], repr))
  }

  ghost predicate Owned<T>(l: List<T>, repr: set<object>)
    reads repr
  {
    l in repr && (forall e | e in l.spine :: e in repr) && l.Valid()
  }

  ghost predicate Apart<T>(l: List<T>, k: List<T>, repr: set<object>)
    reads repr
  {
    l in repr && k in repr && l != k && forall e | e in l.spine :: e !in k.spine
  }

  ghost function Rows<T>(ls: seq<List<T>>): (b: Table<T>)
    reads ls
    ensures |b| == |ls|
  {
    seq(|ls|, i requires 0 <= i < |ls| reads ls => ls[i].Contents())
  }

  lemma RowIs<T>(ls: seq<List<T>>, i: nat)
    requires i < |ls|
    ensures Rows(ls)[i] == ls[i].Contents()
  {
  }

  lemma ListOwned<T>(ls: seq<List<T>>, repr: set<object>, i: nat)
    requires i < |ls| && Separate(ls, repr)
    ensures ls[i] in repr && (forall e | e in ls[i].spine :: e in repr) && ls[i].Valid()
  {
  }

  /** The operations on one of several lists, which leave the others alone. */
  method AppendTo<T(==)>(ghost ls: seq<List<T>>, ghost repr: set<object>, ghost i: nat, list: List<T>, item: T) returns (ghost repr': set<object>)
    requires i < |ls| && ls[i] == list && Separate(ls, repr) && item !in Rows(ls)[i]
    modifies list, list.spine
    ensures repr <= repr' && fresh(repr' - repr)
    ensures Separate(ls, repr') && Rows(ls) == old(Rows(ls))[i := old(Rows(ls)[i]) + [item]]
  {
    list.Append(item);
    repr' := repr + set k | 0 <= k < |list.spine| :: list.spine[k];
    forall j | 0 <= j < |ls| && j != i ensures Owned(ls[j], repr') && ls[j].spine == old(ls[j].spine) {
      assert old(Apart(ls[j], list, repr)) && old(Owned(ls[j], repr));
      assert forall k | 0 <= k < |ls[j].spine| :: ls[j].spine[k] !in old(list.spine);
      assert forall k | 0 <= k < |ls[j].spine| :: ls[j].spine[k].next == old(ls[j].spine[k].next);
    }
    forall j, k | 0 <= j < |ls| && 0 <= k < |ls| && j != k ensures Apart(ls[j], ls[k], repr') {
      assert old(Apart(ls[j], ls[k], repr));
    }
  }

  method TakeFront<T(==)>(ghost ls: seq<List<T>>, ghost repr: set<object>, ghost i: nat, list: List<T>) returns (item: T)
    requires i < |ls| && ls[i] == list && Separate(ls, repr) && Rows(ls)[i] != []
    modifies list
    ensures item == old(Rows(ls)[i][0])
    ensures Separate(ls, repr) && Rows(ls) == old(Rows(ls))[i := old(Rows(ls)[i])[1..]]
  {
    hide List.Valid, Items;
    item := list.RemoveFront();
    forall j | 0 <= j < |ls| && j != i ensures Owned(ls[j], repr) && ls[j].spine == old(ls[j].spine) {
      assert old(Apart(ls[j], list, repr)) && old(Owned(ls[j], repr));
    }
    forall j, k | 0 <= j < |ls| && 0 <= k < |ls| && j != k ensures Apart(ls[j], ls[k], repr) {
      assert old(Apart(ls[j], ls[k], repr));
    }
  }

  method TakeOut<T(==)>(ghost ls: seq<List<T>>, ghost repr: set<object>, ghost i: nat, list: List<T>, item: T)
    requires i < |ls| && ls[i] == list && Separate(ls, repr) && item in Rows(ls)[i]
    modifies list, list.spine
    ensures Separate(ls, repr) && Rows(ls) == old(Rows(ls))[i := Without(old(Rows(ls)[i]), item)]
  {
    list.Remove(item);
    forall j | 0 <= j < |ls| && j != i ensures Owned(ls[j], repr) && ls[j].spine == old(ls[j].spine) {
      assert old(Apart(ls[j], list, repr)) && old(Owned(ls[j], repr));
      assert forall k | 0 <= k < |ls[j].spine| :: ls[j].spine[k] !in old(list.spine);
      assert forall k | 0 <= k < |ls[j].spine| :: ls[j].spine[k].next == old(ls[j].spine[k].next);
    }
    forall j, k | 0 <= j < |ls| && 0 <= k < |ls| && j != k ensures Apart(ls[j], ls[k], repr) {
      assert old(Apart(ls[j], ls[k], repr));
    }
  }

  /** New empty lists. */
  method InitBuckets<T(==)>(sz: nat) returns (buckets: array<List<T>>, ghost repr: set<object>)
    ensures fresh(buckets) && fresh(repr) && buckets.Length == sz && Separate(buckets[..], repr) && buckets !in repr
    ensures Rows(buckets[..]) == seq(sz, i => [])
  {
    var lists: seq<List<T>> := [];
    repr := {};
    while |lists| < sz
      invariant |lists| <= sz && fresh(repr)
      invariant forall i | 0 <= i < |lists| :: lists[i] in repr && lists[i].Valid() && lists[i].spine == []
      invariant forall i, j | 0 <= i < |lists| && 0 <= j < |lists| && i != j :: lists[i] != lists[j]
    {
      var list := new List<T>();
      lists := lists + [list];
      repr := repr + {list};
    }
    buckets := new List<T>[sz](i requires 0 <= i < sz => lists[i]);
    assert buckets[..] == lists;
  }

  /** Two tables that share nothing, taken as one. */
  lemma Joined<T>(a: seq<List<T>>, ra: set<object>, b: seq<List<T>>, rb: set<object>)
    requires Separate(a, ra) && Separate(b, rb) && ra !! rb
    ensures Separate(a + b, ra + rb) && Rows(a + b) == Rows(a) + Rows(b)
  {
    var c, r := a + b, ra + rb;
    hide List.Valid;
    forall i | 0 <= i < |c| ensures Owned(c[i], r) {
      assert if i < |a| then Owned(a[i], ra) else Owned(b[i - |a|], rb);
    }
    forall i, j | 0 <= i < |c| && 0 <= j < |c| && i != j ensures Apart(c[i], c[j], r) {
      if i < |a| && j < |a| {
        assert Apart(a[i], a[j], ra);
      } else if i >= |a| && j >= |a| {
        assert Apart(b[i - |a|], b[j - |a|], rb);
      } else if i < |a| {
        assert Owned(a[i], ra) && Owned(b[j - |a|], rb);
      } else {
        assert Owned(b[i - |a|], rb) && Owned(a[j], ra);
      }
    }
  }

  lemma Parted<T>(a: seq<List<T>>, b: seq<List<T>>, repr: set<object>)
    requires Separate(a + b, repr)
    ensures Separate(b, repr) && Rows(b) == Rows(a + b)[|a|..]
  {
    var c := a + b;
    hide List.Valid;
    forall i | 0 <= i < |b| ensures b[i] == c[|a| + i] && Owned(b[i], repr) {
      assert Owned(c[|a| + i], repr);
    }
    forall i, j | 0 <= i < |b| && 0 <= j < |b| && i != j ensures Apart(b[i], b[j], repr) {
      assert Apart(c[|a| + i], c[|a| + j], repr);
    }
  }

  /** The rows of two tables after the first item of a row of one has moved to the end of a row
      of the other. */
  lemma MovedRows<T>(r: Table<T>, n: nat, i: nat, h: nat)
    requires i < n && n + h < |r| && r[i] != []
    ensures var r' := r[i := r[i][1..]][n + h := r[n + h] + [r[i][0]]];
            && r'[..n] == r[..n][i := r[..n][i][..0] + r[..n][i][0 + 1..]]
            && r'[n..] == r[n..][h := r[n..][h] + [r[i][0]]]
  {
    assert r[i][..0] + r[i][1..] == r[i][1..];
  }

  /** An item whose key the map lacks is in no row. */
  lemma NotThere<Key, T>(s: Scheme<Key, T>, b: Table<T>, m: map<Key, T>, item: T, h: nat)
    requires Holds(s, b, m) && s.getKey(item) !in m && h < |b|
    ensures item !in b[h]
  {
  }

  lemma IsThere<Key, T>(s: Scheme<Key, T>, b: Table<T>, m: map<Key, T>, key: Key)
    requires Holds(s, b, m) && key in m
    ensures m[key] in b[s.Slot(key, |b|)] && s.getKey(m[key]) == key
  {
  }

  /** Removing the item with a key from its row. */
  lemma HoldsWithout<Key, T>(s: Scheme<Key, T>, b: Table<T>, m: map<Key, T>, key: Key)
    requires Holds(s, b, m) && key in m
    ensures var h := s.Slot(key, |b|);
            Holds(s, b[h := Without(b[h], m[key])], m - {key})
  {
    var h := s.Slot(key, |b|);
    var j :| 0 <= j < |b[h]| && b[h][j] == m[key];
    assert m[key] !in b[h][..j] by {
      assert forall l | 0 <= l < j :: s.getKey(b[h][l]) != s.getKey(b[h][j]);
    }
    WithoutAt(b[h], m[key], j);
    HoldsLess(s, b, m, h, j);
  }

  /** The first item of a list with a key. */
  method Search<Key(==), T(==)>(scheme: Scheme<Key, T>, list: List<T>, key: Key) returns (item: Option<T>, ghost j: nat)
    requires list.Linked()
    ensures item.Some? ==> j < |list.Contents()| && list.Contents()[j] == item.value && scheme.getKey(item.value) == key
    ensures item.None? ==> forall x | x in list.Contents() :: scheme.getKey(x) != key
  {
    hide List.Linked, Items;
    var iter := new ListIterator(list);
    j := 0;
    while !iter.IsDone()
      invariant iter.Valid() && iter.list == list && iter.index == j
      invariant forall l | 0 <= l < j :: scheme.getKey(list.Contents()[l]) != key
      decreases |list.Contents()| - j
    {
      if key == scheme.getKey(iter.Item()) {
        return Some(iter.Item()), j;
      }
      iter.Next();
      j := j + 1;
    }
    return None, j;
  }

  class HashTable<Key(==, !new), T(==, !new)> {
    const scheme: Scheme<Key, T>
    var buckets: array<List<T>>
    var numItems: nat
    ghost var contents: map<Key, T>
    ghost var repr: set<object>

    ghost predicate Valid()
      reads this, buckets, repr
    {
      && this !in repr && buckets !in repr && Separate(buckets[..], repr)
      && Holds(scheme, Lists(), contents)
      && numItems == |contents| <= ResizeRatio * buckets.Length
    }

    /** The items of each bucket. */
    ghost function Lists(): (b: Table<T>)
      requires Separate(buckets[..], repr)
      reads this, buckets, repr
      ensures |b| == buckets.Length
    {
      ListsOwned(buckets[..], repr);
      Rows(buckets[..])
    }

    constructor (scheme: Scheme<Key, T>)
      ensures Valid() && fresh(buckets) && fresh(repr) && contents == map[] && this.scheme == scheme
    {
      this.scheme := scheme;
      numItems, contents := 0, map[];
      var table;
      ghost var owned;
      table, owned := InitBuckets<T>(InitialBuckets);
      buckets, repr := table, owned;
      new;
      HoldsNothing(scheme, InitialBuckets);
    }

    method FindInBucket(bucket: nat, key: Key) returns (item: Option<T>)
      requires Valid() && bucket == scheme.Slot(key, buckets.Length)
      ensures item == if key in contents then Some(contents[key]) else None
    {
      hide Holds, Scheme.Slot, Separate, Rows;
      ghost var rows := Lists();
      BucketsExist(scheme, rows, contents);
      RowIs(buckets[..], bucket);
      ListOwned(buckets[..], repr, bucket);
      ghost var j;
      item, j := Search(scheme, buckets[bucket], key);
      if item.Some? {
        FoundIs(scheme, rows, contents, key, j);
      } else if key in contents {
        IsThere(scheme, rows, contents, key);
      }
    }

    method Find(key: Key) returns (item: Option<T>)
      requires Valid()
      ensures item == if key in contents then Some(contents[key]) else None
    {
      BucketsExist(scheme, Lists(), contents);
      item := FindInBucket(scheme.Slot(key, buckets.Length), key);
    }

    method Insert(item: T)
      requires Valid() && scheme.getKey(item) !in contents
      modifies this, repr
      ensures Valid() && contents == old(contents)[scheme.getKey(item) := item]
      ensures if old(numItems) < ResizeRatio * old(buckets.Length) then buckets == old(buckets)
              else fresh(buckets) && buckets.Length == old(buckets.Length) * IncreaseSizeBy
      ensures fresh(repr - old(repr))
    {
      hide Holds, Scheme.Slot, LoadFactor, Separate, Rows, List.Valid;
      BucketsExist(scheme, Lists(), contents);
      var key := scheme.getKey(item);
      FullLoad(numItems, buckets.Length);
      if LoadFactor(numItems, buckets.Length) >= ResizeRatio {
        ReHash();
      }
      ghost var rows := Lists();
      HoldsMore(scheme, rows, contents, item);
      var h := scheme.Slot(key, buckets.Length);
      NotThere(scheme, rows, contents, item, h);
      ListOwned(buckets[..], repr, h);
      repr := AppendTo(buckets[..], repr, h, buckets[h], item);
      contents := contents[key := item];
      numItems := numItems + 1;
    }

    /** Moving the first item of an old bucket to the bucket it has in the new table. */
    method MoveFront(from: List<T>, ghost ls: seq<List<T>>, ghost owned: set<object>, ghost n: nat, ghost i: nat,
                     ghost moved: map<Key, T>, ghost left: map<Key, T>)
      returns (ghost owned': set<object>, ghost key: Key)
      requires |ls| == n + buckets.Length && ls[n..] == buckets[..] && i < n && ls[i] == from && Separate(ls, owned)
      requires Rows(ls)[i] != [] && moved.Keys !! left.Keys && this !in owned && buckets !in owned
      requires Holds(scheme, Rows(ls)[n..], moved) && Holds(scheme, Rows(ls)[..n], left)
      modifies owned
      ensures Separate(ls, owned') && owned <= owned' && fresh(owned' - owned)
      ensures key in left && Rows(ls)[..n] == old(Rows(ls)[..n][i := Rows(ls)[i][1..]])
      ensures Holds(scheme, Rows(ls)[n..], moved[key := left[key]]) && Holds(scheme, Rows(ls)[..n], left - {key})
    {
      hide Holds, Separate, Scheme.Slot, Rows, List.Valid;
      ghost var rows := Rows(ls);
      BucketsExist(scheme, rows[n..], moved);
      HoldsLess(scheme, rows[..n], left, i, 0);
      FirstIs(scheme, rows[..n], left, i);
      ListOwned(ls, owned, i);
      var item := TakeFront(ls, owned, i, from);
      key := scheme.getKey(item);
      HoldsMore(scheme, rows[n..], moved, item);
      var h := scheme.Slot(scheme.getKey(item), buckets.Length);
      NotThere(scheme, rows[n..], moved, item, h);
      MovedRows(rows, n, i, h);
      assert rows[n..][h] == rows[n + h] && ls[n..][h] == ls[n + h];
      ListOwned(ls, owned, n + h);
      owned' := AppendTo(ls, owned, n + h, buckets[h], item);
    }

    method Drain(from: List<T>, ghost ls: seq<List<T>>, ghost owned: set<object>, ghost n: nat, ghost i: nat,
                 ghost moved: map<Key, T>, ghost left: map<Key, T>)
      returns (ghost owned': set<object>, ghost moved': map<Key, T>, ghost left': map<Key, T>)
      requires |ls| == n + buckets.Length && ls[n..] == buckets[..] && i < n && ls[i] == from && Separate(ls, owned)
      requires Split(moved, left, contents) && this !in owned && buckets !in owned
      requires Holds(scheme, Rows(ls)[n..], moved) && Holds(scheme, Rows(ls)[..n], left)
      modifies owned
      ensures Separate(ls, owned') && owned <= owned' && fresh(owned' - owned)
      ensures Rows(ls)[..n] == old(Rows(ls)[..n][i := []]) && Split(moved', left', contents)
      ensures Holds(scheme, Rows(ls)[n..], moved') && Holds(scheme, Rows(ls)[..n], left')
    {
      hide Holds, Split, Separate, List.Linked, Rows;
      owned', moved', left' := owned, moved, left;
      ListOwned(ls, owned, i);
      RowIs(ls, i);
      while !from.IsEmpty()
        invariant Separate(ls, owned') && owned <= owned' && fresh(owned' - owned)
        invariant from.Valid() && Rows(ls)[i] == from.Contents()
        invariant Holds(scheme, Rows(ls)[n..], moved') && Holds(scheme, Rows(ls)[..n], left')
        invariant Split(moved', left', contents)
        invariant Rows(ls)[..n][i := []] == old(Rows(ls)[..n][i := []])
        decreases |Rows(ls)[i]|
      {
        SplitDisjoint(moved', left', contents);
        ghost var key;
        owned', key := MoveFront(from, ls, owned', n, i, moved', left');
        SplitMove(moved', left', contents, key);
        moved', left' := moved'[key := left'[key]], left' - {key};
        ListOwned(ls, owned', i);
        RowIs(ls, i);
      }
      assert Rows(ls)[..n] == Rows(ls)[..n][i := []];
    }

    method MoveAll(oldTable: array<List<T>>, oldSize: nat, ghost ls: seq<List<T>>, ghost owned: set<object>)
      returns (ghost owned': set<object>)
      requires oldSize == oldTable.Length && ls == oldTable[..] + buckets[..] && Separate(ls, owned)
      requires this !in owned && buckets !in owned && oldTable !in owned
      requires Holds(scheme, Rows(ls)[oldSize..], map[]) && Holds(scheme, Rows(ls)[..oldSize], contents)
      modifies owned
      ensures Separate(ls, owned') && owned <= owned' && fresh(owned' - owned)
      ensures Holds(scheme, Rows(ls)[oldSize..], contents)
    {
      hide Holds, Separate, Rows;
      assert ls[oldSize..] == buckets[..];
      ghost var moved, left := map[], contents;
      SplitStart(contents);
      hide Split;
      owned' := owned;
      var i := 0;
      while i < oldSize
        invariant 0 <= i <= oldSize
        invariant Separate(ls, owned') && owned <= owned' && fresh(owned' - owned)
        invariant Holds(scheme, Rows(ls)[oldSize..], moved) && Holds(scheme, Rows(ls)[..oldSize], left)
        invariant Split(moved, left, contents)
        invariant forall j | 0 <= j < i :: Rows(ls)[..oldSize][j] == []
      {
        owned', moved, left := Drain(oldTable[i], ls, owned', oldSize, i, moved, left);
        i := i + 1;
      }
      Emptied(scheme, Rows(ls)[..oldSize], left);
      SplitDone(moved, contents);
    }

    method ReHash()
      requires Valid()
      modifies this, repr
      ensures Valid() && contents == old(contents) && numItems == old(numItems)
      ensures fresh(buckets) && fresh(repr - old(repr)) && buckets.Length == old(buckets.Length) * IncreaseSizeBy
    {
      hide Holds, Separate, Rows;
      var oldTable, oldSize := buckets, buckets.Length;
      ghost var a, owned := oldTable[..], repr;
      assert oldSize > 0 by { BucketsExist(scheme, Lists(), contents); }
      buckets, owned := InitBuckets(oldSize * IncreaseSizeBy);
      HoldsNothing(scheme, buckets.Length);
      Joined(a, repr, buckets[..], owned);
      Halves(Rows(a), Rows(buckets[..]));
      owned := MoveAll(oldTable, oldSize, a + buckets[..], repr + owned);
      Parted(a, buckets[..], owned);
      repr := owned;
    }

    method FindNextFullBucket(start: nat) returns (bucket: nat)
      requires Separate(buckets[..], repr) && start <= buckets.Length
      ensures start <= bucket <= buckets.Length && (bucket < buckets.Length ==> Lists()[bucket] != [])
      ensures Concat(Lists()[start..]) == Concat(Lists()[bucket..])
    {
      hide Separate, Rows, List.Linked;
      ghost var rows := Lists();
      bucket := start;
      while bucket < buckets.Length
        invariant start <= bucket <= buckets.Length
        invariant Concat(rows[start..]) == Concat(rows[bucket..])
      {
        ListOwned(buckets[..], repr, bucket);
        RowIs(buckets[..], bucket);
        if !buckets[bucket].IsEmpty() {
          break;
        }
        assert rows[bucket..][1..] == rows[bucket + 1..];
        bucket := bucket + 1;
      }
    }

    method Remove(key: Key) returns (item: T)
      requires Valid() && key in contents
      modifies this, repr
      ensures Valid() && item == old(contents)[key] && contents == old(contents) - {key}
      ensures buckets == old(buckets) && fresh(repr - old(repr))
    {
      hide Holds, Scheme.Slot, Separate, Rows, List.Valid, Without;
      ghost var rows := Lists();
      BucketsExist(scheme, rows, contents);
      Fewer(contents, key);
      var bucket := scheme.Slot(key, buckets.Length);
      var found := FindInBucket(bucket, key);
      item := found.value;
      IsThere(scheme, rows, contents, key);
      HoldsWithout(scheme, rows, contents, key);
      ListOwned(buckets[..], repr, bucket);
      TakeOut(buckets[..], repr, bucket, buckets[bucket], item);
      contents := contents - {key};
      numItems := numItems - 1;
    }
  }

  lemma Halves<T>(a: seq<T>, b: seq<T>)
    ensures (a + b)[..|a|] == a && (a + b)[|a|..] == b
  {
  }

  lemma Fewer<Key, T>(m: map<Key, T>, k: Key)
    requires k in m
    ensures |m - {k}| == |m| - 1
  {
    assert (m - {k}).Keys == m.Keys - {k};
  }

  lemma ListsOwned<T>(ls: seq<List<T>>, repr: set<object>)
    requires Separate(ls, repr)
    ensures forall i | 0 <= i < |ls| :: ls[i] in repr
  {
  }

  /** A place in a table, from which the rest of its items can be visited. */
  class HashIterator<Key(==, !new), T(==, !new)> {
    const table: HashTable<Key, T>
    var bucket: nat
    var bucketIter: ListIterator?<T>

    ghost predicate Valid()
      reads this, bucketIter, table, table.buckets, table.repr
    {
      && this !in table.repr && bucketIter !in table.repr
      && Separate(table.buckets[..], table.repr) && bucket <= table.buckets.Length
      && (bucket < table.buckets.Length ==>
            && bucketIter != null && bucketIter.list == table.buckets[bucket]
            && (ListOwned(table.buckets[..], table.repr, bucket); bucketIter.Valid())
            && bucketIter.index < |table.Lists()[bucket]|)
    }

    /** The items still to be visited, the current one first. */
    ghost function Remaining(): (r: seq<T>)
      requires Valid()
      reads this, bucketIter, table, table.buckets, table.repr
      ensures r == [] <==> bucket == table.buckets.Length
    {
      if bucket == table.buckets.Length then []
      else From(table.Lists(), bucket, bucketIter.index)
    }

    constructor (table: HashTable<Key, T>)
      requires Separate(table.buckets[..], table.repr)
      ensures Valid() && this.table == table && Remaining() == Concat(table.Lists())
      ensures bucketIter != null ==> fresh(bucketIter)
    {
      hide Separate, Concat, Rows, From, ListIterator.Valid;
      this.table := table;
      var start := table.FindNextFullBucket(0);
      bucket := start;
      bucketIter := null;
      new;
      assert table.Lists()[0..] == table.Lists();
      Open();
    }

    /** Going to the first item of the bucket, if there is a bucket left. */
    method Open()
      requires Separate(table.buckets[..], table.repr) && this !in table.repr && bucket <= table.buckets.Length
      requires bucket < table.buckets.Length ==> table.Lists()[bucket] != []
      modifies this`bucketIter
      ensures Valid() && Remaining() == Concat(table.Lists()[bucket..])
      ensures bucketIter == null || fresh(bucketIter)
    {
      hide Separate, From, Concat, Rows, List.Linked, List.Valid;
      ghost var rows := table.Lists();
      bucketIter := null;
      if bucket < table.buckets.Length {
        ListOwned(table.buckets[..], table.repr, bucket);
        bucketIter := new ListIterator(table.buckets[bucket]);
        FromStart(rows, bucket);
      } else {
        NoBuckets(rows[bucket..]);
      }
    }

    predicate IsDone()
      requires Valid()
      reads this, bucketIter, table, table.buckets, table.repr
      ensures IsDone() <==> Remaining() == []
    {
      bucket == table.buckets.Length
    }

    function Item(): (item: T)
      requires Valid() && !IsDone()
      reads this, bucketIter, table, table.buckets, table.repr
      ensures item == Remaining()[0]
    {
      bucketIter.Item()
    }

    method Next()
      requires Valid() && !IsDone()
      modifies this, bucketIter
      ensures Valid() && Remaining() == old(Remaining())[1..]
      ensures bucketIter == old(bucketIter) || bucketIter == null || fresh(bucketIter)
    {
      hide Separate, From, Concat, List.Linked, Rows;
      ghost var b := table.Lists();
      FromStep(b, bucket, bucketIter.index);
      RowIs(table.buckets[..], bucket);
      bucketIter.Next();
      if bucketIter.IsDone() {
        bucket := table.FindNextFullBucket(bucket + 1);
        Open();
      }
    }
  }

  /** Stepping an iterator through a table visits every item of it exactly once, and ends. */
  method Visit<Key(==, !new), T(==, !new)>(table: HashTable<Key, T>) returns (items: seq<T>)
    requires table.Valid()
    ensures KeysDiffer(table.scheme, items) && |items| == |table.contents|
    ensures forall x :: x in items <==> table.scheme.getKey(x) in table.contents && table.contents[table.scheme.getKey(x)] == x
  {
    hide Holds, KeysDiffer, Concat, From, Separate, Rows, ListIterator.Valid;
    ghost var all := Concat(table.Lists());
    ConcatIsContents(table.scheme, table.Lists(), table.contents);
    items := [];
    var iter := new HashIterator(table);
    while !iter.IsDone()
      invariant iter.Valid() && iter.table == table && fresh(iter) && (iter.bucketIter != null ==> fresh(iter.bucketIter))
      invariant items + iter.Remaining() == all
      decreases |iter.Remaining()|
    {
      items := items + [iter.Item()];
      iter.Next();
    }
    assert items == all;
  }

  /** The items of a table from a place on. */
  function From<T>(b: Table<T>, bucket: nat, index: nat): (r: seq<T>)
    requires bucket < |b| && index < |b[bucket]|
    ensures r != [] && r[0] == b[bucket][index]
  {
    b[bucket][index..] + Concat(b[bucket + 1..])
  }

  lemma FromStart<T>(b: Table<T>, bucket: nat)
    requires bucket < |b| && b[bucket] != []
    ensures From(b, bucket, 0) == Concat(b[bucket..])
  {
    assert b[bucket..][1..] == b[bucket + 1..];
  }

  lemma FromStep<T>(b: Table<T>, bucket: nat, index: nat)
    requires bucket < |b| && index < |b[bucket]|
    ensures From(b, bucket, index)[1..] ==
            if index + 1 < |b[bucket]| then From(b, bucket, index + 1) else Concat(b[bucket + 1..])
  {
    hide Concat;
    assert b[bucket][index..][1..] == b[bucket][index + 1..];
  }

  lemma NoBuckets<T>(b: Table<T>)
    requires b == []
    ensures Concat(b) == []
  {
  }

  /** A map cut in two. */
  ghost predicate Split<Key, T>(a: map<Key, T>, b: map<Key, T>, m: map<Key, T>) {
    a.Keys !! b.Keys && a + b == m
  }

  lemma SplitStart<Key, T>(m: map<Key, T>)
    ensures Split(map[], m, m)
  {
    var e: map<Key, T> := map[];
    assert e + m == m;
  }

  lemma SplitDisjoint<Key, T>(a: map<Key, T>, b: map<Key, T>, m: map<Key, T>)
    requires Split(a, b, m)
    ensures a.Keys !! b.Keys
  {
  }

  lemma SplitMove<Key, T>(a: map<Key, T>, b: map<Key, T>, m: map<Key, T>, k: Key)
    requires Split(a, b, m) && k in b
    ensures Split(a[k := b[k]], b - {k}, m)
  {
    assert a[k := b[k]] + (b - {k}) == a + b;
  }

  lemma SplitDone<Key, T>(a: map<Key, T>, m: map<Key, T>)
    requires Split(a, map[], m)
    ensures a == m
  {
    var e: map<Key, T> := map[];
    assert a + e == a;
  }

  lemma BucketsExist<Key, T>(s: Scheme<Key, T>, b: Table<T>, m: map<Key, T>)
    requires Holds(s, b, m)
    ensures |b| > 0
  {
  }

  lemma FirstIs<Key, T>(s: Scheme<Key, T>, b: Table<T>, m: map<Key, T>, i: nat)
    requires Holds(s, b, m) && i < |b| && b[i] != []
    ensures s.getKey(b[i][0]) in m && m[s.getKey(b[i][0])] == b[i][0]
  {
  }

  lemma Emptied<Key, T>(s: Scheme<Key, T>, b: Table<T>, m: map<Key, T>)
    requires Holds(s, b, m) && forall j | 0 <= j < |b| :: b[j] == []
    ensures m == map[]
  {
  }
}
