/** Sequence and dictionary helpers standing for the Python built-ins the
    analyzer relies on: insertion-ordered dicts (and `defaultdict`s),
    `list(set(xs))`, counting with `defaultdict(int)`, and the stable
    `sorted(items, key=count, reverse=True)`. */
module Collections {

  datatype Option<+T> = None | Some(value: T)

  predicate NoDuplicates<T(==,!new)>(xs: seq<T>) {
    forall i, j :: 0 <= i < j < |xs| ==> xs[i] != xs[j]
  }

  /** Number of elements of `xs` equal to `x`. */
  function CountOf<T(==,!new)>(xs: seq<T>, x: T): nat
    decreases |xs|
  {
    if xs == [] then 0
    else CountOf(xs[..|xs| - 1], x) + (if xs[|xs| - 1] == x then 1 else 0)
  }

  lemma {:induction false} CountOfAbsent<T(!new)>(xs: seq<T>, x: T)
    requires x !in xs
    ensures CountOf(xs, x) == 0
    decreases |xs|
  {
    if xs != [] {
      var init := xs[..|xs| - 1];
      assert x !in init by {
        forall i | 0 <= i < |init| ensures init[i] != x {
          assert init[i] == xs[i];
        }
      }
      CountOfAbsent(init, x);
    }
  }

  // ---------------------------------------------------------------------
  // list(set(xs))

  /** `list(set(xs))`. Python's order is that of the hash set; this model
      keeps the first occurrence of every element. */
  function Dedup<T(==,!new)>(xs: seq<T>): (r: seq<T>)
    ensures NoDuplicates(r)
    ensures forall x :: x in r <==> x in xs
    ensures |r| <= |xs|
    decreases |xs|
  {
    if xs == [] then []
    else
      var init := Dedup(xs[..|xs| - 1]);
      assert xs == xs[..|xs| - 1] + [xs[|xs| - 1]];
      if xs[|xs| - 1] in init then init else init + [xs[|xs| - 1]]
  }

  /** A list without duplicates is left as it is. */
  lemma {:induction false} DedupOfDistinct<T(!new)>(xs: seq<T>)
    requires NoDuplicates(xs)
    ensures Dedup(xs) == xs
    decreases |xs|
  {
    if xs != [] {
      var init := xs[..|xs| - 1];
      DedupOfDistinct(init);
      assert xs[|xs| - 1] !in init by {
        forall i | 0 <= i < |init| ensures init[i] != xs[|xs| - 1] {
          assert init[i] == xs[i];
        }
      }
      assert init + [xs[|xs| - 1]] == xs;
    }
  }

  /** Applying the deduplication twice changes nothing. */
  lemma DedupIdempotent<T(!new)>(xs: seq<T>)
    ensures Dedup(Dedup(xs)) == Dedup(xs)
  {
    DedupOfDistinct(Dedup(xs));
  }

  // ---------------------------------------------------------------------
  // Insertion-ordered dicts

  /** A Python dict: `keys` in insertion order, `values` the key/value pairs. */
  datatype OrderedMap<K, V> = OrderedMap(keys: seq<K>, values: map<K, V>)

  ghost predicate ValidMap<K(!new), V>(d: OrderedMap<K, V>) {
    NoDuplicates(d.keys) && forall k :: k in d.values <==> k in d.keys
  }

  /** A dict display `{k1: v1, k2: v2, ...}`: every listed key is present,
      and each present key holds one of the values listed for it (the last,
      as a repeated key overrides). */
  function DictOf<K(==,!new), V>(items: seq<(K, V)>): (m: map<K, V>)
    ensures forall i :: 0 <= i < |items| ==> items[i].0 in m
    ensures forall k :: k in m ==> exists i :: 0 <= i < |items| && items[i].0 == k && m[k] == items[i].1
    decreases |items|
  {
    if items == [] then map[]
    else
      var init := items[..|items| - 1];
      assert forall i :: 0 <= i < |init| ==> init[i] == items[i];
      DictOf(init)[items[|items| - 1].0 := items[|items| - 1].1]
  }

  /** A key of a dict display comes with its position in the display. */
  lemma DictOfIndex<K(!new), V>(items: seq<(K, V)>, k: K) returns (i: nat)
    requires k in DictOf(items)
    ensures i < |items| && items[i].0 == k && DictOf(items)[k] == items[i].1
  {
    i :| 0 <= i < |items| && items[i].0 == k && DictOf(items)[k] == items[i].1;
  }

  /** A key listed once holds the value listed with it. */
  lemma {:induction false} DictOfUnique<K(!new), V>(items: seq<(K, V)>, i: nat)
    requires i < |items|
    requires forall j :: 0 <= j < |items| && j != i ==> items[j].0 != items[i].0
    ensures DictOf(items)[items[i].0] == items[i].1
    decreases |items|
  {
    var init := items[..|items| - 1];
    if i < |items| - 1 {
      DictOfUnique(init, i);
    }
  }

  /** `d.get(k, default)`. */
  function Get<K(==,!new), V>(d: OrderedMap<K, V>, k: K, default: V): V {
    if k in d.values then d.values[k] else default
  }

  /** `d[k] = v`: a new key goes to the end, an existing key keeps its place. */
  function Put<K(==,!new), V>(d: OrderedMap<K, V>, k: K, v: V): (r: OrderedMap<K, V>)
    ensures ValidMap(d) ==> ValidMap(r)
    ensures k in r.values && r.values[k] == v
    ensures forall k' :: k' != k ==> Get(r, k', v) == Get(d, k', v)
    ensures ValidMap(d) ==> |r.keys| == |d.keys| + (if k in d.values then 0 else 1)
    ensures r.keys == if k in d.values then d.keys else d.keys + [k]
  {
    OrderedMap(if k in d.values then d.keys else d.keys + [k], d.values[k := v])
  }

  /** `d.items()`. */
  function Items<K(==,!new), V>(d: OrderedMap<K, V>): (r: seq<(K, V)>)
    requires ValidMap(d)
    ensures |r| == |d.keys|
    ensures forall i :: 0 <= i < |r| ==> r[i].0 == d.keys[i] && r[i].1 == d.values[d.keys[i]]
  {
    seq(|d.keys|, i requires 0 <= i < |d.keys| => (d.keys[i], d.values[d.keys[i]]))
  }

  /** The pairs of `d.items()` are exactly the dict's entries. */
  lemma ItemsMembers<K(!new), V>(d: OrderedMap<K, V>, k: K, v: V)
    requires ValidMap(d)
    ensures (k, v) in Items(d) <==> k in d.values && d.values[k] == v
  {
    if k in d.values {
      var i :| 0 <= i < |d.keys| && d.keys[i] == k;
      assert Items(d)[i] == (k, d.values[k]);
    }
  }

  // ---------------------------------------------------------------------
  // defaultdict(list) accumulators

  /** `d[k].extend(xs)` (or `d[k].append(x)` with `xs == [x]`) on a
      `defaultdict(list)`: a missing key is created first. */
  function Extend<K(==,!new), V>(d: OrderedMap<K, seq<V>>, k: K, xs: seq<V>): OrderedMap<K, seq<V>> {
    Put(d, k, Get(d, k, []) + xs)
  }

  /** The keys of a sequence of (key, values) requests, in order. */
  function KeysOf<K, V>(ps: seq<(K, seq<V>)>): (r: seq<K>)
    ensures |r| == |ps|
    ensures forall i :: 0 <= i < |ps| ==> r[i] == ps[i].0
    decreases |ps|
  {
    if ps == [] then [] else KeysOf(ps[..|ps| - 1]) + [ps[|ps| - 1].0]
  }

  /** A key of the requests is the key of some request. */
  lemma KeysOfMember<K, V>(ps: seq<(K, seq<V>)>, k: K) returns (i: nat)
    requires k in KeysOf(ps)
    ensures i < |ps| && ps[i].0 == k
  {
    var r := KeysOf(ps);
    i :| 0 <= i < |r| && r[i] == k;
  }

  /** Everything the requests for key `k` add, in request order. */
  function Gathered<K(==), V>(ps: seq<(K, seq<V>)>, k: K): seq<V>
    decreases |ps|
  {
    if ps == [] then []
    else Gathered(ps[..|ps| - 1], k) + (if ps[|ps| - 1].0 == k then ps[|ps| - 1].1 else [])
  }

  /** The `defaultdict(list)` obtained by extending, request by request,
      starting from an empty one: its keys are the requested keys in order of
      first request, and under each key lies everything requested for it. */
  function Accumulate<K(==,!new), V>(ps: seq<(K, seq<V>)>): (d: OrderedMap<K, seq<V>>)
    ensures ValidMap(d)
    ensures d.keys == Dedup(KeysOf(ps))
    ensures forall k :: k in d.values ==> d.values[k] == Gathered(ps, k)
    decreases |ps|
  {
    if ps == [] then OrderedMap([], map[])
    else
      var d := Accumulate(ps[..|ps| - 1]);
      AccumulateKeysStep(ps, d);
      AccumulateValuesStep(ps, d);
      Extend(d, ps[|ps| - 1].0, ps[|ps| - 1].1)
  }

  /** The keys after one more request: the last requested key is appended
      when it is new. */
  lemma AccumulateKeysStep<K(!new), V>(ps: seq<(K, seq<V>)>, d: OrderedMap<K, seq<V>>)
    requires ps != [] && ValidMap(d)
    requires d.keys == Dedup(KeysOf(ps[..|ps| - 1]))
    ensures var d' := Extend(d, ps[|ps| - 1].0, ps[|ps| - 1].1);
      ValidMap(d') && d'.keys == Dedup(KeysOf(ps))
  {
    var keys := KeysOf(ps);
    assert keys[..|ps| - 1] == KeysOf(ps[..|ps| - 1]);
    assert keys[|ps| - 1] == ps[|ps| - 1].0;
  }

  /** The values after one more request: the last request's values are
      appended under its key, and every other key is unchanged. */
  lemma AccumulateValuesStep<K(!new), V>(ps: seq<(K, seq<V>)>, d: OrderedMap<K, seq<V>>)
    requires ps != [] && ValidMap(d)
    requires d.keys == Dedup(KeysOf(ps[..|ps| - 1]))
    requires forall k' :: k' in d.values ==> d.values[k'] == Gathered(ps[..|ps| - 1], k')
    ensures var d' := Extend(d, ps[|ps| - 1].0, ps[|ps| - 1].1);
      forall k' :: k' in d'.values ==> d'.values[k'] == Gathered(ps, k')
  {
    var init := ps[..|ps| - 1];
    var (k, xs) := ps[|ps| - 1];
    if k !in d.values {
      GatheredAbsent(init, k);
    }
    var d' := Extend(d, k, xs);
    forall k' | k' in d'.values ensures d'.values[k'] == Gathered(ps, k') {
      if k' != k {
        assert Gathered(ps, k') == Gathered(init, k') + [];
      }
    }
  }

  /** Every key of the accumulated dict was requested somewhere. */
  lemma AccumulatedKey<K(!new), V>(ps: seq<(K, seq<V>)>, k: K) returns (i: nat)
    requires k in Accumulate(ps).values
    ensures i < |ps| && ps[i].0 == k
  {
    assert k in KeysOf(ps);
    i := KeysOfMember(ps, k);
  }

  /** One more request extends the accumulated dict. */
  lemma AccumulateSnoc<K(!new), V>(ps: seq<(K, seq<V>)>, k: K, xs: seq<V>)
    ensures Accumulate(ps + [(k, xs)]) == Extend(Accumulate(ps), k, xs)
  {
    assert (ps + [(k, xs)])[..|ps|] == ps;
  }

  /** `x` lies under `k` exactly when some request for `k` added it. */
  lemma {:induction false} GatheredMembers<K(!new), V>(ps: seq<(K, seq<V>)>, k: K, x: V)
    ensures x in Gathered(ps, k) <==> exists p :: p in ps && p.0 == k && x in p.1
    decreases |ps|
  {
    if ps != [] {
      var init := ps[..|ps| - 1];
      GatheredMembers(init, k, x);
      assert ps == init + [ps[|ps| - 1]];
    }
  }

  /** The `defaultdict(list)` reached by extending `d` request by request. */
  function ExtendAll<K(==,!new), V>(d: OrderedMap<K, seq<V>>, ps: seq<(K, seq<V>)>): OrderedMap<K, seq<V>>
    decreases |ps|
  {
    if ps == [] then d
    else Extend(ExtendAll(d, ps[..|ps| - 1]), ps[|ps| - 1].0, ps[|ps| - 1].1)
  }

  /** Extending by two batches of requests is extending by both in turn. */
  lemma {:induction false} ExtendAllAppend<K(!new), V>(d: OrderedMap<K, seq<V>>, ps: seq<(K, seq<V>)>, qs: seq<(K, seq<V>)>)
    ensures ExtendAll(d, ps + qs) == ExtendAll(ExtendAll(d, ps), qs)
    decreases |qs|
  {
    if qs == [] {
      assert ps + qs == ps;
    } else {
      var qs' := qs[..|qs| - 1];
      assert (ps + qs)[..|ps + qs| - 1] == ps + qs';
      ExtendAllAppend(d, ps, qs');
    }
  }

  /** Starting from an empty dict, extending is accumulating. */
  lemma {:induction false} ExtendAllEmpty<K(!new), V>(ps: seq<(K, seq<V>)>)
    ensures ExtendAll(OrderedMap([], map[]), ps) == Accumulate(ps)
    decreases |ps|
  {
    if ps != [] {
      ExtendAllEmpty(ps[..|ps| - 1]);
    }
  }

  lemma {:induction false} GatheredAbsent<K(!new), V>(ps: seq<(K, seq<V>)>, k: K)
    requires k !in KeysOf(ps)
    ensures Gathered(ps, k) == []
    decreases |ps|
  {
    if ps != [] {
      var init := ps[..|ps| - 1];
      assert KeysOf(ps)[..|ps| - 1] == KeysOf(init);
      GatheredAbsent(init, k);
    }
  }

  /** When every request adds something, every key of the result holds
      something. */
  lemma {:induction false} GatheredNonEmpty<K(!new), V>(ps: seq<(K, seq<V>)>, k: K)
    requires k in KeysOf(ps)
    requires forall i :: 0 <= i < |ps| ==> ps[i].1 != []
    ensures Gathered(ps, k) != []
    decreases |ps|
  {
    var init := ps[..|ps| - 1];
    if ps[|ps| - 1].0 != k {
      assert KeysOf(ps)[..|ps| - 1] == KeysOf(init);
      GatheredNonEmpty(init, k);
    }
  }

  // ---------------------------------------------------------------------
  // defaultdict(int) counters

  /** `c[k] += 1` on a `defaultdict(int)`. */
  function Bump<K(==,!new)>(c: OrderedMap<K, nat>, k: K): OrderedMap<K, nat> {
    Put(c, k, Get(c, k, 0) + 1)
  }

  /** The counter `for x in xs: c[x] += 1` leaves, starting empty. */
  function Tally<K(==,!new)>(xs: seq<K>): (c: OrderedMap<K, nat>)
    ensures ValidMap(c)
    ensures c.keys == Dedup(xs)
    ensures forall x :: x in c.values ==> c.values[x] == CountOf(xs, x)
    decreases |xs|
  {
    if xs == [] then OrderedMap([], map[])
    else
      var init := xs[..|xs| - 1];
      var x := xs[|xs| - 1];
      if x !in Tally(init).values then CountOfAbsent(init, x); Bump(Tally(init), x)
      else Bump(Tally(init), x)
  }

  /** Counting one more element bumps its count. */
  lemma TallySnoc<K(!new)>(xs: seq<K>, x: K)
    ensures Tally(xs + [x]) == Bump(Tally(xs), x)
  {
    assert (xs + [x])[..|xs|] == xs;
  }

  /** Sum of the values stored under `keys`. */
  function SumOf<K(==,!new)>(keys: seq<K>, m: map<K, nat>): nat
    decreases |keys|
  {
    if keys == [] then 0
    else SumOf(keys[..|keys| - 1], m) + (if keys[|keys| - 1] in m then m[keys[|keys| - 1]] else 0)
  }

  lemma {:induction false} SumOfUpdateOutside<K(!new)>(keys: seq<K>, m: map<K, nat>, x: K, v: nat)
    requires x !in keys
    ensures SumOf(keys, m[x := v]) == SumOf(keys, m)
    decreases |keys|
  {
    if keys != [] {
      SumOfUpdateOutside(keys[..|keys| - 1], m, x, v);
    }
  }

  lemma {:induction false} SumOfUpdateInside<K(!new)>(keys: seq<K>, m: map<K, nat>, x: K, v: nat)
    requires NoDuplicates(keys) && x in keys && x in m
    ensures SumOf(keys, m[x := v]) + m[x] == SumOf(keys, m) + v
    decreases |keys|
  {
    var init := keys[..|keys| - 1];
    if keys[|keys| - 1] == x {
      assert x !in init by {
        forall i | 0 <= i < |init| ensures init[i] != x {
          assert init[i] == keys[i];
        }
      }
      SumOfUpdateOutside(init, m, x, v);
    } else {
      assert x in init by {
        var i :| 0 <= i < |keys| && keys[i] == x;
        assert init[i] == x;
      }
      SumOfUpdateInside(init, m, x, v);
    }
  }

  /** The counts of a tally add up to the number of tallied elements. */
  lemma {:induction false} TallySum<K(!new)>(xs: seq<K>)
    ensures SumOf(Tally(xs).keys, Tally(xs).values) == |xs|
    decreases |xs|
  {
    if xs != [] {
      var init := xs[..|xs| - 1];
      var x := xs[|xs| - 1];
      var c := Tally(init);
      TallySum(init);
      if x in c.values {
        SumOfUpdateInside(c.keys, c.values, x, c.values[x] + 1);
      } else {
        SumOfUpdateOutside(c.keys, c.values, x, 1);
      }
    }
  }

  // ---------------------------------------------------------------------
  // sorted(items, key=lambda x: x[1], reverse=True)

  predicate Descending<K(==,!new)>(s: seq<(K, nat)>) {
    forall i, j :: 0 <= i < j < |s| ==> s[i].1 >= s[j].1
  }

  /** The entries of `s` whose count is `c`, in order. */
  function WithCount<K(==,!new)>(s: seq<(K, nat)>, c: nat): seq<(K, nat)>
    decreases |s|
  {
    if s == [] then []
    else (if s[0].1 == c then [s[0]] else []) + WithCount(s[1..], c)
  }

  lemma {:induction false} WithCountAppend<K(!new)>(s: seq<(K, nat)>, t: seq<(K, nat)>, c: nat)
    ensures WithCount(s + t, c) == WithCount(s, c) + WithCount(t, c)
    decreases |s|
  {
    if s == [] {
      assert s + t == t;
    } else {
      var head := if s[0].1 == c then [s[0]] else [];
      var st := s + t;
      assert st[0] == s[0];
      assert st[1..] == s[1..] + t;
      WithCountAppend(s[1..], t, c);
      calc {
        WithCount(st, c);
        head + WithCount(s[1..] + t, c);
        head + (WithCount(s[1..], c) + WithCount(t, c));
        (head + WithCount(s[1..], c)) + WithCount(t, c);
      }
    }
  }

  lemma {:induction false} WithCountAbove<K(!new)>(s: seq<(K, nat)>, c: nat)
    requires forall i :: 0 <= i < |s| ==> s[i].1 < c
    ensures WithCount(s, c) == []
    decreases |s|
  {
    if s != [] {
      WithCountAbove(s[1..], c);
    }
  }

  /** Places `x` after every entry whose count is at least its own. */
  function InsertDesc<K(==,!new)>(x: (K, nat), s: seq<(K, nat)>): (r: seq<(K, nat)>)
    ensures multiset(r) == multiset(s) + multiset{x}
    ensures |r| == |s| + 1
    decreases |s|
  {
    if s == [] then [x]
    else if s[0].1 >= x.1 then
      assert s == [s[0]] + s[1..];
      [s[0]] + InsertDesc(x, s[1..])
    else
      [x] + s
  }

  /** Inserting keeps every count under a bound that all the counts obey. */
  lemma {:induction false} InsertDescBounded<K(!new)>(x: (K, nat), s: seq<(K, nat)>, b: nat)
    requires x.1 <= b && forall i :: 0 <= i < |s| ==> s[i].1 <= b
    ensures forall i :: 0 <= i < |InsertDesc(x, s)| ==> InsertDesc(x, s)[i].1 <= b
    decreases |s|
  {
    if s != [] && s[0].1 >= x.1 {
      InsertDescBounded(x, s[1..], b);
    }
  }

  lemma {:induction false} InsertDescSorted<K(!new)>(x: (K, nat), s: seq<(K, nat)>)
    requires Descending(s)
    ensures Descending(InsertDesc(x, s))
    decreases |s|
  {
    if s == [] {
    } else if s[0].1 >= x.1 {
      DescendingTail(s);
      InsertDescSorted(x, s[1..]);
      InsertDescBounded(x, s[1..], s[0].1);
      DescendingCons(s[0], InsertDesc(x, s[1..]));
    } else {
      DescendingTail(s);
      DescendingCons(x, s);
    }
  }

  /** A head at least as large as every later count keeps the order. */
  lemma DescendingCons<K(!new)>(h: (K, nat), rest: seq<(K, nat)>)
    requires Descending(rest) && forall i :: 0 <= i < |rest| ==> rest[i].1 <= h.1
    ensures Descending([h] + rest)
  {
    var r := [h] + rest;
    forall i, j | 0 <= i < j < |r| ensures r[i].1 >= r[j].1 {
      assert r[j] == rest[j - 1];
      if i > 0 {
        assert r[i] == rest[i - 1];
      }
    }
  }

  lemma DescendingTail<K(!new)>(s: seq<(K, nat)>)
    requires Descending(s) && s != []
    ensures Descending(s[1..])
    ensures forall i :: 0 <= i < |s| ==> s[i].1 <= s[0].1
  {
    var tail := s[1..];
    forall i, j | 0 <= i < j < |tail| ensures tail[i].1 >= tail[j].1 {
      assert tail[i] == s[i + 1] && tail[j] == s[j + 1];
    }
  }

  lemma {:induction false} InsertDescStable<K(!new)>(x: (K, nat), s: seq<(K, nat)>, c: nat)
    requires Descending(s)
    ensures WithCount(InsertDesc(x, s), c) == WithCount(s + [x], c)
    decreases |s|
  {
    if s == [] {
    } else if s[0].1 >= x.1 {
      DescendingTail(s);
      InsertDescStable(x, s[1..], c);
      InsertDescStableStep(x, s, c);
    } else {
      InsertDescStableFront(x, s, c);
    }
  }

  lemma InsertDescStableStep<K(!new)>(x: (K, nat), s: seq<(K, nat)>, c: nat)
    requires s != [] && s[0].1 >= x.1
    requires WithCount(InsertDesc(x, s[1..]), c) == WithCount(s[1..] + [x], c)
    ensures WithCount(InsertDesc(x, s), c) == WithCount(s + [x], c)
  {
    var rest := InsertDesc(x, s[1..]);
    var r := [s[0]] + rest;
    assert InsertDesc(x, s) == r;
    assert r[0] == s[0] && r[1..] == rest;
    var sx := s + [x];
    assert sx[0] == s[0] && sx[1..] == s[1..] + [x];
  }

  lemma InsertDescStableFront<K(!new)>(x: (K, nat), s: seq<(K, nat)>, c: nat)
    requires Descending(s) && s != [] && s[0].1 < x.1
    ensures WithCount(InsertDesc(x, s), c) == WithCount(s + [x], c)
  {
    assert InsertDesc(x, s) == [x] + s;
    WithCountAppend([x], s, c);
    WithCountAppend(s, [x], c);
    WithCountSingle(x, c);
    if x.1 == c {
      DescendingTail(s);
      WithCountAbove(s, c);
    }
  }

  lemma WithCountSingle<K(!new)>(x: (K, nat), c: nat)
    ensures WithCount([x], c) == if x.1 == c then [x] else []
  {
    assert [x][1..] == [];
  }

  /** Python's `sorted(items, key=lambda x: x[1], reverse=True)`: descending
      by count, and stable (equal counts keep their order). */
  function SortDesc<K(==,!new)>(s: seq<(K, nat)>): (r: seq<(K, nat)>)
    ensures Descending(r)
    ensures multiset(r) == multiset(s)
    ensures |r| == |s|
    decreases |s|
  {
    if s == [] then []
    else
      assert s == s[..|s| - 1] + [s[|s| - 1]];
      InsertDescSorted(s[|s| - 1], SortDesc(s[..|s| - 1]));
      InsertDesc(s[|s| - 1], SortDesc(s[..|s| - 1]))
  }

  /** Sorting keeps exactly the same pairs. */
  lemma SortDescMembers<K(!new)>(s: seq<(K, nat)>, x: (K, nat))
    ensures x in SortDesc(s) <==> x in s
  {
    assert x in SortDesc(s) <==> x in multiset(SortDesc(s));
    assert x in s <==> x in multiset(s);
  }


  /** Stability: for every count, the entries with that count appear in the
      sorted output in the same order as in the input. */
  lemma {:induction false} SortDescStable<K(!new)>(s: seq<(K, nat)>, c: nat)
    ensures WithCount(SortDesc(s), c) == WithCount(s, c)
    decreases |s|
  {
    if s != [] {
      var init := s[..|s| - 1];
      SortDescStable(init, c);
      InsertDescStable(s[|s| - 1], SortDesc(init), c);
      assert s == init + [s[|s| - 1]];
      WithCountAppend(init, [s[|s| - 1]], c);
      WithCountAppend(SortDesc(init), [s[|s| - 1]], c);
    }
  }

  /** No key is carried by two entries. */
  predicate DistinctKeys<K(==,!new), V>(s: seq<(K, V)>) {
    forall i, j :: 0 <= i < j < |s| ==> s[i].0 != s[j].0
  }

  /** The items of a dict carry distinct keys. */
  lemma ItemsDistinct<K(!new), V>(d: OrderedMap<K, V>)
    requires ValidMap(d)
    ensures DistinctKeys(Items(d))
  {
  }

  /** Inserting an entry with a new key keeps the keys distinct. */
  lemma {:induction false} InsertDescDistinct<K(!new)>(x: (K, nat), s: seq<(K, nat)>)
    requires DistinctKeys(s) && forall i :: 0 <= i < |s| ==> s[i].0 != x.0
    ensures DistinctKeys(InsertDesc(x, s))
    decreases |s|
  {
    if s != [] && s[0].1 >= x.1 {
      var tail := s[1..];
      assert forall i :: 0 <= i < |tail| ==> tail[i] == s[i + 1];
      InsertDescDistinct(x, tail);
      var rest := InsertDesc(x, tail);
      forall j | 0 <= j < |rest| ensures rest[j].0 != s[0].0 {
        assert rest[j] in multiset(rest);
        if rest[j] != x {
          assert rest[j] in multiset(tail);
          var i :| 0 <= i < |tail| && tail[i] == rest[j];
          assert s[i + 1] == rest[j];
        }
      }
      var r := [s[0]] + rest;
      assert InsertDesc(x, s) == r;
      forall i, j | 0 <= i < j < |r| ensures r[i].0 != r[j].0 {
        assert r[j] == rest[j - 1];
        if i > 0 {
          assert r[i] == rest[i - 1];
        }
      }
    } else if s != [] {
      var r := [x] + s;
      assert InsertDesc(x, s) == r;
      forall i, j | 0 <= i < j < |r| ensures r[i].0 != r[j].0 {
        assert r[j] == s[j - 1];
        if i > 0 {
          assert r[i] == s[i - 1];
        }
      }
    }
  }

  /** Sorting keeps the keys distinct: a dict's items, sorted, list every
      key once. */
  lemma {:induction false} SortDescDistinct<K(!new)>(s: seq<(K, nat)>)
    requires DistinctKeys(s)
    ensures DistinctKeys(SortDesc(s))
    decreases |s|
  {
    if s != [] {
      var init := s[..|s| - 1];
      var x := s[|s| - 1];
      assert forall i :: 0 <= i < |init| ==> init[i] == s[i];
      SortDescDistinct(init);
      var sorted := SortDesc(init);
      forall i | 0 <= i < |sorted| ensures sorted[i].0 != x.0 {
        assert sorted[i] in multiset(sorted);
        var k :| 0 <= k < |init| && init[k] == sorted[i];
      }
      InsertDescDistinct(x, sorted);
    }
  }

  /** Every entry ranks no higher than the entries after it. */
  predicate Ranked<K(==,!new)>(s: seq<(K, nat)>, rank: K -> nat) {
    forall i, j :: 0 <= i < j < |s| ==> rank(s[i].0) <= rank(s[j].0)
  }

  /** Among entries with equal counts, every entry ranks no higher than
      the entries after it. */
  predicate TiesRanked<K(==,!new)>(s: seq<(K, nat)>, rank: K -> nat) {
    forall i, j :: 0 <= i < j < |s| && s[i].1 == s[j].1 ==> rank(s[i].0) <= rank(s[j].0)
  }

  /** Inserting an entry that ranks at least as high as every entry of its
      count keeps ties in rank order. */
  lemma {:induction false} InsertDescTies<K(!new)>(x: (K, nat), s: seq<(K, nat)>, rank: K -> nat)
    requires Descending(s) && TiesRanked(s, rank)
    requires forall i :: 0 <= i < |s| && s[i].1 == x.1 ==> rank(s[i].0) <= rank(x.0)
    ensures TiesRanked(InsertDesc(x, s), rank)
    decreases |s|
  {
    if s != [] && s[0].1 >= x.1 {
      DescendingTail(s);
      TiesTail(x, s, rank);
      InsertDescTies(x, s[1..], rank);
      InsertDescTiesStep(x, s, rank);
    } else if s != [] {
      DescendingTail(s);
      InsertDescTiesFront(x, s, rank);
    }
  }

  lemma TiesTail<K(!new)>(x: (K, nat), s: seq<(K, nat)>, rank: K -> nat)
    requires s != [] && TiesRanked(s, rank)
    requires forall i :: 0 <= i < |s| && s[i].1 == x.1 ==> rank(s[i].0) <= rank(x.0)
    ensures TiesRanked(s[1..], rank)
    ensures forall i :: 0 <= i < |s[1..]| && s[1..][i].1 == x.1 ==> rank(s[1..][i].0) <= rank(x.0)
  {
    var tail := s[1..];
    assert forall i :: 0 <= i < |tail| ==> tail[i] == s[i + 1];
  }

  lemma InsertDescTiesStep<K(!new)>(x: (K, nat), s: seq<(K, nat)>, rank: K -> nat)
    requires s != [] && s[0].1 >= x.1 && TiesRanked(s, rank)
    requires s[0].1 == x.1 ==> rank(s[0].0) <= rank(x.0)
    requires TiesRanked(InsertDesc(x, s[1..]), rank)
    ensures TiesRanked(InsertDesc(x, s), rank)
  {
    var rest := InsertDesc(x, s[1..]);
    forall j | 0 <= j < |rest| && rest[j].1 == s[0].1 ensures rank(s[0].0) <= rank(rest[j].0) {
      HeadRanksFirst(x, s, rank, rest[j]);
    }
    ConsTies(s[0], rest, rank);
    assert InsertDesc(x, s) == [s[0]] + rest;
  }

  lemma HeadRanksFirst<K(!new)>(x: (K, nat), s: seq<(K, nat)>, rank: K -> nat, e: (K, nat))
    requires s != [] && TiesRanked(s, rank)
    requires s[0].1 == x.1 ==> rank(s[0].0) <= rank(x.0)
    requires e in InsertDesc(x, s[1..]) && e.1 == s[0].1
    ensures rank(s[0].0) <= rank(e.0)
  {
    var tail := s[1..];
    assert e in multiset(InsertDesc(x, tail));
    if e != x {
      assert e in multiset(tail);
      var i :| 0 <= i < |tail| && tail[i] == e;
      assert s[i + 1] == e;
    }
  }

  lemma ConsTies<K(!new)>(h: (K, nat), rest: seq<(K, nat)>, rank: K -> nat)
    requires TiesRanked(rest, rank)
    requires forall j :: 0 <= j < |rest| && rest[j].1 == h.1 ==> rank(h.0) <= rank(rest[j].0)
    ensures TiesRanked([h] + rest, rank)
  {
    var r := [h] + rest;
    forall i, j | 0 <= i < j < |r| && r[i].1 == r[j].1 ensures rank(r[i].0) <= rank(r[j].0) {
      assert r[j] == rest[j - 1];
      if i > 0 {
        assert r[i] == rest[i - 1];
      }
    }
  }

  lemma InsertDescTiesFront<K(!new)>(x: (K, nat), s: seq<(K, nat)>, rank: K -> nat)
    requires s != [] && s[0].1 < x.1 && TiesRanked(s, rank)
    requires forall i :: 0 <= i < |s| ==> s[i].1 <= s[0].1
    ensures TiesRanked(InsertDesc(x, s), rank)
  {
    ConsTies(x, s, rank);
    assert InsertDesc(x, s) == [x] + s;
  }

  /** The stable sort of entries in rank order keeps every group of equal
      counts in rank order. */
  lemma {:induction false} SortDescTies<K(!new)>(s: seq<(K, nat)>, rank: K -> nat)
    requires Ranked(s, rank)
    ensures TiesRanked(SortDesc(s), rank)
    decreases |s|
  {
    if s != [] {
      var init := s[..|s| - 1];
      var x := s[|s| - 1];
      assert forall i :: 0 <= i < |init| ==> init[i] == s[i];
      SortDescTies(init, rank);
      var sorted := SortDesc(init);
      forall i | 0 <= i < |sorted| && sorted[i].1 == x.1 ensures rank(sorted[i].0) <= rank(x.0) {
        assert sorted[i] in multiset(sorted);
        var k :| 0 <= k < |init| && init[k] == sorted[i];
      }
      InsertDescTies(x, sorted, rank);
    }
  }
}
