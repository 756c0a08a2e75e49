/**
 * The least-recently-used eviction engine of LRU.java.
 *
 * The Java class extends an access-ordered LinkedHashMap. Its state is modelled
 * by two fields: `order`, the keys from eldest (least recently used) to most
 * recently used, and `vals`, the key/value mapping. `Access` states what one
 * `get` does to that state as a pure function; the class method `LRU.Get`
 * performs the same steps in place and is proved to agree with it.
 */
module LruCache {

  /** A value, or the exception the producing code threw. */
  datatype Result<T> = Ok(value: T) | Fail(error: string)

  /** The caller-supplied read-through function; `Fail` is an exception it throws. */
  type Lookup<E> = string -> Result<E>

  // ---------------------------------------------------------------------------
  // Sequences of keys
  // ---------------------------------------------------------------------------

  /** No key occurs twice. */
  ghost predicate NoDup(s: seq<string>) {
    forall i, j :: 0 <= i < j < |s| ==> s[i] != s[j]
  }

  /** `x` occurs somewhere before `y`. */
  ghost predicate Precedes(s: seq<string>, x: string, y: string) {
    exists i, j :: 0 <= i < j < |s| && s[i] == x && s[j] == y
  }

  /** Position of the first occurrence of `k`. */
  function IndexOf(s: seq<string>, k: string): (i: nat)
    requires k in s
    ensures i < |s| && s[i] == k
    ensures forall j :: 0 <= j < i ==> s[j] != k
  {
    if s[0] == k then 0 else 1 + IndexOf(s[1..], k)
  }

  /**
   * Moves `k` to the most-recent end, as the access-ordered map does when an
   * existing entry is read.
   */
  function MoveToEnd(s: seq<string>, k: string): (r: seq<string>)
    requires k in s
    ensures |r| == |s| && r[|r| - 1] == k
    ensures forall x :: x in r <==> x in s
  {
    var p := IndexOf(s, k);
    s[..p] + s[p + 1..] + [k]
  }

  /** Moving a key keeps the keys distinct. */
  lemma MoveToEndNoDup(s: seq<string>, k: string)
    requires k in s && NoDup(s)
    ensures NoDup(MoveToEnd(s, k))
  {
    var p := IndexOf(s, k);
    var r := MoveToEnd(s, k);
    forall i, j | 0 <= i < j < |r|
      ensures r[i] != r[j]
    {
      var i' := if i < p then i else i + 1;
      var j' := if j == |r| - 1 then p else if j < p then j else j + 1;
      assert r[i] == s[i'] && r[j] == s[j'];
    }
  }

  /**
   * Moving `k` to the end changes the relative order of no other pair of keys.
   */
  lemma MoveToEndKeepsOrder(s: seq<string>, k: string, x: string, y: string)
    requires k in s && x != k && y != k
    ensures Precedes(MoveToEnd(s, k), x, y) <==> Precedes(s, x, y)
  {
    var p := IndexOf(s, k);
    var r := MoveToEnd(s, k);
    assert forall i :: 0 <= i < p ==> r[i] == s[i];
    assert forall i :: p <= i < |s| - 1 ==> r[i] == s[i + 1];
    if Precedes(s, x, y) {
      var i, j :| 0 <= i < j < |s| && s[i] == x && s[j] == y;
      var i' := if i < p then i else i - 1;
      var j' := if j < p then j else j - 1;
      assert r[i'] == x && r[j'] == y;
    }
    if Precedes(r, x, y) {
      var i, j :| 0 <= i < j < |r| && r[i] == x && r[j] == y;
      var i' := if i < p then i else i + 1;
      var j' := if j < p then j else j + 1;
      assert s[i'] == x && s[j'] == y;
    }
  }

  /** Appending a new key keeps the keys distinct, and so does dropping the head. */
  lemma AppendNoDup(s: seq<string>, k: string)
    requires NoDup(s) && k !in s
    ensures NoDup(s + [k]) && NoDup((s + [k])[1..])
  {
  }

  /** Dropping the head key from both the order and the map keeps them in step. */
  lemma DropHeadKeys<E>(order: seq<string>, vals: map<string, E>)
    requires NoDup(order) && order != [] && (forall k :: k in vals <==> k in order)
    ensures forall k :: k in vals - {order[0]} <==> k in order[1..]
  {
  }

  /** Distinct keys: the set of keys has as many elements as the sequence. */
  lemma {:induction false} DistinctCard(s: seq<string>)
    requires NoDup(s)
    ensures |set x | x in s| == |s|
  {
    if s != [] {
      assert NoDup(s[1..]) by {
        forall i, j | 0 <= i < j < |s[1..]| ensures s[1..][i] != s[1..][j] {
          assert s[1..][i] == s[i + 1] && s[1..][j] == s[j + 1];
        }
      }
      DistinctCard(s[1..]);
      assert (set x | x in s) == (set x | x in s[1..]) + {s[0]};
      assert s[0] !in s[1..];
    }
  }

  // ---------------------------------------------------------------------------
  // The cache state and one `get`
  // ---------------------------------------------------------------------------

  /** The entries of the map: keys eldest first, and their values. */
  datatype Entries<E> = Entries(order: seq<string>, vals: map<string, E>)

  /**
   * The representation invariant: the order lists every key exactly once, and
   * fewer than `cacheSize` keys are cached (the eviction test is `>=`).
   */
  ghost predicate Inv<E>(cacheSize: int, e: Entries<E>) {
    NoDup(e.order)
    && (forall k :: k in e.vals <==> k in e.order)
    && |e.order| < cacheSize
  }

  /** The map's size equals the length of the recency order. */
  lemma SizeIsOrderLength<E>(e: Entries<E>)
    requires NoDup(e.order) && (forall k :: k in e.vals <==> k in e.order)
    ensures |e.vals| == |e.order|
  {
    DistinctCard(e.order);
    assert e.vals.Keys == set x | x in e.order;
  }

  /**
   * The removeEldestEntry hook: asked after a new entry has been counted in
   * `size`; a true answer removes the eldest entry.
   */
  function RemoveEldest(cacheSize: int, size: int): (b: bool)
    ensures 1 <= size <= cacheSize ==> (b <==> size == cacheSize)
    ensures size < cacheSize ==> !b
  {
    size >= cacheSize
  }

  /**
   * `put` of a key that is not cached: the entry goes to the most-recent end,
   * then the hook may remove the head (which is the new entry itself when the
   * map was empty).
   */
  function Put<E>(cacheSize: int, e: Entries<E>, key: string, v: E): (r: Entries<E>)
    ensures r.order == e.order + [key] || r.order == (e.order + [key])[1..]
    ensures forall k :: k in r.vals ==> (k in e.vals || k == key) && r.vals[k] == e.vals[key := v][k]
  {
    var order, vals := e.order + [key], e.vals[key := v];
    if RemoveEldest(cacheSize, |vals|) then
      Entries(order[1..], vals - {order[0]})
    else
      Entries(order, vals)
  }

  /** Putting a key that is not cached keeps the invariant. */
  lemma PutKeepsInv<E>(cacheSize: int, e: Entries<E>, key: string, v: E)
    requires Inv(cacheSize, e) && key !in e.vals
    ensures Inv(cacheSize, Put(cacheSize, e, key, v))
  {
    SizeIsOrderLength(e);
    var order, vals := e.order + [key], e.vals[key := v];
    AppendNoDup(e.order, key);
    if RemoveEldest(cacheSize, |vals|) {
      DropHeadKeys(order, vals);
    }
  }

  /**
   * The hook fires exactly when the map was full, i.e. held `cacheSize - 1`
   * entries: then the head goes (the new entry itself when the map was empty);
   * otherwise the entry is simply appended.
   */
  lemma PutEvictsWhenFull<E>(cacheSize: int, e: Entries<E>, key: string, v: E)
    requires Inv(cacheSize, e) && key !in e.vals
    ensures var r := Put(cacheSize, e, key, v);
      if |e.order| == cacheSize - 1 then
        && (e.order == [] ==> r == Entries([], map[]))
        && (e.order != [] ==> r == Entries(e.order[1..] + [key], (e.vals - {e.order[0]})[key := v]))
      else
        r == Entries(e.order + [key], e.vals[key := v])
  {
    SizeIsOrderLength(e);
    var r := Put(cacheSize, e, key, v);
    if |e.order| == cacheSize - 1 {
      if e.order == [] {
        assert r.vals == map[key := v] - {key};
        assert r.vals == map[];
      } else {
        assert e.order[0] != key;
        assert (e.order + [key])[1..] == e.order[1..] + [key];
        assert e.vals[key := v] - {e.order[0]} == (e.vals - {e.order[0]})[key := v];
      }
    }
  }

  /** What one `get` returns, together with the state it leaves. */
  datatype Outcome<E> = Outcome(next: Entries<E>, result: Result<E>)

  /**
   * One `get(key)`: a hit returns the cached value and moves the key to the
   * most-recent end; a miss calls `lookup`, and on success puts the value.
   * A failing lookup propagates its error and leaves the state as it was.
   */
  function Access<E>(cacheSize: int, lookup: Lookup<E>, e: Entries<E>, key: string): (out: Outcome<E>)
    requires Inv(cacheSize, e)
    ensures Inv(cacheSize, out.next)
    ensures out.result == if key in e.vals then Ok(e.vals[key]) else lookup(key)
  {
    if key in e.vals then
      MoveToEndNoDup(e.order, key);
      Outcome(Entries(MoveToEnd(e.order, key), e.vals), Ok(e.vals[key]))
    else
      match lookup(key)
      case Fail(err) => Outcome(e, Fail(err))
      case Ok(v) =>
        PutKeepsInv(cacheSize, e, key, v);
        Outcome(Put(cacheSize, e, key, v), Ok(v))
  }

  // ---------------------------------------------------------------------------
  // Properties of one `get`
  // ---------------------------------------------------------------------------

  /**
   * Hit: the stored value comes back, the set of entries and their values stay
   * as they were, the key becomes the most recent one, and the other keys keep
   * their relative order.
   */
  lemma HitRefreshesRecency<E>(cacheSize: int, lookup: Lookup<E>, e: Entries<E>, key: string)
    requires Inv(cacheSize, e) && key in e.vals
    ensures var out := Access(cacheSize, lookup, e, key);
      && out.result == Ok(e.vals[key])
      && out.next.vals == e.vals
      && out.next.order[|out.next.order| - 1] == key
      && forall x, y :: x != key && y != key ==>
           (Precedes(out.next.order, x, y) <==> Precedes(e.order, x, y))
  {
    var out := Access(cacheSize, lookup, e, key);
    forall x, y | x != key && y != key
      ensures Precedes(out.next.order, x, y) <==> Precedes(e.order, x, y)
    {
      MoveToEndKeepsOrder(e.order, key, x, y);
    }
  }

  /**
   * Miss: the result is exactly what `lookup` returned. When the lookup
   * succeeds and `cacheSize >= 2`, the key is cached with that value at the
   * most-recent end; when `cacheSize == 1`, the fresh entry is the eldest
   * and is removed at once, so the cache stays empty.
   */
  lemma MissLoadsThrough<E>(cacheSize: int, lookup: Lookup<E>, e: Entries<E>, key: string)
    requires Inv(cacheSize, e) && key !in e.vals
    ensures var out := Access(cacheSize, lookup, e, key);
      && out.result == lookup(key)
      && (lookup(key).Ok? && cacheSize >= 2 ==>
            key in out.next.vals && out.next.vals[key] == lookup(key).value
            && out.next.order[|out.next.order| - 1] == key)
      && (cacheSize == 1 ==> out.next == Entries([], map[]))
  {
    var out := Access(cacheSize, lookup, e, key);
    if lookup(key).Ok? && cacheSize >= 2 {
      if RemoveEldest(cacheSize, |e.order| + 1) {
        assert |e.order| + 1 >= 2;
      }
    }
    if cacheSize == 1 {
      assert e.order == [];
      SizeIsOrderLength(e);
      if lookup(key).Ok? {
        assert out.next.order == [];
        assert out.next.vals == map[];
      }
    }
  }

  /** Failure: a failing lookup inserts nothing and leaves the order unchanged. */
  lemma FailureChangesNothing<E>(cacheSize: int, lookup: Lookup<E>, e: Entries<E>, key: string)
    requires Inv(cacheSize, e) && key !in e.vals && lookup(key).Fail?
    ensures Access(cacheSize, lookup, e, key) == Outcome(e, lookup(key))
  {
  }

  /**
   * Eviction: a `get` removes at most one previously cached entry, only on a
   * successful miss that fills the map, and that entry is the head of the
   * access order (the least recently used). The only key that can appear is the
   * one asked for, and every other entry keeps its value.
   */
  lemma EvictsOnlyEldest<E>(cacheSize: int, lookup: Lookup<E>, e: Entries<E>, key: string)
    requires Inv(cacheSize, e)
    ensures var next := Access(cacheSize, lookup, e, key).next;
      && e.vals.Keys - next.vals.Keys
           == (if key !in e.vals && lookup(key).Ok? && |e.order| == cacheSize - 1 && e.order != []
               then {e.order[0]} else {})
      && next.vals.Keys - e.vals.Keys <= {key}
      && forall k :: k in next.vals && k != key ==> k in e.vals && next.vals[k] == e.vals[k]
  {
    if key !in e.vals && lookup(key).Ok? {
      var v := lookup(key).value;
      assert Access(cacheSize, lookup, e, key).next == Put(cacheSize, e, key, v);
      PutEvictsOnlyHead(cacheSize, e, key, v);
    }
  }

  /** The `put` half of EvictsOnlyEldest. */
  lemma PutEvictsOnlyHead<E>(cacheSize: int, e: Entries<E>, key: string, v: E)
    requires Inv(cacheSize, e) && key !in e.vals
    ensures var next := Put(cacheSize, e, key, v);
      && e.vals.Keys - next.vals.Keys
           == (if |e.order| == cacheSize - 1 && e.order != [] then {e.order[0]} else {})
      && next.vals.Keys - e.vals.Keys <= {key}
      && forall k :: k in next.vals && k != key ==> k in e.vals && next.vals[k] == e.vals[k]
  {
    var next := Put(cacheSize, e, key, v);
    PutEvictsWhenFull(cacheSize, e, key, v);
    if |e.order| == cacheSize - 1 && e.order != [] {
      assert e.order[0] != key;
      assert next.vals.Keys == e.vals.Keys - {e.order[0]} + {key};
    }
  }

  /**
   * Memoization: right after a successful `get(key)` with `cacheSize >= 2`,
   * a second `get(key)` is a hit and returns the same value without a lookup.
   */
  lemma RepeatIsHit<E>(cacheSize: int, lookup: Lookup<E>, e: Entries<E>, key: string)
    requires Inv(cacheSize, e) && cacheSize >= 2
    requires Access(cacheSize, lookup, e, key).result.Ok?
    ensures var first := Access(cacheSize, lookup, e, key);
      && key in first.next.vals
      && Access(cacheSize, lookup, first.next, key).result == first.result
  {
    if key !in e.vals {
      MissLoadsThrough(cacheSize, lookup, e, key);
    }
  }

  /** Every cached value is what `lookup` gives for its key. */
  ghost predicate Consistent<E>(lookup: Lookup<E>, e: Entries<E>) {
    forall k :: k in e.vals ==> lookup(k) == Ok(e.vals[k])
  }

  /**
   * Values are only ever produced by `lookup`: from a state where every cached
   * value is `lookup`'s answer for its key, a `get` returns exactly
   * `lookup(key)` (hit or miss) and leaves such a state behind. Starting from
   * the empty cache, every `get` of any sequence therefore agrees with `lookup`.
   */
  lemma AccessAgreesWithLookup<E>(cacheSize: int, lookup: Lookup<E>, e: Entries<E>, key: string)
    requires Inv(cacheSize, e) && Consistent(lookup, e)
    ensures var out := Access(cacheSize, lookup, e, key);
      out.result == lookup(key) && Consistent(lookup, out.next)
  {
  }

  // ---------------------------------------------------------------------------
  // Concrete call sequences
  // ---------------------------------------------------------------------------

  /** The lookup used in the sequences below: `k` maps to `k + "_v"`. */
  function Suffix(k: string): (r: Result<string>) {
    Ok(k + "_v")
  }

  lemma SuffixOfLetter(c: char)
    ensures Suffix([c]) == Ok([c, '_', 'v'])
  {
    assert [c] + "_v" == [c, '_', 'v'];
  }

  /**
   * With `cacheSize == 2`, `get("a"); get("b")` leaves only "b" cached: the
   * map holds at most one entry.
   */
  lemma SizeTwoHoldsOneEntry()
    ensures var s0 := Entries([], map[]);
      && Inv(2, s0)
      && var s1 := Access(2, Suffix, s0, "a").next;
      && Access(2, Suffix, s1, "b").next == Entries(["b"], map["b" := "b_v"])
  {
    var s0: Entries<string> := Entries([], map[]);
    SuffixOfLetter('a');
    SuffixOfLetter('b');
    assert |map["a" := "a_v"]| == 1;
    assert Put(2, s0, "a", "a_v") == Entries(["a"], map["a" := "a_v"]);
    var s1 := Access(2, Suffix, s0, "a").next;
    assert s1 == Entries(["a"], map["a" := "a_v"]);
    assert |map["a" := "a_v", "b" := "b_v"]| == 2;
    assert (["a"] + ["b"])[1..] == ["b"];
    assert map["a" := "a_v", "b" := "b_v"] - {"a"} == map["b" := "b_v"];
    assert Put(2, s1, "b", "b_v") == Entries(["b"], map["b" := "b_v"]);
  }

  /**
   * With `cacheSize == 3` (two entries), `get(a), get(b), get(a), get(c)` evicts
   * "b", not "a": the second `get(a)` refreshed a's recency.
   */
  lemma RecencyRefresh()
    ensures var s0 := Entries([], map[]);
      && Inv(3, s0)
      && var s1 := Access(3, Suffix, s0, "a").next;
      && var s2 := Access(3, Suffix, s1, "b").next;
      && var s3 := Access(3, Suffix, s2, "a");
      && s3.result == Ok("a_v")
      && var s4 := Access(3, Suffix, s3.next, "c").next;
      && s4 == Entries(["a", "c"], map["a" := "a_v", "c" := "c_v"])
  {
    var s0: Entries<string> := Entries([], map[]);
    SuffixOfLetter('a');
    SuffixOfLetter('b');
    SuffixOfLetter('c');
    RecencyRefreshSteps();
    var s1 := Access(3, Suffix, s0, "a").next;
    var s2 := Access(3, Suffix, s1, "b").next;
    var s3 := Access(3, Suffix, s2, "a").next;
    assert s3 == Entries(["b", "a"], map["a" := "a_v", "b" := "b_v"]);
  }

  /** The individual map operations of RecencyRefresh. */
  lemma RecencyRefreshSteps()
    ensures Put(3, Entries([], map[]), "a", "a_v") == Entries(["a"], map["a" := "a_v"])
    ensures Put(3, Entries(["a"], map["a" := "a_v"]), "b", "b_v")
              == Entries(["a", "b"], map["a" := "a_v", "b" := "b_v"])
    ensures MoveToEnd(["a", "b"], "a") == ["b", "a"]
    ensures Put(3, Entries(["b", "a"], map["a" := "a_v", "b" := "b_v"]), "c", "c_v")
              == Entries(["a", "c"], map["a" := "a_v", "c" := "c_v"])
  {
    assert |map["a" := "a_v", "b" := "b_v"]| == 2;
    assert |map["a" := "a_v", "b" := "b_v", "c" := "c_v"]| == 3;
    assert map["a" := "a_v", "b" := "b_v", "c" := "c_v"] - {"b"} == map["a" := "a_v", "c" := "c_v"];
  }

  // ---------------------------------------------------------------------------
  // roundPow2 and the constructor's arithmetic
  // ---------------------------------------------------------------------------

  /** 2 to the power `k`. */
  function Pow2(k: nat): (p: nat)
    ensures p >= 1
  {
    if k == 0 then 1 else 2 * Pow2(k - 1)
  }

  /** `p` is a power of two. */
  ghost predicate IsPow2(p: int)
    decreases if p < 0 then 0 else p
  {
    p == 1 || (p >= 2 && p % 2 == 0 && IsPow2(p / 2))
  }

  /**
   * The value of roundPow2: inputs up to 1 come back unchanged; otherwise the
   * largest power of two not above the input.
   */
  function FloorPow2(n: int): (p: int)
    ensures n <= 1 ==> p == n
    ensures n >= 1 ==> IsPow2(p) && p <= n < 2 * p
  {
    if n <= 1 then n else 2 * FloorPow2(n / 2)
  }

  /** One turn of roundPow2's loop keeps `FloorPow2(n) * 2^i` fixed. */
  lemma HalvingStep(n: int, i: nat)
    requires n > 1
    ensures FloorPow2(n) * Pow2(i) == FloorPow2(n / 2) * Pow2(i + 1)
  {
    var x, y := FloorPow2(n / 2), Pow2(i);
    assert FloorPow2(n) == 2 * x && Pow2(i + 1) == 2 * y;
    assert (2 * x) * y == x * (2 * y);
  }

  /**
   * roundPow2: halve `n` (an unsigned shift of a positive int) until it is at
   * most 1, counting the steps, then shift it back left by the count. The
   * result never exceeds a positive input, so the left shift cannot overflow a
   * 32-bit int.
   */
  method RoundPow2(n0: int) returns (p: int)
    ensures p == FloorPow2(n0)
    ensures n0 <= 1 ==> p == n0
    ensures n0 >= 1 ==> IsPow2(p) && p <= n0 < 2 * p
  {
    var n, i: nat := n0, 0;
    while n > 1
      invariant n0 > 1 ==> n >= 1
      invariant n0 <= 1 ==> n == n0 && i == 0
      invariant FloorPow2(n0) == FloorPow2(n) * Pow2(i)
      decreases n
    {
      HalvingStep(n, i);
      n := n / 2;
      i := i + 1;
    }
    assert n0 > 1 ==> n == 1;
    p := n * Pow2(i);
  }

  /** A quotient of `n` by a divisor in (n/2, n] is 1. */
  lemma QuotientIsOne(n: int, p: int)
    requires 1 <= p <= n < 2 * p
    ensures n / p == 1
  {
  }

  /**
   * The load factor the constructor passes to the map, `cacheSize /
   * roundPow2(cacheSize)`, is 1 for every positive capacity; at 0 the divisor
   * is 0.
   */
  lemma LoadFactorIsOne(n: int)
    ensures n >= 1 ==> FloorPow2(n) >= 1 && n / FloorPow2(n) == 1
    ensures n == 0 ==> FloorPow2(n) == 0
  {
    if n >= 1 {
      var p := FloorPow2(n);
      QuotientIsOne(n, p);
    }
  }

  // ---------------------------------------------------------------------------
  // A cache instance
  // ---------------------------------------------------------------------------

  /** The observable value of a cache instance. */
  datatype Instance<E> = Instance(cacheSize: int, lookup: Lookup<E>, entries: Entries<E>)

  /**
   * `LRU::new` as a maker: a fresh, empty instance, or the exception the
   * constructor throws (division by zero at 0; the hash map rejects a negative
   * initial capacity).
   */
  function New<E>(cacheSize: int, lookup: Lookup<E>): (r: Result<Instance<E>>)
    ensures r.Ok? <==> cacheSize >= 1
    ensures r.Ok? ==> && r.value.cacheSize == cacheSize
                      && r.value.lookup == lookup
                      && r.value.entries == Entries([], map[])
                      && Inv(cacheSize, r.value.entries)
  {
    if FloorPow2(cacheSize) == 0 then Fail("division by zero")
    else if cacheSize < 0 then Fail("illegal initial capacity")
    else Ok(Instance(cacheSize, lookup, Entries([], map[])))
  }

  /** A read-through LRU cache; `get` is the only operation that changes it. */
  class LRU<E> {
    const cacheSize: int
    const lookup: Lookup<E>
    /** The load factor handed to the underlying map. */
    const loadFactor: int
    /** Keys from eldest to most recently used. */
    var order: seq<string>
    var vals: map<string, E>
    /** The keys passed to `lookup` so far, oldest first. */
    ghost var calls: seq<string>

    ghost predicate Valid()
      reads this
    {
      Inv(cacheSize, Entries(order, vals))
    }

    ghost function View(): Instance<E>
      reads this
    {
      Instance(cacheSize, lookup, Entries(order, vals))
    }

    constructor(cacheSize: int, lookup: Lookup<E>)
      requires cacheSize >= 1
      ensures Valid() && New(cacheSize, lookup) == Ok(View())
      ensures loadFactor == 1 && calls == []
    {
      var p := RoundPow2(cacheSize);
      LoadFactorIsOne(cacheSize);
      this.loadFactor := cacheSize / p;
      this.cacheSize := cacheSize;
      this.lookup := lookup;
      order := [];
      vals := map[];
      calls := [];
    }

    /**
     * get: a hit reads the value and refreshes its recency; a miss calls
     * `lookup`, puts the value, and lets the hook evict the eldest entry.
     */
    method Get(key: string) returns (r: Result<E>)
      requires Valid()
      modifies this
      ensures Valid()
      ensures Outcome(Entries(order, vals), r) == Access(cacheSize, lookup, old(Entries(order, vals)), key)
      ensures r == if key in old(vals) then Ok(old(vals)[key]) else lookup(key)
      ensures calls == old(calls) + if key in old(vals) then [] else [key]
    {
      if key in vals {
        r := Ok(vals[key]);
        MoveToEndNoDup(order, key);
        order := MoveToEnd(order, key);
      } else {
        r := lookup(key);
        calls := calls + [key];
        if r.Ok? {
          SizeIsOrderLength(Entries(order, vals));
          order := order + [key];
          vals := vals[key := r.value];
          if RemoveEldest(cacheSize, |vals|) {
            var eldest := order[0];
            order := order[1..];
            vals := vals - {eldest};
          }
          assert Entries(order, vals) == Put(cacheSize, old(Entries(order, vals)), key, r.value);
          PutKeepsInv(cacheSize, old(Entries(order, vals)), key, r.value);
        }
      }
    }

    /** The number of cached entries; always below the capacity. */
    function Size(): (n: nat)
      reads this
      requires Valid()
      ensures n == |order| && n < cacheSize
    {
      SizeIsOrderLength(Entries(order, vals));
      |vals|
    }

    /** The capacity given at construction; more than the number of entries. */
    function Capacity(): (c: int)
      reads this
      requires Valid()
      ensures c == cacheSize && c >= 1 && Size() < c
    {
      cacheSize
    }
  }
}
