/**
  Fixed-size memory pools: each pool's free elements form a linked list threaded through
  the elements themselves, and a sanity check looks for cycles in those lists.
 */
module Memp {

  const NULL: int := 0

  /** The `next` word stored in each element. */
  type Links = map<int, int>

  ghost predicate Closed(next: Links) {
    NULL !in next && forall a :: a in next ==> next[a] == NULL || next[a] in next
  }

  /** The element `n` links after `x`, or NULL once the list has ended. */
  ghost function Walk(next: Links, x: int, n: nat): int
    requires Closed(next) && (x == NULL || x in next)
    ensures Walk(next, x, n) == NULL || Walk(next, x, n) in next
  {
    if n == 0 then x
    else var y := Walk(next, x, n - 1); if y == NULL then NULL else next[y]
  }

  /** The list that starts at `x` ends. */
  ghost predicate Ends(next: Links, x: int)
    requires Closed(next) && (x == NULL || x in next)
  {
    exists n: nat :: Walk(next, x, n) == NULL
  }

  lemma {:induction false} WalkPlus(next: Links, x: int, m: nat, n: nat)
    requires Closed(next) && (x == NULL || x in next)
    ensures Walk(next, x, m + n) == Walk(next, Walk(next, x, m), n)
    decreases n
  {
    if n > 0 {
      WalkPlus(next, x, m, n - 1);
    }
  }

  lemma {:induction false} StaysNull(next: Links, x: int, m: nat, n: nat)
    requires Closed(next) && (x == NULL || x in next) && m <= n && Walk(next, x, m) == NULL
    ensures Walk(next, x, n) == NULL
    decreases n
  {
    if m < n {
      StaysNull(next, x, m, n - 1);
    }
  }

  /** Once a position repeats, it repeats at every multiple of the distance. */
  lemma {:induction false} Periodic(next: Links, x: int, i: nat, d: nat, k: nat)
    requires Closed(next) && (x == NULL || x in next)
    requires Walk(next, x, i) == Walk(next, x, i + d)
    ensures Walk(next, x, i + k * d) == Walk(next, x, i)
    decreases k
  {
    if k > 0 {
      Periodic(next, x, i, d, k - 1);
      WalkPlus(next, x, i + (k - 1) * d, d);
      WalkPlus(next, x, i, d);
      assert i + (k - 1) * d + d == i + k * d;
    } else {
      assert i + k * d == i;
    }
  }

  /** A repeated element means the list never ends. */
  lemma RepeatNeverEnds(next: Links, x: int, i: nat, d: nat)
    requires Closed(next) && (x == NULL || x in next) && d > 0
    requires Walk(next, x, i) == Walk(next, x, i + d) != NULL
    ensures !Ends(next, x)
  {
    forall n: nat ensures Walk(next, x, n) != NULL {
      if Walk(next, x, n) == NULL {
        Periodic(next, x, i, d, n);
        assert n <= i + n * d by { assert n * d >= n; }
        StaysNull(next, x, n, i + n * d);
      }
    }
  }

  /** The elements at positions 0 to `n`. */
  ghost function Seen(next: Links, x: int, n: nat): set<int>
    requires Closed(next) && (x == NULL || x in next)
  {
    if n == 0 then {x} else Seen(next, x, n - 1) + {Walk(next, x, n)}
  }

  lemma {:induction false} SeenAt(next: Links, x: int, n: nat, v: int) returns (j: nat)
    requires Closed(next) && (x == NULL || x in next) && v in Seen(next, x, n)
    ensures j <= n && Walk(next, x, j) == v
    decreases n
  {
    if v == Walk(next, x, n) {
      j := n;
    } else {
      j := SeenAt(next, x, n - 1, v);
    }
  }

  /** Either two of the first positions hold the same element, or they are all different
      elements of the pool memory. */
  lemma {:induction false} Visit(next: Links, x: int, n: nat) returns (found: bool, a: nat, b: nat)
    requires Closed(next) && x in next && Walk(next, x, n) != NULL
    ensures found ==> a < b <= n && Walk(next, x, a) == Walk(next, x, b)
    ensures !found ==> Seen(next, x, n) <= next.Keys && |Seen(next, x, n)| == n + 1
    decreases n
  {
    found, a, b := false, 0, 0;
    if n > 0 {
      found, a, b := Visit(next, x, n - 1);
      if !found && Walk(next, x, n) in Seen(next, x, n - 1) {
        var j := SeenAt(next, x, n - 1, Walk(next, x, n));
        found, a, b := true, j, n;
      }
    }
  }

  lemma SubsetSize(s: set<int>, t: set<int>)
    requires s <= t
    ensures |s| <= |t|
  {
    assert t == s + (t - s);
  }

  /** The slow pointer, at `m`, has run off the list or stands where the fast one does. */
  lemma MeetingPoint(next: Links, x: int) returns (m: nat)
    requires Closed(next) && (x == NULL || x in next)
    ensures Walk(next, x, m) == NULL || Walk(next, x, m) == Walk(next, x, 2 * m + 1)
  {
    var n := |next.Keys|;
    if x == NULL || Walk(next, x, n) == NULL {
      m := n;
      if x == NULL {
        StaysNull(next, x, 0, n);
      }
    } else {
      var found, a, b := Visit(next, x, n);
      if !found {
        SubsetSize(Seen(next, x, n), next.Keys);
      }
      var d := b - a;
      m := d * (a + 1) - 1;
      assert m >= a by { assert d * (a + 1) >= a + 1; }
      Periodic(next, x, a, d, a + 1);
      WalkPlus(next, x, a, m - a);
      WalkPlus(next, x, a + (a + 1) * d, m - a);
      assert a + (a + 1) * d + (m - a) == 2 * m + 1;
    }
  }

  /** One pool's part of memp_sanity: the two-pointer search for a cycle. */
  method ListEnds(next: Links, head: int) returns (ok: bool)
    requires Closed(next) && (head == NULL || head in next)
    ensures ok <==> Ends(next, head)
  {
    var t := head;
    if t == NULL {
      assert Walk(next, head, 0) == NULL;
      return true;
    }
    var h := next[t];
    ghost var m := MeetingPoint(next, head);
    ghost var i: nat := 0;
    assert Walk(next, head, 1) == next[head];
    while t != NULL && h != NULL
      invariant t == Walk(next, head, i) && h == Walk(next, head, 2 * i + 1)
      invariant i <= m
      decreases m - i
    {
      if t == h {
        RepeatNeverEnds(next, head, i, i + 1);
        return false;
      }
      if i == m {
        assert false;
      }
      TwoMore(next, head, 2 * i + 1);
      t := next[t];
      h := if next[h] != NULL && next[next[h]] != NULL then next[next[h]] else NULL;
      i := i + 1;
    }
    assert Walk(next, head, if t == NULL then i else 2 * i + 1) == NULL;
    return true;
  }

  lemma TwoMore(next: Links, x: int, n: nat)
    requires Closed(next) && (x == NULL || x in next) && Walk(next, x, n) != NULL
    ensures var y := next[Walk(next, x, n)];
            Walk(next, x, n + 2) == if y == NULL then NULL else next[y]
  {
    assert Walk(next, x, n + 1) == next[Walk(next, x, n)];
  }

  // The pools.

  /** The addresses of `n` elements of `size` bytes from `first` on, and where they end. */
  ghost function Cells(first: int, n: nat, size: nat): multiset<int>
    decreases n
  {
    if n == 0 then multiset{} else multiset{first} + Cells(first + size, n - 1, size)
  }

  ghost function CellsEnd(first: int, n: nat, size: nat): int
    decreases n
  {
    if n == 0 then first else CellsEnd(first + size, n - 1, size)
  }

  /** Elements occur once and stay inside their range. */
  lemma {:induction false} CellInside(first: int, n: nat, size: nat, a: int)
    requires size > 0
    ensures first <= CellsEnd(first, n, size) && Cells(first, n, size)[a] <= 1
    ensures a in Cells(first, n, size) ==> first <= a && a + size <= CellsEnd(first, n, size)
    decreases n
  {
    if n > 0 {
      CellInside(first + size, n - 1, size, a);
    }
  }

  /** Where element `k` of a pool is. */
  function Place(first: int, k: nat, size: nat): int {
    first + k * size
  }

  lemma PlaceStep(first: int, k: nat, size: nat)
    ensures Place(first, 0, size) == first && Place(first, k + 1, size) == Place(first + size, k, size)
  {
    assert (k + 1) * size == k * size + size;
  }

  /** There are `n` of them, one behind the other. */
  lemma {:induction false} CellsExact(first: int, n: nat, size: nat)
    ensures |Cells(first, n, size)| == n && CellsEnd(first, n, size) == Place(first, n, size)
    decreases n
  {
    PlaceStep(first, 0, size);
    if n > 0 {
      PlaceStep(first, n - 1, size);
      CellsExact(first + size, n - 1, size);
    }
  }

  lemma {:induction false} CellAt(first: int, n: nat, size: nat, k: nat)
    requires k < n
    ensures Place(first, k, size) in Cells(first, n, size)
    decreases n
  {
    PlaceStep(first, 0, size);
    if k > 0 {
      PlaceStep(first, k - 1, size);
      CellAt(first + size, n - 1, size, k - 1);
    }
  }

  /** Two elements of a pool never overlap. */
  lemma {:induction false} CellsApart(first: int, n: nat, size: nat, a: int, b: int)
    requires size > 0 && a in Cells(first, n, size) && b in Cells(first, n, size) && a < b
    ensures a + size <= b
    decreases n
  {
    CellInside(first + size, n - 1, size, a);
    CellInside(first + size, n - 1, size, b);
    if a in Cells(first + size, n - 1, size) {
      CellsApart(first + size, n - 1, size, a, b);
    }
  }

  /** `s` is the list that starts at `head`. */
  ghost predicate IsList(next: Links, head: int, s: seq<int>)
    decreases |s|
  {
    if s == [] then head == NULL
    else head == s[0] && head != NULL && head in next && IsList(next, next[head], s[1..])
  }

  lemma {:induction false} ListFrame(next: Links, next': Links, head: int, s: seq<int>)
    requires IsList(next, head, s)
    requires forall a :: a in s && a in next ==> a in next' && next'[a] == next[a]
    ensures IsList(next', head, s)
    decreases |s|
  {
    if s != [] {
      ListFrame(next, next', next[head], s[1..]);
    }
  }

  lemma {:induction false} ListMember(next: Links, head: int, s: seq<int>, i: nat)
    requires IsList(next, head, s) && i < |s|
    ensures s[i] != NULL && s[i] in next
    ensures next[s[i]] == if i + 1 < |s| then s[i + 1] else NULL
    decreases |s|
  {
    if i > 0 {
      ListMember(next, next[head], s[1..], i - 1);
    } else {
      assert IsList(next, next[head], s[1..]);
    }
  }

  lemma {:induction false} ListEndsAt(next: Links, head: int, s: seq<int>)
    requires Closed(next) && IsList(next, head, s)
    ensures head == NULL || head in next
    ensures Walk(next, head, |s|) == NULL && Ends(next, head)
    decreases |s|
  {
    if s != [] {
      ListEndsAt(next, next[head], s[1..]);
      WalkPlus(next, head, 1, |s| - 1);
      assert Walk(next, head, 1) == next[head];
    }
  }

  /** Pool `p`: its free elements form its list, and with those handed out make up the pool. */
  ghost predicate PoolAt(next: Links, tab: seq<int>, free: seq<seq<int>>, out: seq<multiset<int>>,
                         elems: seq<multiset<int>>, p: nat)
    requires p < |tab| == |free| == |out| == |elems|
  {
    IsList(next, tab[p], free[p]) && multiset(free[p]) + out[p] == elems[p]
  }

  /** Each element belongs to one pool, once. */
  ghost predicate Separate(elems: seq<multiset<int>>) {
    && (forall p, a :: 0 <= p < |elems| ==> elems[p][a] <= 1)
    && (forall p, q, a :: 0 <= p < q < |elems| && a in elems[p] ==> a !in elems[q])
  }

  ghost predicate Listed(next: Links, lists: seq<seq<int>>) {
    forall a :: a in next ==> exists p: nat :: p < |lists| && a in lists[p]
  }

  class Pools {
    var next: Links
    var tab: seq<int>
    ghost var free: seq<seq<int>>
    ghost var out: seq<multiset<int>>
    ghost var elems: seq<multiset<int>>

    ghost predicate Valid()
      reads this
    {
      && |tab| == |free| == |out| == |elems|
      && (forall p: nat :: p < |tab| ==> PoolAt(next, tab, free, out, elems, p))
      && Separate(elems)
      && Listed(next, free)
    }

    lemma LinksClosed()
      requires Valid()
      ensures Closed(next)
      ensures forall p: nat :: p < |tab| ==> tab[p] == NULL || tab[p] in next
      ensures forall p: nat :: p < |tab| ==> Ends(next, tab[p])
    {
      forall a | a in next ensures a != NULL && (next[a] == NULL || next[a] in next) {
        var p: nat :| p < |free| && a in free[p];
        assert PoolAt(next, tab, free, out, elems, p);
        var i: nat :| i < |free[p]| && free[p][i] == a;
        ListMember(next, tab[p], free[p], i);
        if i + 1 < |free[p]| {
          ListMember(next, tab[p], free[p], i + 1);
        }
      }
      forall p: nat | p < |tab| ensures (tab[p] == NULL || tab[p] in next) && Ends(next, tab[p]) {
        assert PoolAt(next, tab, free, out, elems, p);
        ListEndsAt(next, tab[p], free[p]);
      }
    }

    /** memp_malloc: NULL exactly for a bad pool number or an empty pool; otherwise an element
        of that pool that nobody holds. */
    method Malloc(pool: nat) returns (a: int)
      requires Valid()
      modifies this`next, this`tab, this`free, this`out
      ensures Valid()
      ensures a == NULL <==> pool >= |tab| || old(free)[pool] == []
      ensures a == NULL ==> next == old(next) && tab == old(tab) && free == old(free) && out == old(out)
      ensures a != NULL ==>
                && a == old(free)[pool][0] && a !in old(out)[pool]
                && free == old(free)[pool := old(free)[pool][1..]]
                && out == old(out)[pool := old(out)[pool] + multiset{a}]
    {
      if pool >= |tab| {
        return NULL;
      }
      assert PoolAt(next, tab, free, out, elems, pool);
      a := tab[pool];
      if a != NULL {
        PopPool(pool);
        tab := tab[pool := next[a]];
        next := next - {a};
        out := out[pool := out[pool] + multiset{a}];
        free := free[pool := free[pool][1..]];
      }
    }

    /** Taking the head of a pool's list leaves every pool in order. */
    lemma PopPool(pool: nat)
      requires Valid() && pool < |tab| && free[pool] != [] && tab[pool] in next
      ensures var a := tab[pool];
              var next', tab' := next - {a}, tab[pool := next[a]];
              var free', out' := free[pool := free[pool][1..]], out[pool := out[pool] + multiset{a}];
              && (forall p: nat :: p < |tab| ==> PoolAt(next', tab', free', out', elems, p))
              && Listed(next', free') && a !in out[pool]
    {
      var a := tab[pool];
      var next', tab' := next - {a}, tab[pool := next[a]];
      var free', out' := free[pool := free[pool][1..]], out[pool := out[pool] + multiset{a}];
      assert PoolAt(next, tab, free, out, elems, pool);
      assert free[pool] == [a] + free'[pool];
      assert elems[pool][a] <= 1;
      forall p: nat | p < |tab| ensures PoolAt(next', tab', free', out', elems, p) {
        assert PoolAt(next, tab, free, out, elems, p);
        assert a in elems[pool] && (p != pool ==> a !in elems[p]);
        ListFrame(next, next', if p == pool then next[a] else tab[p], free'[p]);
      }
      forall b | b in next' ensures exists p: nat :: p < |free'| && b in free'[p] {
        var p: nat :| p < |free| && b in free[p];
        assert b in free'[p];
      }
    }

    /** memp_free: the element goes back to the front of its pool's list. */
    method Free(pool: nat, a: int)
      requires Valid()
      requires a != NULL ==> pool < |tab| && a in out[pool]
      modifies this`next, this`tab, this`free, this`out
      ensures Valid()
      ensures if a == NULL then next == old(next) && tab == old(tab) && free == old(free) && out == old(out)
              else
                && free == old(free)[pool := [a] + old(free)[pool]]
                && out == old(out)[pool := old(out)[pool] - multiset{a}]
    {
      if a == NULL {
        return;
      }
      PushPool(pool, a);
      next := next[a := tab[pool]];
      tab := tab[pool := a];
      out := out[pool := out[pool] - multiset{a}];
      free := free[pool := [a] + free[pool]];
    }

    lemma PushPool(pool: nat, a: int)
      requires Valid() && pool < |tab| && a in out[pool] && a != NULL
      ensures var next', tab' := next[a := tab[pool]], tab[pool := a];
              var free', out' := free[pool := [a] + free[pool]], out[pool := out[pool] - multiset{a}];
              && (forall p: nat :: p < |tab| ==> PoolAt(next', tab', free', out', elems, p))
              && Listed(next', free')
    {
      var next', tab' := next[a := tab[pool]], tab[pool := a];
      var free', out' := free[pool := [a] + free[pool]], out[pool := out[pool] - multiset{a}];
      assert PoolAt(next, tab, free, out, elems, pool);
      assert elems[pool][a] <= 1;
      forall p: nat | p < |tab| ensures PoolAt(next', tab', free', out', elems, p) {
        assert PoolAt(next, tab, free, out, elems, p);
        assert a in elems[pool] && (p != pool ==> a !in elems[p]);
        ListFrame(next, next', tab[p], free[p]);
        if p == pool {
          assert free'[p][1..] == free[p];
        }
      }
      forall b | b in next' ensures exists p: nat :: p < |free'| && b in free'[p] {
        if b == a {
          assert b in free'[pool];
        } else {
          var p: nat :| p < |free| && b in free[p];
          assert b in free'[p];
        }
      }
    }

    /** memp_sanity: finds a cycle exactly when some pool's list has one, and so never in a
        sound set of pools. */
    method Sanity() returns (ok: bool)
      requires Closed(next) && forall p: nat :: p < |tab| ==> tab[p] == NULL || tab[p] in next
      ensures ok <==> forall p: nat :: p < |tab| ==> Ends(next, tab[p])
      ensures Valid() ==> ok
    {
      if Valid() {
        LinksClosed();
      }
      for p := 0 to |tab|
        invariant forall q: nat :: q < p ==> Ends(next, tab[q])
      {
        ok := ListEnds(next, tab[p]);
        if !ok {
          return;
        }
      }
      ok := true;
    }

    /** memp_init: carve one pool after another out of the memory at `base`. */
    constructor (base: int, nums: seq<nat>, sizes: seq<nat>)
      requires 0 < base && |nums| == |sizes| && forall p :: 0 <= p < |sizes| ==> 0 < sizes[p]
      ensures Valid() && |tab| == |nums|
      ensures forall p :: 0 <= p < |nums| ==> out[p] == multiset{}
      ensures forall p: nat :: p < |nums| ==> elems[p] == PoolElems(base, nums, sizes, p)
      // Each pool has as many elements as configured, one behind the other.
      ensures forall p: nat :: p < |nums| ==> |elems[p]| == nums[p]
      ensures forall p: nat, k: nat :: p < |nums| && k < nums[p] ==>
                Place(PoolStart(base, nums, sizes, p), k, sizes[p]) in elems[p]
    {
      var links, heads;
      ghost var lists;
      links, heads, lists := BuildPools(base, nums, sizes);
      PoolsSeparate(base, nums, sizes);
      next, tab := links, heads;
      free := lists;
      out := seq(|lists|, _ => multiset{});
      elems := AllElems(base, nums, sizes);
      new;
      forall p: nat | p < |tab| ensures PoolAt(next, tab, free, out, elems, p) {
        assert BuiltAt(links, heads, lists, base, nums, sizes, p);
      }
      forall p: nat | p < |nums| ensures |elems[p]| == nums[p] {
        CellsExact(PoolStart(base, nums, sizes, p), nums[p], sizes[p]);
      }
      forall p: nat, k: nat | p < |nums| && k < nums[p]
        ensures Place(PoolStart(base, nums, sizes, p), k, sizes[p]) in elems[p]
      {
        CellAt(PoolStart(base, nums, sizes, p), nums[p], sizes[p], k);
      }
    }
  }

  // Setting the pools up.

  /** Where pool `p` starts: behind the pools before it. */
  ghost function PoolStart(base: int, nums: seq<nat>, sizes: seq<nat>, p: nat): int
    requires p <= |nums| == |sizes|
  {
    if p == 0 then base else CellsEnd(PoolStart(base, nums, sizes, p - 1), nums[p - 1], sizes[p - 1])
  }

  /** The elements memp_init makes for pool `p`. */
  ghost function PoolElems(base: int, nums: seq<nat>, sizes: seq<nat>, p: nat): multiset<int>
    requires p < |nums| == |sizes|
  {
    Cells(PoolStart(base, nums, sizes, p), nums[p], sizes[p])
  }

  ghost function AllElems(base: int, nums: seq<nat>, sizes: seq<nat>): seq<multiset<int>>
    requires |nums| == |sizes|
  {
    seq(|nums|, p requires 0 <= p < |nums| => PoolElems(base, nums, sizes, p))
  }

  lemma {:induction false} PoolsOrdered(base: int, nums: seq<nat>, sizes: seq<nat>, p: nat, q: nat)
    requires |nums| == |sizes| && (forall i :: 0 <= i < |sizes| ==> 0 < sizes[i]) && p < q <= |nums|
    ensures CellsEnd(PoolStart(base, nums, sizes, p), nums[p], sizes[p]) <= PoolStart(base, nums, sizes, q)
    decreases q
  {
    if p < q - 1 {
      PoolsOrdered(base, nums, sizes, p, q - 1);
      CellInside(PoolStart(base, nums, sizes, q - 1), nums[q - 1], sizes[q - 1], 0);
    }
  }

  /** The pools follow one another without gaps. */
  lemma PoolsAdjoin(base: int, nums: seq<nat>, sizes: seq<nat>, p: nat)
    requires p < |nums| == |sizes|
    ensures PoolStart(base, nums, sizes, 0) == base
    ensures PoolStart(base, nums, sizes, p + 1) == PoolStart(base, nums, sizes, p) + nums[p] * sizes[p]
  {
    CellsExact(PoolStart(base, nums, sizes, p), nums[p], sizes[p]);
  }

  lemma PoolsSeparate(base: int, nums: seq<nat>, sizes: seq<nat>)
    requires |nums| == |sizes| && (forall i :: 0 <= i < |sizes| ==> 0 < sizes[i])
    ensures Separate(AllElems(base, nums, sizes))
  {
    var es := AllElems(base, nums, sizes);
    forall p, a | 0 <= p < |es| ensures es[p][a] <= 1 {
      CellInside(PoolStart(base, nums, sizes, p), nums[p], sizes[p], a);
    }
    forall p, q, a | 0 <= p < q < |es| && a in es[p] ensures a !in es[q] {
      CellInside(PoolStart(base, nums, sizes, p), nums[p], sizes[p], a);
      CellInside(PoolStart(base, nums, sizes, q), nums[q], sizes[q], a);
      PoolsOrdered(base, nums, sizes, p, q);
    }
  }

  ghost predicate BuiltAt(next: Links, heads: seq<int>, lists: seq<seq<int>>, base: int, nums: seq<nat>,
                          sizes: seq<nat>, p: nat)
    requires p < |lists| <= |nums| == |sizes| && |heads| == |lists|
  {
    IsList(next, heads[p], lists[p]) && multiset(lists[p]) == PoolElems(base, nums, sizes, p)
  }

  /** The lists of the first pools have been built, all below the start of the next pool. */
  ghost predicate Carved(next: Links, heads: seq<int>, lists: seq<seq<int>>, base: int, nums: seq<nat>, sizes: seq<nat>)
    requires |lists| <= |nums| == |sizes|
  {
    && |heads| == |lists|
    && (forall p: nat :: p < |lists| ==> BuiltAt(next, heads, lists, base, nums, sizes, p))
    && (forall a :: a in next ==> a < PoolStart(base, nums, sizes, |lists|))
    && Listed(next, lists)
  }

  lemma AddPool(next: Links, next': Links, heads: seq<int>, lists: seq<seq<int>>,
                head: int, list: seq<int>, base: int, nums: seq<nat>, sizes: seq<nat>)
    requires |lists| < |nums| == |sizes| && Carved(next, heads, lists, base, nums, sizes)
    requires Linking(next, next', head, list, PoolStart(base, nums, sizes, |lists| + 1))
    requires multiset(list) == PoolElems(base, nums, sizes, |lists|)
    ensures Carved(next', heads + [head], lists + [list], base, nums, sizes)
  {
    var hs, ls := heads + [head], lists + [list];
    forall p: nat | p < |ls| ensures BuiltAt(next', hs, ls, base, nums, sizes, p) {
      if p < |lists| {
        assert BuiltAt(next, heads, lists, base, nums, sizes, p);
        ListFrame(next, next', heads[p], lists[p]);
      }
    }
    forall a | a in next' ensures exists p: nat :: p < |ls| && a in ls[p] {
      if a in list {
        assert a in ls[|lists|];
      } else {
        var p: nat :| p < |lists| && a in lists[p];
        assert a in ls[p];
      }
    }
  }

  /** The outer loop of memp_init. */
  method BuildPools(base: int, nums: seq<nat>, sizes: seq<nat>)
    returns (next: Links, heads: seq<int>, ghost lists: seq<seq<int>>)
    requires 0 < base && |nums| == |sizes| && forall p :: 0 <= p < |sizes| ==> 0 < sizes[p]
    ensures |lists| == |nums| && Carved(next, heads, lists, base, nums, sizes)
  {
    next, heads, lists := map[], [], [];
    var memp := base;
    for i := 0 to |nums|
      invariant |lists| == i && memp == PoolStart(base, nums, sizes, i) && base <= memp
      invariant Carved(next, heads, lists, base, nums, sizes)
    {
      var next', head, end;
      ghost var list;
      next', head, end, list := CarvePool(next, memp, nums[i], sizes[i]);
      AddPool(next, next', heads, lists, head, list, base, nums, sizes);
      next, heads, lists, memp := next', heads + [head], lists + [list], end;
    }
  }

  /** `list` has been linked in front of nothing, on top of the links `next0`. */
  ghost predicate Linking(next0: Links, next: Links, head: int, list: seq<int>, end: int) {
    && IsList(next, head, list)
    && (forall a :: a in next ==> a < end && (a in next0 || a in list))
    && (forall a :: a in next0 ==> a in next && next[a] == next0[a])
  }

  lemma LinkOne(next0: Links, next: Links, head: int, list: seq<int>, end: int, size: nat)
    requires Linking(next0, next, head, list, end) && 0 < end && 0 < size
    ensures Linking(next0, next[end := head], end, [end] + list, end + size)
    ensures multiset([end] + list) == multiset{end} + multiset(list)
  {
    forall a | a in list ensures a in next {
      var i: nat :| i < |list| && list[i] == a;
      ListMember(next, head, list, i);
    }
    ListFrame(next, next[end := head], head, list);
    assert ([end] + list)[1..] == list;
  }

  /** The inner loop of memp_init: link `n` elements into a list. */
  method CarvePool(next0: Links, first: int, n: nat, size: nat)
    returns (next: Links, head: int, end: int, ghost list: seq<int>)
    requires 0 < first && 0 < size && forall a :: a in next0 ==> a < first
    ensures Linking(next0, next, head, list, end) && first <= end
    ensures multiset(list) == Cells(first, n, size) && end == CellsEnd(first, n, size)
  {
    next, head, end, list := next0, NULL, first, [];
    for j := 0 to n
      invariant Linking(next0, next, head, list, end) && first <= end
      invariant multiset(list) + Cells(end, n - j, size) == Cells(first, n, size)
      invariant CellsEnd(first, n, size) == CellsEnd(end, n - j, size)
    {
      LinkOne(next0, next, head, list, end, size);
      next, head, list := next[end := head], end, [end] + list;
      end := end + size;
    }
  }
}
