/**
  Reference counting of packet buffers: chains linked by `next`, possibly sharing tails,
  whose counts must equal the pointers that refer to them.
 */
module PbufRefs {

  const NULL: int := 0

  /** `next` of every live pbuf. */
  type Links = map<int, int>

  /** The live pbufs whose `next` is `p`. */
  ghost function Preds(next: Links, p: int): set<int> {
    set q | q in next && next[q] == p
  }

  /** The chain of `p`, spelled out: `p` itself and then the chain of its successor. */
  ghost predicate ChainAt(next: Links, chain: map<int, seq<int>>, p: int)
    requires p in next && p in chain
  {
    if next[p] == NULL then chain[p] == [p]
    else next[p] in next && next[p] in chain && chain[p] == [p] + chain[next[p]]
  }

  /** Pointers to `p`: from other pbufs, from callers, and one more if `p` is the pbuf whose
      reference is just being given up. */
  ghost function Pointers(next: Links, held: multiset<int>, dropped: int, p: int): nat {
    |Preds(next, p)| + held[p] + if p == dropped then 1 else 0
  }

  ghost predicate NodeAt(next: Links, ref: map<int, nat>, held: multiset<int>, chain: map<int, seq<int>>,
                         dropped: int, p: int)
    requires p in next && p in ref && p in chain
  {
    ChainAt(next, chain, p) && ref[p] == Pointers(next, held, dropped, p)
  }

  /** Counts equal pointers, links stay among live pbufs, and every chain ends. */
  ghost predicate Sound(next: Links, ref: map<int, nat>, held: multiset<int>, chain: map<int, seq<int>>, dropped: int) {
    && NULL !in next && next.Keys == ref.Keys == chain.Keys
    && (dropped == NULL || dropped in next)
    && (forall p :: held[p] > 0 ==> p in next)
    && (forall p {:trigger NodeAt(next, ref, held, chain, dropped, p)} :: p in next ==>
          NodeAt(next, ref, held, chain, dropped, p))
  }

  lemma PredsWithout(next: Links, p: int, r: int)
    requires p in next
    ensures Preds(next - {p}, r) == Preds(next, r) - {p}
    ensures |Preds(next - {p}, r)| == |Preds(next, r)| - if next[p] == r then 1 else 0
  {
    assert Preds(next - {p}, r) == Preds(next, r) - {p};
    if next[p] == r {
      assert p in Preds(next, r);
    } else {
      assert Preds(next, r) - {p} == Preds(next, r);
    }
  }

  /** Linking `p`, which pointed nowhere, to `q`. */
  lemma PredsWith(next: Links, p: int, q: int, r: int)
    requires p in next ==> next[p] == NULL
    requires r != NULL
    ensures |Preds(next[p := q], r)| == |Preds(next, r)| + if q == r then 1 else 0
  {
    var before, after := Preds(next, r), Preds(next[p := q], r);
    forall x ensures x in after <==> x in before || (x == p && q == r) {
    }
    if q == r {
      assert after == before + {p} && p !in before;
    } else {
      assert after == before;
    }
  }

  lemma NotPred(next: Links, p: int, r: int)
    requires r in next && Preds(next, p) == {}
    ensures next[r] != p
  {
    assert r !in Preds(next, p);
  }

  lemma PredsCut(next: Links, p: int, r: int)
    requires p in next && r != NULL
    ensures |Preds(next[p := NULL], r)| == |Preds(next, r)| - if next[p] == r then 1 else 0
  {
    assert Preds(next[p := NULL], r) == Preds(next, r) - {p};
    if next[p] == r {
      assert p in Preds(next, r);
    } else {
      assert Preds(next, r) - {p} == Preds(next, r);
    }
  }

  /** Deallocating a pbuf nobody points to: its successor loses a pointer in turn. */
  lemma ReleaseOne(next: Links, ref: map<int, nat>, held: multiset<int>, chain: map<int, seq<int>>, p: int)
    requires p in next && p in ref && p in chain && Sound(next, ref, held, chain, p) && ref[p] == 1
    ensures Sound(next - {p}, ref - {p}, held, chain - {p}, next[p])
    ensures next[p] != NULL ==> next[p] in next && next[p] != p
  {
    assert NodeAt(next, ref, held, chain, p, p);
    assert Preds(next, p) == {} && held[p] == 0;
    forall r | r in next - {p} ensures NodeAt(next - {p}, ref - {p}, held, chain - {p}, next[p], r) {
      assert NodeAt(next, ref, held, chain, p, r);
      PredsWithout(next, p, r);
      NotPred(next, p, r);
    }
    NotPred(next, p, p);
  }

  /** A pbuf that stays referenced just loses one count. */
  lemma ReleaseStops(next: Links, ref: map<int, nat>, held: multiset<int>, chain: map<int, seq<int>>, p: int)
    requires p in next && p in ref && Sound(next, ref, held, chain, p) && ref[p] > 1
    ensures Sound(next, ref[p := ref[p] - 1], held, chain, NULL)
  {
    var ref' := ref[p := ref[p] - 1];
    assert ref'.Keys == ref.Keys;
    forall r | r in next ensures NodeAt(next, ref', held, chain, NULL, r) {
      assert NodeAt(next, ref, held, chain, p, r);
      assert Pointers(next, held, NULL, r) == Pointers(next, held, p, r) - if r == p then 1 else 0;
    }
  }

  // Linking and cutting.

  ghost function Tail(s: seq<int>): int
    requires s != []
  {
    s[|s| - 1]
  }

  /** All chains after the chain of `t` has been put behind the pbuf `last`. */
  ghost function Joined(chain: map<int, seq<int>>, last: int, t: int): map<int, seq<int>>
    requires t in chain && forall p :: p in chain ==> chain[p] != []
  {
    map p | p in chain :: if Tail(chain[p]) == last then chain[p] + chain[t] else chain[p]
  }

  lemma JoinChain(next: Links, chain: map<int, seq<int>>, last: int, t: int, p: int)
    requires last in next && t in next && p in next && NULL !in next
    requires last in chain && t in chain && forall x :: x in chain ==> chain[x] != []
    requires p in chain && ChainAt(next, chain, p) && ChainAt(next, chain, last)
    requires next[last] == NULL && Tail(chain[t]) != last
    ensures ChainAt(next[last := t], Joined(chain, last, t), p)
  {
    if p != last && next[p] != NULL {
      assert Tail(chain[p]) == Tail(chain[next[p]]);
    }
  }

  /** The part of `s` up to and including `p`. */
  ghost function UpTo(s: seq<int>, p: int): seq<int>
    decreases |s|
  {
    if s == [] then [] else if s[0] == p then [p] else [s[0]] + UpTo(s[1..], p)
  }

  ghost function Cut(chain: map<int, seq<int>>, p: int): map<int, seq<int>> {
    map x | x in chain :: UpTo(chain[x], p)
  }

  lemma CutChain(next: Links, chain: map<int, seq<int>>, p: int, x: int)
    requires NULL !in next && p in next && x in next && x in chain && ChainAt(next, chain, x)
    ensures ChainAt(next[p := NULL], Cut(chain, p), x)
  {
    if next[x] != NULL {
      assert chain[x][1..] == chain[next[x]];
    } else {
      assert UpTo([x], p) == [x];
    }
  }

  // Each elementary edit keeps counts equal to pointers.

  lemma RefSound(next: Links, ref: map<int, nat>, held: multiset<int>, chain: map<int, seq<int>>, p: int)
    requires p in next && p in ref && Sound(next, ref, held, chain, NULL)
    ensures Sound(next, ref[p := ref[p] + 1], held[p := held[p] + 1], chain, NULL)
  {
    var ref', held' := ref[p := ref[p] + 1], held[p := held[p] + 1];
    forall r | r in next ensures NodeAt(next, ref', held', chain, NULL, r) {
      assert NodeAt(next, ref, held, chain, NULL, r);
      assert Pointers(next, held', NULL, r) == Pointers(next, held, NULL, r) + if r == p then 1 else 0;
    }
    assert forall r :: r != p ==> held'[r] == held[r];
  }

  lemma GiveUpSound(next: Links, ref: map<int, nat>, held: multiset<int>, chain: map<int, seq<int>>, p: int)
    requires p in held && Sound(next, ref, held, chain, NULL)
    ensures Sound(next, ref, held[p := held[p] - 1], chain, p)
  {
    forall r | r in next ensures NodeAt(next, ref, held[p := held[p] - 1], chain, p, r) {
      assert NodeAt(next, ref, held, chain, NULL, r);
    }
  }

  lemma NewSound(next: Links, ref: map<int, nat>, held: multiset<int>, chain: map<int, seq<int>>, p: int)
    requires p !in next && p != NULL && Sound(next, ref, held, chain, NULL)
    ensures Sound(next[p := NULL], ref[p := 1], held[p := held[p] + 1], chain[p := [p]], NULL)
  {
    var next', ref', held', chain' := next[p := NULL], ref[p := 1], held[p := held[p] + 1], chain[p := [p]];
    forall r | r in next' ensures NodeAt(next', ref', held', chain', NULL, r) {
      PredsWith(next, p, NULL, r);
      if r != p {
        assert NodeAt(next, ref, held, chain, NULL, r);
      } else {
        NoPredsOfDead(next, ref, held, chain, p);
      }
    }
  }

  lemma NoPredsOfDead(next: Links, ref: map<int, nat>, held: multiset<int>, chain: map<int, seq<int>>, p: int)
    requires p !in next && p != NULL && Sound(next, ref, held, chain, NULL)
    ensures Preds(next, p) == {} && held[p] == 0
  {
    forall q | q in next ensures next[q] != p {
      assert NodeAt(next, ref, held, chain, NULL, q);
    }
  }

  lemma ChainsNonempty(next: Links, ref: map<int, nat>, held: multiset<int>, chain: map<int, seq<int>>)
    requires Sound(next, ref, held, chain, NULL)
    ensures forall x :: x in chain ==> chain[x] != []
  {
    forall x | x in chain ensures chain[x] != [] {
      assert NodeAt(next, ref, held, chain, NULL, x);
    }
  }

  lemma LinkNode(next: Links, ref: map<int, nat>, held: multiset<int>, chain: map<int, seq<int>>, last: int, t: int,
                 r: int)
    requires NULL !in next && next.Keys == ref.Keys == chain.Keys && r in next && t in next && last in next
    requires NodeAt(next, ref, held, chain, NULL, r) && NodeAt(next, ref, held, chain, NULL, last)
    requires next[last] == NULL && held[t] > 0
    requires (forall x :: x in chain ==> chain[x] != []) && Tail(chain[t]) != last
    ensures NodeAt(next[last := t], ref, held[t := held[t] - 1], Joined(chain, last, t), NULL, r)
  {
    JoinChain(next, chain, last, t, r);
    PredsWith(next, last, t, r);
  }

  /** Linking takes over the caller's pointer to `t`. */
  lemma LinkSound(next: Links, ref: map<int, nat>, held: multiset<int>, chain: map<int, seq<int>>, last: int, t: int)
    requires Sound(next, ref, held, chain, NULL) && t in held && last in next && next[last] == NULL
    requires (forall x :: x in chain ==> chain[x] != []) && Tail(chain[t]) != last
    ensures Sound(next[last := t], ref, held[t := held[t] - 1], Joined(chain, last, t), NULL)
  {
    var next', held', chain' := next[last := t], held[t := held[t] - 1], Joined(chain, last, t);
    assert NodeAt(next, ref, held, chain, NULL, last);
    assert t in next && next'.Keys == next.Keys;
    assert forall p :: held'[p] > 0 ==> held[p] > 0;
    forall r | r in next' ensures NodeAt(next', ref, held', chain', NULL, r) {
      assert NodeAt(next, ref, held, chain, NULL, r);
      LinkNode(next, ref, held, chain, last, t, r);
    }
  }

  lemma CutNode(next: Links, ref: map<int, nat>, held: multiset<int>, chain: map<int, seq<int>>, p: int, r: int)
    requires NULL !in next && next.Keys == ref.Keys == chain.Keys && r in next && p in next && next[p] != NULL
    requires NodeAt(next, ref, held, chain, NULL, r)
    ensures NodeAt(next[p := NULL], ref, held, Cut(chain, p), next[p], r)
  {
    CutChain(next, chain, p, r);
    PredsCut(next, p, r);
  }

  lemma CutSound(next: Links, ref: map<int, nat>, held: multiset<int>, chain: map<int, seq<int>>, p: int)
    requires Sound(next, ref, held, chain, NULL) && p in next && next[p] != NULL
    ensures Sound(next[p := NULL], ref, held, Cut(chain, p), next[p])
  {
    assert NodeAt(next, ref, held, chain, NULL, p);
    forall r | r in next ensures NodeAt(next[p := NULL], ref, held, Cut(chain, p), next[p], r) {
      assert NodeAt(next, ref, held, chain, NULL, r);
      CutNode(next, ref, held, chain, p, r);
    }
  }

  datatype Bufs = Bufs(next: Links, ref: map<int, nat>)

  /** Give up one pointer to `p`, and from there on down the chain. */
  ghost function Released(b: Bufs, p: int): Bufs
    decreases b.next.Keys
  {
    if p !in b.next || p !in b.ref then b
    else if b.ref[p] == 1 then
      assert p !in (b.next - {p}).Keys;
      Released(Bufs(b.next - {p}, b.ref - {p}), b.next[p])
    else if b.ref[p] > 1 then b.(ref := b.ref[p := b.ref[p] - 1])
    else b
  }

  /** How many pbufs that deallocates. */
  ghost function Freed(b: Bufs, p: int): nat
    decreases b.next.Keys
  {
    if p in b.next && p in b.ref && b.ref[p] == 1 then
      assert p !in (b.next - {p}).Keys;
      1 + Freed(Bufs(b.next - {p}, b.ref - {p}), b.next[p])
    else 0
  }

  /** `k` is the length of the longest prefix of `c` in which every count is one. */
  ghost predicate LongestOnes(ref: map<int, nat>, c: seq<int>, k: nat) {
    && k <= |c|
    && (forall i :: 0 <= i < k ==> c[i] in ref && ref[c[i]] == 1)
    && (k < |c| ==> c[k] in ref && ref[c[k]] > 1)
  }

  /** What giving up a pointer does: exactly the longest prefix of the chain with counts of
      one is deallocated, the pbuf behind it loses one count, and nothing else changes. */
  lemma {:induction false} ReleasedPrefix(b: Bufs, held: multiset<int>, chain: map<int, seq<int>>, p: int)
    requires p in chain && Sound(b.next, b.ref, held, chain, p)
    ensures var c, k, r := chain[p], Freed(b, p), Released(b, p);
            && LongestOnes(b.ref, c, k)
            && (forall x :: x in r.next <==> x in b.next && x !in c[..k])
            && r.ref.Keys == r.next.Keys
            && (forall x :: x in r.next ==> r.next[x] == b.next[x])
            && (forall x :: x in r.next ==>
                  x in b.ref && r.ref[x] == if k < |c| && x == c[k] then b.ref[x] - 1 else b.ref[x])
    decreases b.next.Keys
  {
    var c, k, r := chain[p], Freed(b, p), Released(b, p);
    assert NodeAt(b.next, b.ref, held, chain, p, p);
    if b.ref[p] == 1 {
      ReleaseOne(b.next, b.ref, held, chain, p);
      var b', q := Bufs(b.next - {p}, b.ref - {p}), b.next[p];
      if q != NULL {
        ReleasedPrefix(b', held, chain - {p}, q);
        assert c[..k] == [p] + chain[q][..k - 1];
        assert forall i :: 0 < i < |c| ==> c[i] == chain[q][i - 1];
      } else {
        assert c[..1] == [p];
      }
    } else {
      assert c[..0] == [];
    }
  }

  /** The loop of pbuf_cat that finds the end of a chain. */
  method LastOf(next: Links, h: int, ghost ref: map<int, nat>, ghost held: multiset<int>,
                ghost chain: map<int, seq<int>>)
    returns (last: int)
    requires Sound(next, ref, held, chain, NULL) && h in next
    ensures chain[h] != [] && last == Tail(chain[h]) && last in next && next[last] == NULL
  {
    last := h;
    assert NodeAt(next, ref, held, chain, NULL, h);
    while next[last] != NULL
      invariant last in next && NodeAt(next, ref, held, chain, NULL, last)
      invariant chain[last] != [] && Tail(chain[last]) == Tail(chain[h])
      decreases |chain[last]|
    {
      last := next[last];
      assert NodeAt(next, ref, held, chain, NULL, last);
    }
  }

  /** Follow `n` links. */
  method Nth(next: Links, p: int, n: nat, ghost ref: map<int, nat>, ghost held: multiset<int>,
             ghost chain: map<int, seq<int>>)
    returns (q: int)
    requires Sound(next, ref, held, chain, NULL) && p in next && n < |chain[p]|
    ensures q == chain[p][n] && q in next
  {
    q := p;
    assert NodeAt(next, ref, held, chain, NULL, p);
    for i := 0 to n
      invariant q in next && NodeAt(next, ref, held, chain, NULL, q) && chain[q] == chain[p][i..]
    {
      assert chain[p][i..][1..] == chain[p][i + 1..];
      q := next[q];
      assert NodeAt(next, ref, held, chain, NULL, q);
    }
  }

  class Store {
    var next: Links
    var ref: map<int, nat>
    ghost var held: multiset<int>
    ghost var chain: map<int, seq<int>>

    ghost predicate Valid()
      reads this
    {
      Sound(next, ref, held, chain, NULL)
    }

    constructor ()
      ensures Valid() && next == map[] && held == multiset{}
    {
      next, ref := map[], map[];
      held, chain := multiset{}, map[];
    }

    /** Give up a pointer to `p` that is counted but no longer there. */
    method Release(p: int) returns (count: nat)
      requires p in next && Sound(next, ref, held, chain, p)
      modifies this`next, this`ref, this`chain
      ensures Valid() && Bufs(next, ref) == Released(Bufs(old(next), old(ref)), p)
      ensures count == Freed(Bufs(old(next), old(ref)), p) % 256
    {
      var b;
      b, count, chain := ReleaseChain(Bufs(next, ref), p, held, chain);
      next, ref := b.next, b.ref;
    }

    /** pbuf_free: the caller gives up its pointer to `p`. */
    method Free(p: int) returns (count: nat)
      requires Valid() && (p != NULL ==> p in held)
      modifies this
      ensures Valid()
      ensures if p == NULL then
                count == 0 && next == old(next) && ref == old(ref) && held == old(held)
              else
                && held == old(held)[p := old(held)[p] - 1]
                && Bufs(next, ref) == Released(Bufs(old(next), old(ref)), p)
                && count == Freed(Bufs(old(next), old(ref)), p) % 256
    {
      if p == NULL {
        return 0;
      }
      GiveUpSound(next, ref, held, chain, p);
      held := held[p := held[p] - 1];
      count := Release(p);
    }

    /** pbuf_ref */
    method Ref(p: int)
      requires Valid() && (p != NULL ==> p in next)
      modifies this`ref, this`held
      ensures Valid()
      ensures if p == NULL then ref == old(ref) && held == old(held)
              else p in old(ref) && ref == old(ref)[p := old(ref)[p] + 1] && held == old(held)[p := old(held)[p] + 1]
    {
      if p != NULL {
        RefSound(next, ref, held, chain, p);
        ref := ref[p := ref[p] + 1];
        held := held[p := held[p] + 1];
      }
    }

    /** Put the chain of `t` behind `last`, which takes over a caller's pointer to it. */
    method Link(last: int, t: int)
      requires Valid() && last in next && next[last] == NULL && t in held && t in chain
      requires chain[t] != [] && Tail(chain[t]) != last
      modifies this`next, this`held, this`chain
      ensures Valid() && next == old(next)[last := t] && held == old(held)[t := old(held)[t] - 1]
      ensures chain.Keys == old(chain).Keys
      ensures forall x :: x in chain && old(chain)[x] != [] && Tail(old(chain)[x]) == last ==>
                chain[x] == old(chain)[x] + old(chain)[t]
    {
      ChainsNonempty(next, ref, held, chain);
      LinkSound(next, ref, held, chain, last, t);
      chain := Joined(chain, last, t);
      next := next[last := t];
      held := held[t := held[t] - 1];
    }

    /** pbuf_cat: the pointer to `t` moves from the caller to the last pbuf of `h`'s chain. */
    method Cat(h: int, t: int)
      requires Valid() && h in next && t in held && h in chain && t in chain
      requires chain[h] != [] && chain[t] != [] && Tail(chain[h]) != Tail(chain[t])
      modifies this`next, this`held, this`chain
      ensures Valid() && held == old(held)[t := old(held)[t] - 1]
      ensures next == old(next)[Tail(old(chain)[h]) := t]
      ensures h in chain && chain[h] == old(chain)[h] + old(chain)[t]
    {
      var last := LastOf(next, h, ref, held, chain);
      Link(last, t);
    }

    /** pbuf_chain: like pbuf_cat, but the caller keeps its own pointer to `t`. */
    method Chain(h: int, t: int)
      requires Valid() && h in next && t in held && h in chain && t in chain
      requires chain[h] != [] && chain[t] != [] && Tail(chain[h]) != Tail(chain[t])
      modifies this`next, this`ref, this`held, this`chain
      ensures Valid() && held == old(held)
      ensures next == old(next)[Tail(old(chain)[h]) := t] && t in old(ref) && ref == old(ref)[t := old(ref)[t] + 1]
      ensures h in chain && chain[h] == old(chain)[h] + old(chain)[t]
    {
      Cat(h, t);
      Ref(t);
    }

    /** Unlink the pbufs behind `p` and give up the pointer to them. */
    method CutAfter(p: int) returns (count: nat)
      requires Valid() && p in next && next[p] != NULL
      modifies this`next, this`ref, this`chain
      ensures Valid() && count == Freed(Bufs(old(next)[p := NULL], old(ref)), old(next)[p]) % 256
      ensures Bufs(next, ref) == Released(Bufs(old(next)[p := NULL], old(ref)), old(next)[p])
    {
      var q := next[p];
      CutSound(next, ref, held, chain, p);
      next := next[p := NULL];
      chain := Cut(chain, p);
      count := Release(q);
    }

    /** The link part of pbuf_realloc: keep `keep` pbufs, give up the rest. */
    method Truncate(p: int, keep: nat) returns (ghost q: int)
      requires Valid() && p in next && p in chain && 0 < keep <= |chain[p]|
      modifies this`next, this`ref, this`chain
      ensures Valid() && q == old(chain)[p][keep - 1] && q in old(next)
      ensures Bufs(next, ref) == if old(next)[q] == NULL then Bufs(old(next), old(ref))
                                 else Released(Bufs(old(next)[q := NULL], old(ref)), old(next)[q])
    {
      var last := Nth(next, p, keep - 1, ref, held, chain);
      q := last;
      if next[last] != NULL {
        var _ := CutAfter(last);
      }
    }

    /** pbuf_alloc of a single pbuf: one pointer, the caller's. */
    method Alloc(p: int)
      requires Valid() && p !in next && p != NULL
      modifies this
      ensures Valid() && next == old(next)[p := NULL] && ref == old(ref)[p := 1]
      ensures held == old(held)[p := old(held)[p] + 1] && chain == old(chain)[p := [p]]
    {
      NewSound(next, ref, held, chain, p);
      held := held[p := held[p] + 1];
      next, ref, chain := next[p := NULL], ref[p := 1], chain[p := [p]];
    }

    /** pbuf_dechain: the rest of the chain, or NULL.  `k` pbufs are deallocated, the longest
        prefix of the rest with counts of one; the 8-bit count makes the result a dangling
        pointer exactly when `k` is a positive multiple of 256. */
    method Dechain(p: int) returns (tail: int, ghost k: nat)
      requires Valid() && p in next
      modifies this`next, this`ref, this`chain
      ensures Valid()
      ensures old(next)[p] == NULL ==> tail == NULL && next == old(next) && ref == old(ref)
      ensures old(next)[p] != NULL ==>
                var q := old(next)[p];
                && q in old(chain) && LongestOnes(old(ref), old(chain)[q], k)
                && Bufs(next, ref) == Released(Bufs(old(next)[p := NULL], old(ref)), q)
                && tail == (if k % 256 == 0 then q else NULL)
                && (tail != NULL ==> (tail in next <==> k == 0))
    {
      var q := next[p];
      tail, k := NULL, 0;
      if q != NULL {
        ghost var b := Bufs(next[p := NULL], ref);
        CutSound(next, ref, held, chain, p);
        CutFreed(next, ref, held, chain, p);
        FreedHeadGone(b, q);
        k := Freed(b, q);
        var gone := CutAfter(p);
        tail := if gone > 0 then NULL else q;
      }
    }

    /** pbuf_alloc from the pool: a chain of `n` pbufs.  `got` is what the pool can give in
        turn; if that is too little, what was taken is freed and nothing has changed. */
    method AllocPool(got: seq<int>, n: nat) returns (p: int)
      requires Valid() && n > 0 && Fresh(next, got)
      modifies this
      ensures Valid()
      ensures |got| < n ==> p == NULL && next == old(next) && ref == old(ref) && held == old(held)
      ensures |got| >= n ==>
                && p == got[0] && p in chain && chain[p] == got[..n]
                && held == old(held)[p := old(held)[p] + 1]
                && Built(old(next), old(ref), next, ref, got, n)
    {
      if got == [] {
        return NULL;
      }
      ghost var next0, ref0, held0 := next, ref, held;
      p := got[0];
      NoPredsOfDead(next, ref, held, chain, p);
      Alloc(p);
      var i := 1;
      assert got[..1] == [p];
      while i < n
        invariant 1 <= i <= n && i <= |got| && Valid() && p in chain && chain[p] == got[..i]
        invariant Built(next0, ref0, next, ref, got, i) && held == held0[p := 1]
      {
        if i == |got| {
          assert got[..i] == got;
          Undo(got, next0, ref0, held0);
          return NULL;
        }
        Extend(got, i, p, next0, ref0);
        i := i + 1;
      }
    }

    /** The pool is empty: give back the chain built so far. */
    method Undo(got: seq<int>, ghost next0: Links, ghost ref0: map<int, nat>, ghost held0: multiset<int>)
      requires Valid() && got != [] && Fresh(next0, got) && Built(next0, ref0, next, ref, got, |got|)
      requires got[0] in chain && chain[got[0]] == got && held0[got[0]] == 0 && held == held0[got[0] := 1]
      modifies this
      ensures Valid() && next == next0 && ref == ref0 && held == held0
    {
      BuiltFreed(next0, ref0, next, ref, held, chain, got);
      var _ := Free(got[0]);
      assert held == held0;
    }

    /** One more pbuf behind the `i` taken so far. */
    method Extend(got: seq<int>, i: nat, ghost p: int, ghost next0: Links, ghost ref0: map<int, nat>)
      requires Valid() && Fresh(next0, got) && 0 < i < |got| && Built(next0, ref0, next, ref, got, i)
      requires p in chain && chain[p] == got[..i]
      modifies this
      ensures Valid() && Built(next0, ref0, next, ref, got, i + 1) && held == old(held)
      ensures p in chain && chain[p] == got[..i + 1]
    {
      var last, q := got[i - 1], got[i];
      assert got[..i + 1] == got[..i] + [q] && Tail(chain[p]) == last;
      assert q !in next;
      NoPredsOfDead(next, ref, held, chain, q);
      Alloc(q);
      Link(last, q);
      BuiltMore(next0, ref0, old(next), old(ref), got, i);
      assert held == old(held);
    }
  }

  /** Distinct addresses of pbufs that are not live. */
  ghost predicate Fresh(next: Links, got: seq<int>) {
    && (forall i :: 0 <= i < |got| ==> got[i] !in next && got[i] != NULL)
    && (forall i, j :: 0 <= i < j < |got| ==> got[i] != got[j])
  }

  /** The first `n` of `got` are a new chain with counts of one; the old pbufs are as before. */
  ghost predicate Built(next0: Links, ref0: map<int, nat>, next: Links, ref: map<int, nat>, got: seq<int>, n: nat) {
    && n <= |got| && next.Keys == ref.Keys && next0.Keys == ref0.Keys
    && (forall x :: x in next <==> x in next0 || x in got[..n])
    && (forall x :: x in next0 ==> x in next && next[x] == next0[x] && ref[x] == ref0[x])
    && (forall i :: 0 <= i < n ==> got[i] in next && ref[got[i]] == 1)
    && (n > 0 ==> got[n - 1] in next && next[got[n - 1]] == NULL)
  }

  lemma BuiltMore(next0: Links, ref0: map<int, nat>, next: Links, ref: map<int, nat>, got: seq<int>, i: nat)
    requires Fresh(next0, got) && 0 < i < |got| && Built(next0, ref0, next, ref, got, i)
    ensures Built(next0, ref0, next[got[i] := NULL][got[i - 1] := got[i]], ref[got[i] := 1], got, i + 1)
  {
    assert got[..i + 1] == got[..i] + [got[i]];
    assert got[i - 1] !in next0;
  }

  /** Freeing a partly built chain restores what was there. */
  lemma BuiltFreed(next0: Links, ref0: map<int, nat>, next: Links, ref: map<int, nat>,
                   held: multiset<int>, chain: map<int, seq<int>>, got: seq<int>)
    requires got != [] && Fresh(next0, got) && Built(next0, ref0, next, ref, got, |got|)
    requires Sound(next, ref, held, chain, NULL) && got[0] in held && got[0] in chain && chain[got[0]] == got
    ensures Released(Bufs(next, ref), got[0]) == Bufs(next0, ref0)
  {
    var p, b := got[0], Bufs(next, ref);
    GiveUpSound(next, ref, held, chain, p);
    ReleasedPrefix(b, held[p := held[p] - 1], chain, p);
    assert got[..|got|] == got;
    var r := Released(b, p);
    assert Freed(b, p) == |got|;
    assert forall x :: x in next0 ==> x !in got;
    assert forall x :: x in r.next <==> x in next0;
    assert r.next.Keys == next0.Keys && r.ref.Keys == ref0.Keys;
    forall x | x in next0 ensures r.next[x] == next0[x] && r.ref[x] == ref0[x] {
      assert x in next && x in r.next;
    }
    assert r.next == next0 && r.ref == ref0;
  }

  // Chains in detail.

  /** The chain of a pbuf on the way is the rest of the chain. */
  lemma {:induction false} ChainFrom(next: Links, chain: map<int, seq<int>>, x: int, i: nat)
    requires next.Keys == chain.Keys && (forall y :: y in next ==> ChainAt(next, chain, y))
    requires x in chain && i < |chain[x]|
    ensures chain[x][i] in chain && chain[chain[x][i]] == chain[x][i..]
    decreases i
  {
    assert ChainAt(next, chain, x);
    if i > 0 {
      ChainFrom(next, chain, next[x], i - 1);
    }
  }

  lemma {:induction false} UpToAll(s: seq<int>, p: int)
    requires p !in s
    ensures UpTo(s, p) == s
    decreases |s|
  {
    if s != [] {
      UpToAll(s[1..], p);
    }
  }

  lemma ChainsHold(next: Links, ref: map<int, nat>, held: multiset<int>, chain: map<int, seq<int>>, dropped: int)
    requires Sound(next, ref, held, chain, dropped)
    ensures forall y :: y in next ==> ChainAt(next, chain, y)
  {
    forall y | y in next ensures ChainAt(next, chain, y) {
      assert NodeAt(next, ref, held, chain, dropped, y);
    }
  }

  /** Cutting behind `p` frees the longest prefix of ones of what followed it. */
  lemma CutFreed(next: Links, ref: map<int, nat>, held: multiset<int>, chain: map<int, seq<int>>, p: int)
    requires Sound(next, ref, held, chain, NULL) && p in next && next[p] != NULL
    ensures next[p] in next && next[p] in chain && next[p] in ref
    ensures LongestOnes(ref, chain[next[p]], Freed(Bufs(next[p := NULL], ref), next[p]))
  {
    ChainsHold(next, ref, held, chain, NULL);
    assert ChainAt(next, chain, p);
    var q := next[p];
    if p in chain[q] {
      var i :| 0 <= i < |chain[q]| && chain[q][i] == p;
      ChainFrom(next, chain, q, i);
    }
    UpToAll(chain[q], p);
    CutSound(next, ref, held, chain, p);
    ReleasedPrefix(Bufs(next[p := NULL], ref), held, Cut(chain, p), q);
  }

  /** Linking two chains that end in the same pbuf would make a cycle, whatever the counts: no
      chains could be spelled out any more. */
  lemma SharedTailCycles(next: Links, chain: map<int, seq<int>>, t: int, next': Links, chain': map<int, seq<int>>)
    requires NULL !in next && next.Keys == chain.Keys && (forall y :: y in next ==> ChainAt(next, chain, y))
    requires t in chain && chain[t] != [] && next' == next[Tail(chain[t]) := t] && next'.Keys == chain'.Keys
    ensures exists y :: y in next' && !ChainAt(next', chain', y)
  {
    if forall y :: y in next' ==> ChainAt(next', chain', y) {
      var n := |chain[t]| - 1;
      Descends(next, chain, t, next', chain', n);
    }
  }

  lemma {:induction false} Descends(next: Links, chain: map<int, seq<int>>, t: int, next': Links,
                                    chain': map<int, seq<int>>, i: nat)
    requires NULL !in next && next.Keys == chain.Keys && (forall y :: y in next ==> ChainAt(next, chain, y))
    requires t in chain && chain[t] != [] && next' == next[Tail(chain[t]) := t] && next'.Keys == chain'.Keys
    requires forall y :: y in next' ==> ChainAt(next', chain', y)
    requires i < |chain[t]|
    ensures chain[t][i] in chain' && t in chain' && |chain'[chain[t][i]]| == |chain'[t]| - i
    decreases i
  {
    if i > 0 {
      Descends(next, chain, t, next', chain', i - 1);
      ChainFrom(next, chain, t, i - 1);
      var x := chain[t][i - 1];
      assert ChainAt(next, chain, x) && ChainAt(next', chain', x);
      assert next[x] == chain[t][i];
    }
  }

  // A chain long enough for the count to come round to zero.

  ghost function Down(n: nat): seq<int> {
    seq(n, i => n - i)
  }

  /** The pbufs 1 to n, each linked to the one below, with counts of one. */
  ghost predicate Row(next: Links, ref: map<int, nat>, held: multiset<int>, chain: map<int, seq<int>>, n: nat) {
    && (forall x :: x in next <==> 1 <= x <= n) && (forall x :: x in ref ==> ref[x] == 1)
    && n in held && n in chain && chain[n] == Down(n) && n in next
    && next[n] == n - 1
  }

  method Grow(s: Store, i: nat)
    requires s.Valid() && Row(s.next, s.ref, s.held, s.chain, i) && 0 < i
    modifies s
    ensures s.Valid() && Row(s.next, s.ref, s.held, s.chain, i + 1)
  {
    s.Alloc(i + 1);
    assert Tail(Down(i)) == 1 && [i + 1] + Down(i) == Down(i + 1);
    s.Cat(i + 1, i);
  }

  lemma RowBelow(next: Links, ref: map<int, nat>, held: multiset<int>, chain: map<int, seq<int>>, n: nat, k: nat)
    requires Sound(next, ref, held, chain, NULL) && Row(next, ref, held, chain, n) && n > 1
    ensures n - 1 in chain && chain[n - 1] == Down(n - 1)
    ensures LongestOnes(ref, chain[n - 1], k) ==> k == n - 1
  {
    assert NodeAt(next, ref, held, chain, NULL, n);
    assert chain[n][1..] == chain[n - 1];
    assert Down(n)[1..] == Down(n - 1);
  }

  /** Taking the first pbuf off a chain of 257 deallocates the other 256, and returns a pointer
      to the first of them. */
  method DanglingRun() returns (s: Store, tail: int)
    ensures fresh(s) && s.Valid() && tail != NULL && tail !in s.next
  {
    s := new Store();
    s.Alloc(1);
    var i := 1;
    assert Down(1) == [1];
    while i < 257
      invariant 1 <= i <= 257 && fresh(s) && s.Valid() && Row(s.next, s.ref, s.held, s.chain, i)
    {
      Grow(s, i);
      i := i + 1;
    }
    ghost var next, ref, held, chain, k := s.next, s.ref, s.held, s.chain, 0;
    tail, k := s.Dechain(257);
    RowBelow(next, ref, held, chain, 257, k);
  }

  lemma FreedHeadGone(b: Bufs, q: int)
    requires q in b.next && q in b.ref
    ensures q in Released(b, q).next <==> Freed(b, q) == 0
  {
    if b.ref[q] == 1 {
      ReleasedOnlyShrinks(Bufs(b.next - {q}, b.ref - {q}), b.next[q]);
    }
  }

  lemma {:induction false} ReleasedOnlyShrinks(b: Bufs, p: int)
    ensures Released(b, p).next.Keys <= b.next.Keys
    decreases b.next.Keys
  {
    if p in b.next && p in b.ref && b.ref[p] == 1 {
      assert p !in (b.next - {p}).Keys;
      ReleasedOnlyShrinks(Bufs(b.next - {p}, b.ref - {p}), b.next[p]);
    }
  }

  lemma ReleasedUnfold(b: Bufs, p: int)
    requires p in b.next && p in b.ref && b.ref[p] >= 1
    ensures b.ref[p] == 1 ==>
              var b' := Bufs(b.next - {p}, b.ref - {p});
              Released(b, p) == Released(b', b.next[p]) && Freed(b, p) == 1 + Freed(b', b.next[p])
    ensures b.ref[p] > 1 ==> Released(b, p) == b.(ref := b.ref[p := b.ref[p] - 1]) && Freed(b, p) == 0
  {
  }

  lemma ReleasedNull(b: Bufs)
    requires NULL !in b.next
    ensures Released(b, NULL) == b && Freed(b, NULL) == 0
  {
  }

  /** The loop of pbuf_free: deallocate from the head of the chain while counts reach zero.
      The returned count is 8 bits wide. */
  method ReleaseChain(b0: Bufs, p0: int, ghost held: multiset<int>, ghost chain0: map<int, seq<int>>)
    returns (b: Bufs, count: nat, ghost chain: map<int, seq<int>>)
    requires p0 in b0.next && Sound(b0.next, b0.ref, held, chain0, p0)
    ensures Sound(b.next, b.ref, held, chain, NULL)
    ensures b == Released(b0, p0) && count == Freed(b0, p0) % 256
  {
    var p := p0;
    b, count, chain := b0, 0, chain0;
    ghost var freed := 0;
    while p != NULL
      invariant Sound(b.next, b.ref, held, chain, p) && count == freed % 256
      invariant Released(b0, p0) == Released(b, p) && Freed(b0, p0) == freed + Freed(b, p)
      decreases b.next.Keys
    {
      assert NodeAt(b.next, b.ref, held, chain, p, p);
      ReleasedUnfold(b, p);
      if b.ref[p] > 1 {
        ReleaseStops(b.next, b.ref, held, chain, p);
        b := b.(ref := b.ref[p := b.ref[p] - 1]);
        return;
      }
      ReleaseOne(b.next, b.ref, held, chain, p);
      var q := b.next[p];
      assert p !in (b.next - {p}).Keys;
      b, chain := Bufs(b.next - {p}, b.ref - {p}), chain - {p};
      count, freed := (count + 1) % 256, freed + 1;
      p := q;
    }
    ReleasedNull(b);
  }
}
