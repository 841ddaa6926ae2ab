/** The partially ordered tree (pot.c): a fixed-capacity binary min-heap of
    references to timer slots, stored 0-based in an array and navigated with
    1-based indices (the children of node i are 2i and 2i + 1). The tree keeps
    references only; the keys are the slots' next_cc_value fields, looked up in
    the slot pool that every operation receives. */
module Pot {
  import opened Base
  import opened PotElement

  /** An entry of p_elements: NULL or a pointer to slot `slot` of the pool. */
  datatype Ref = Null | Elem(slot: nat)

  /** The slot an entry points to (a zeroed slot for entries outside the pool). */
  function SlotOf(pool: seq<Slot>, r: Ref): Slot
  {
    if r.Elem? && r.slot < |pool| then pool[r.slot] else ZeroSlot
  }

  function Key(pool: seq<Slot>, r: Ref): nat
  {
    SlotOf(pool, r).nextCc
  }

  /** The order pot_compare_elems decides: a may precede b. */
  predicate Le(pool: seq<Slot>, a: Ref, b: Ref)
  {
    Key(pool, a) <= Key(pool, b)
  }

  /** pot_compare_elems(a, b) == 1 exactly when a may precede b. */
  lemma CompareIsLe(pool: seq<Slot>, a: Ref, b: Ref)
    ensures Compare(SlotOf(pool, a), SlotOf(pool, b)) == 1 <==> Le(pool, a, b)
  {
  }

  function Swap(s: seq<Ref>, a: nat, b: nat): (r: seq<Ref>)
    requires a < |s| && b < |s|
    ensures |r| == |s|
  {
    s[a := s[b]][b := s[a]]
  }

  lemma SwapFacts(s: seq<Ref>, a: nat, b: nat)
    requires a < |s| && b < |s|
    ensures multiset(Swap(s, a, b)) == multiset(s)
    ensures forall k :: 0 <= k < |s| && k != a && k != b ==> Swap(s, a, b)[k] == s[k]
  {
  }

  /** rebase_push(i) on the array contents s: while the entry at 1-based index i
      may precede its parent's, swap the two and continue from the parent. */
  function SiftUp(s: seq<Ref>, i: nat, pool: seq<Slot>): (r: seq<Ref>)
    requires i <= |s|
    ensures |r| == |s|
    decreases i
  {
    if i <= 1 then s
    else if Le(pool, s[i - 1], s[i / 2 - 1]) then SiftUp(Swap(s, i / 2 - 1, i - 1), i / 2, pool)
    else s
  }

  /** rebase_push permutes the entries and leaves those from index i on alone. */
  lemma {:induction false} SiftUpFacts(s: seq<Ref>, i: nat, pool: seq<Slot>)
    requires i <= |s|
    ensures multiset(SiftUp(s, i, pool)) == multiset(s)
    ensures forall k :: i <= k < |s| ==> SiftUp(s, i, pool)[k] == s[k]
    decreases i
  {
    if 1 < i && Le(pool, s[i - 1], s[i / 2 - 1]) {
      SwapFacts(s, i / 2 - 1, i - 1);
      SiftUpFacts(Swap(s, i / 2 - 1, i - 1), i / 2, pool);
    }
  }

  /** rebase_push only ever moves the entry at index i - 1 into the root. */
  lemma {:induction false} SiftUpRoot(s: seq<Ref>, i: nat, pool: seq<Slot>)
    requires 1 <= i <= |s|
    ensures SiftUp(s, i, pool)[0] == s[0] || SiftUp(s, i, pool)[0] == s[i - 1]
    decreases i
  {
    if 1 < i && Le(pool, s[i - 1], s[i / 2 - 1]) {
      var t := Swap(s, i / 2 - 1, i - 1);
      SiftUpRoot(t, i / 2, pool);
      SwapFacts(s, i / 2 - 1, i - 1);
      if i / 2 - 1 > 0 {
        assert t[0] == s[0];
      }
    }
  }

  /** rebase_pop(i) on the array contents s with w entries in use. A node is
      looked at only when BOTH of its children are in use; the left child is
      compared first, then the right one, and after a swap with the right child
      the left one is compared again. */
  function SiftDown(s: seq<Ref>, w: nat, i: nat, pool: seq<Slot>): (r: seq<Ref>)
    requires 1 <= i && w <= |s|
    ensures |r| == |s|
    decreases w + 1 - i, 2
  {
    if i > w then s
    else if 2 * i - 1 >= w || 2 * i >= w then s
    else RightStep(LeftStep(s, w, i, pool), w, i, pool)
  }

  /** The left-child step of rebase_pop(i): swap with the left child when it may
      precede the node, and continue from the left child. */
  function LeftStep(s: seq<Ref>, w: nat, i: nat, pool: seq<Slot>): (r: seq<Ref>)
    requires 1 <= i && 2 * i < w <= |s|
    ensures |r| == |s|
    decreases w + 1 - i, 0
  {
    if Le(pool, s[2 * i - 1], s[i - 1]) then SiftDown(Swap(s, i - 1, 2 * i - 1), w, 2 * i, pool) else s
  }

  /** The right-child step of rebase_pop(i): swap with the right child when it
      may precede the node, continue from the right child, then repeat the
      left-child step. */
  function RightStep(s: seq<Ref>, w: nat, i: nat, pool: seq<Slot>): (r: seq<Ref>)
    requires 1 <= i && 2 * i < w <= |s|
    ensures |r| == |s|
    decreases w + 1 - i, 1
  {
    if Le(pool, s[2 * i], s[i - 1]) then LeftStep(SiftDown(Swap(s, i - 1, 2 * i), w, 2 * i + 1, pool), w, i, pool) else s
  }

  /** Entries outside [lo, w) agree. */
  ghost predicate SameOutside(r: seq<Ref>, s: seq<Ref>, lo: nat, w: nat)
    requires |r| == |s|
  {
    forall k :: 0 <= k < |s| && (k < lo || w <= k) ==> r[k] == s[k]
  }

  /** rebase_pop permutes the entries and touches only indices from i - 1 below w. */
  lemma {:induction false} SiftDownFacts(s: seq<Ref>, w: nat, i: nat, pool: seq<Slot>)
    requires 1 <= i && w <= |s|
    ensures multiset(SiftDown(s, w, i, pool)) == multiset(s)
    ensures SameOutside(SiftDown(s, w, i, pool), s, i - 1, w)
    decreases w + 1 - i, 2
  {
    if i <= w && 2 * i - 1 < w && 2 * i < w {
      LeftStepFacts(s, w, i, pool);
      RightStepFacts(LeftStep(s, w, i, pool), w, i, pool);
    }
  }

  lemma {:induction false} LeftStepFacts(s: seq<Ref>, w: nat, i: nat, pool: seq<Slot>)
    requires 1 <= i && 2 * i < w <= |s|
    ensures multiset(LeftStep(s, w, i, pool)) == multiset(s)
    ensures SameOutside(LeftStep(s, w, i, pool), s, i - 1, w)
    decreases w + 1 - i, 0
  {
    if Le(pool, s[2 * i - 1], s[i - 1]) {
      SwapFacts(s, i - 1, 2 * i - 1);
      SiftDownFacts(Swap(s, i - 1, 2 * i - 1), w, 2 * i, pool);
    }
  }

  lemma {:induction false} RightStepFacts(s: seq<Ref>, w: nat, i: nat, pool: seq<Slot>)
    requires 1 <= i && 2 * i < w <= |s|
    ensures multiset(RightStep(s, w, i, pool)) == multiset(s)
    ensures SameOutside(RightStep(s, w, i, pool), s, i - 1, w)
    decreases w + 1 - i, 1
  {
    if Le(pool, s[2 * i], s[i - 1]) {
      var t := Swap(s, i - 1, 2 * i);
      SwapFacts(s, i - 1, 2 * i);
      SiftDownFacts(t, w, 2 * i + 1, pool);
      LeftStepFacts(SiftDown(t, w, 2 * i + 1, pool), w, i, pool);
    }
  }

  /** The array contents after pot_remove found the element at index f: the
      last entry moves to index f, its old place is nulled, and rebase_pop runs
      from f + 1. */
  function RemoveResult(s: seq<Ref>, w: nat, f: nat, pool: seq<Slot>): (r: seq<Ref>)
    requires f < w <= |s|
    ensures |r| == |s|
  {
    SiftDown(s[f := s[w - 1]][w - 1 := Null], w - 1, f + 1, pool)
  }

  /** The array contents after pot_pop: the removal of the root. */
  function PopResult(s: seq<Ref>, w: nat, pool: seq<Slot>): (r: seq<Ref>)
    requires 0 < w <= |s|
    ensures |r| == |s|
  {
    RemoveResult(s, w, 0, pool)
  }

  /** The first n entries are in use and those from n to m are NULL. */
  ghost predicate Packed(s: seq<Ref>, n: nat, m: nat)
    requires n <= m <= |s|
  {
    (forall k :: 0 <= k < n ==> s[k] != Null) && (forall k :: n <= k < m ==> s[k] == Null)
  }

  /** Appending x and sifting up keeps the entries packed and adds x to them. */
  lemma PushFacts(s: seq<Ref>, w: nat, m: nat, x: Ref, pool: seq<Slot>)
    requires w < m <= |s| && x != Null && Packed(s, w, m)
    ensures var r := SiftUp(s[w := x], w + 1, pool);
            Packed(r, w + 1, m) && multiset(r[..w + 1]) == multiset(s[..w]) + multiset{x} &&
            (r[0] == x || (w > 0 && r[0] == s[0]))
  {
    var t := s[w := x];
    var r := SiftUp(t, w + 1, pool);
    AppendedPacked(s, w, m, x);
    SiftUpFacts(t, w + 1, pool);
    PrefixPermutation(r, t, w + 1);
    PermutedPacked(r, t, w + 1, m);
    SiftUpRoot(t, w + 1, pool);
  }

  /** Writing x just past the entries in use adds one packed entry. */
  lemma AppendedPacked(s: seq<Ref>, w: nat, m: nat, x: Ref)
    requires w < m <= |s| && x != Null && Packed(s, w, m)
    ensures Packed(s[w := x], w + 1, m) && multiset(s[w := x][..w + 1]) == multiset(s[..w]) + multiset{x}
  {
    assert s[w := x][..w + 1] == s[..w] + [x];
  }

  /** Permuting the packed prefix and keeping the rest keeps the entries packed. */
  lemma PermutedPacked(r: seq<Ref>, t: seq<Ref>, n: nat, m: nat)
    requires n <= m <= |t| && |r| == |t| && Packed(t, n, m)
    requires multiset(r[..n]) == multiset(t[..n])
    requires forall k :: n <= k < |t| ==> r[k] == t[k]
    ensures Packed(r, n, m)
  {
    NullFreePermutation(r, t, n);
  }

  /** Moving the last entry to f and sifting down keeps the entries packed and
      takes s[f] out of them. */
  lemma RemoveFacts(s: seq<Ref>, w: nat, m: nat, f: nat, pool: seq<Slot>)
    requires f < w <= m <= |s| && Packed(s, w, m)
    ensures var r := RemoveResult(s, w, f, pool);
            Packed(r, w - 1, m) && multiset(r[..w - 1]) == multiset(s[..w]) - multiset{s[f]}
  {
    var t: seq<Ref> := s[f := s[w - 1]][w - 1 := Null];
    MovedPacked(s, w, m, f);
    RemovedPrefix(s, w, f);
    SiftDownPacked(t, w - 1, m, f + 1, pool);
    var r := SiftDown(t, w - 1, f + 1, pool);
    assert r == RemoveResult(s, w, f, pool);
    assert multiset(r[..w - 1]) == multiset(t[..w - 1]);
  }

  /** Moving the last entry to f leaves w - 1 packed entries. */
  lemma MovedPacked(s: seq<Ref>, w: nat, m: nat, f: nat)
    requires f < w <= m <= |s| && Packed(s, w, m)
    ensures Packed(s[f := s[w - 1]][w - 1 := Null], w - 1, m)
  {
  }

  /** rebase_pop keeps the entries packed and permutes the prefix in use. */
  lemma SiftDownPacked(t: seq<Ref>, n: nat, m: nat, i: nat, pool: seq<Slot>)
    requires 1 <= i && n <= m <= |t| && Packed(t, n, m)
    ensures Packed(SiftDown(t, n, i, pool), n, m)
    ensures multiset(SiftDown(t, n, i, pool)[..n]) == multiset(t[..n])
  {
    var r := SiftDown(t, n, i, pool);
    SiftDownFacts(t, n, i, pool);
    PrefixPermutation(r, t, n);
    PermutedPacked(r, t, n, m);
  }

  /** The first match of a scan over the first m entries lies among the w in
      use, and is the first occurrence there. */
  lemma FoundInPrefix(s: seq<Ref>, w: nat, m: nat, i: nat, x: Ref)
    requires w <= m <= |s| && Packed(s, w, m) && x != Null
    requires i < m && s[i] == x && forall k :: 0 <= k < i ==> s[k] != x
    ensures i < w && IndexOf(s[..w], x) == i && x in s[..w]
  {
    assert s[..w][i] == x;
  }

  /** A scan over the first m entries that finds nothing: x is not in use. */
  lemma NotInPrefix(s: seq<Ref>, w: nat, m: nat, x: Ref)
    requires w <= m <= |s| && forall k :: 0 <= k < m ==> s[k] != x
    ensures x !in s[..w]
  {
    forall k | 0 <= k < w ensures s[..w][k] != x {
      assert s[k] != x;
    }
  }

  /** A permutation of a NULL-free prefix is NULL-free. */
  lemma NullFreePermutation(r: seq<Ref>, t: seq<Ref>, n: nat)
    requires n <= |r| && n <= |t| && multiset(r[..n]) == multiset(t[..n])
    requires forall k :: 0 <= k < n ==> t[k] != Null
    ensures forall k :: 0 <= k < n ==> r[k] != Null
  {
    assert Null !in multiset(t[..n]);
    forall k | 0 <= k < n ensures r[k] != Null {
      assert r[k] in multiset(r[..n]);
    }
  }

  /** The prefix left after moving the last entry to f: s[..w] without s[f]. */
  lemma RemovedPrefix(s: seq<Ref>, w: nat, f: nat)
    requires f < w <= |s|
    ensures multiset(s[f := s[w - 1]][w - 1 := Null][..w - 1]) == multiset(s[..w]) - multiset{s[f]}
  {
    var t := s[f := s[w - 1]][w - 1 := Null];
    assert s[..w] == s[..f] + [s[f]] + s[f + 1..w];
    if f < w - 1 {
      assert s[f + 1..w] == s[f + 1..w - 1] + [s[w - 1]];
      assert t[..w - 1] == s[..f] + [s[w - 1]] + s[f + 1..w - 1];
    } else {
      assert t[..w - 1] == s[..f];
    }
  }

  /** The first index of x in s, or |s| when x does not occur. */
  function IndexOf(s: seq<Ref>, x: Ref): (f: nat)
    ensures f <= |s|
    ensures f < |s| ==> s[f] == x
    ensures forall k :: 0 <= k < f ==> s[k] != x
    ensures f < |s| <==> x in s
  {
    if s == [] then 0 else if s[0] == x then 0 else 1 + IndexOf(s[1..], x)
  }

  /** The parent of 0-based index j may precede j. */
  ghost predicate EdgeOk(pool: seq<Slot>, s: seq<Ref>, j: nat)
    requires 0 < j < |s|
  {
    Le(pool, s[(j - 1) / 2], s[j])
  }

  /** Heap order over the first n entries: no entry precedes its parent strictly. */
  ghost predicate HeapOrdered(pool: seq<Slot>, s: seq<Ref>, n: nat)
    requires n <= |s|
  {
    forall j :: 0 < j < n ==> EdgeOk(pool, s, j)
  }

  /** In a heap-ordered tree the root has the least key among the first n entries. */
  lemma {:induction false} RootIsMinimum(pool: seq<Slot>, s: seq<Ref>, n: nat, k: nat)
    requires n <= |s| && HeapOrdered(pool, s, n) && k < n
    ensures Key(pool, s[0]) <= Key(pool, s[k])
    decreases k
  {
    if k > 0 {
      RootIsMinimum(pool, s, n, (k - 1) / 2);
      assert EdgeOk(pool, s, k);
    }
  }

  /** Heap order holds everywhere except on the edge above 0-based index c. */
  ghost predicate HeapExcept(pool: seq<Slot>, s: seq<Ref>, n: nat, c: nat)
    requires n <= |s|
  {
    forall j :: 0 < j < n && j != c ==> EdgeOk(pool, s, j)
  }

  /** The parent of c may precede child j of c. */
  ghost predicate GrandEdgeOk(pool: seq<Slot>, s: seq<Ref>, c: nat, j: nat)
    requires 0 < c < |s| && j < |s|
  {
    Le(pool, s[(c - 1) / 2], s[j])
  }

  /** The parent of c may precede the children of c. */
  ghost predicate ParentBelowChildren(pool: seq<Slot>, s: seq<Ref>, n: nat, c: nat)
    requires n <= |s| && c < n
  {
    c > 0 ==> forall j :: 0 < j < n && (j - 1) / 2 == c ==> GrandEdgeOk(pool, s, c, j)
  }

  /** One swap of rebase_push moves the break in heap order one level up. */
  lemma SiftUpStep(pool: seq<Slot>, s: seq<Ref>, n: nat, i: nat)
    requires 2 <= i <= n <= |s|
    requires HeapExcept(pool, s, n, i - 1) && ParentBelowChildren(pool, s, n, i - 1)
    requires Le(pool, s[i - 1], s[i / 2 - 1])
    ensures HeapExcept(pool, Swap(s, i / 2 - 1, i - 1), n, i / 2 - 1)
    ensures ParentBelowChildren(pool, Swap(s, i / 2 - 1, i - 1), n, i / 2 - 1)
  {
    var c, p := i - 1, i / 2 - 1;
    var t := Swap(s, p, c);
    assert (c - 1) / 2 == p;
    forall j | 0 < j < n && j != p ensures EdgeOk(pool, t, j) {
      var q := (j - 1) / 2;
      if j == c {
        assert t[q] == s[c] && t[j] == s[p];
      } else if q == c {
        assert GrandEdgeOk(pool, s, c, j);
        assert t[q] == s[p] && t[j] == s[j];
      } else if q == p {
        assert EdgeOk(pool, s, j);
        assert t[q] == s[c] && t[j] == s[j];
      } else {
        assert EdgeOk(pool, s, j);
        assert t[q] == s[q] && t[j] == s[j];
      }
    }
    if p > 0 {
      var g := (p - 1) / 2;
      assert EdgeOk(pool, s, p);
      assert t[g] == s[g];
      forall j | 0 < j < n && (j - 1) / 2 == p ensures GrandEdgeOk(pool, t, p, j) {
        if j == c {
          assert t[j] == s[p];
        } else {
          assert EdgeOk(pool, s, j);
          assert t[j] == s[j];
        }
      }
    }
  }

  /** rebase_push restores heap order when the only break is above the moving entry. */
  lemma {:induction false} SiftUpRestores(pool: seq<Slot>, s: seq<Ref>, n: nat, i: nat)
    requires 1 <= i <= n <= |s|
    requires HeapExcept(pool, s, n, i - 1) && ParentBelowChildren(pool, s, n, i - 1)
    ensures HeapOrdered(pool, SiftUp(s, i, pool), n)
    decreases i
  {
    if i <= 1 {
      assert SiftUp(s, i, pool) == s;
    } else if Le(pool, s[i - 1], s[i / 2 - 1]) {
      SiftUpStep(pool, s, n, i);
      SiftUpRestores(pool, Swap(s, i / 2 - 1, i - 1), n, i / 2);
    } else {
      assert SiftUp(s, i, pool) == s;
      assert EdgeOk(pool, s, i - 1);
    }
  }

  /** pot_push keeps a heap-ordered tree heap-ordered. */
  lemma PushKeepsHeapOrder(pool: seq<Slot>, s: seq<Ref>, w: nat, x: Ref)
    requires w < |s| && HeapOrdered(pool, s, w)
    ensures HeapOrdered(pool, SiftUp(s[w := x], w + 1, pool), w + 1)
  {
    var t := s[w := x];
    forall j | 0 < j < w + 1 && j != w ensures EdgeOk(pool, t, j) {
      assert EdgeOk(pool, s, j);
      assert t[(j - 1) / 2] == s[(j - 1) / 2] && t[j] == s[j];
    }
    assert HeapExcept(pool, t, w + 1, w);
    SiftUpRestores(pool, t, w + 1, w + 1);
  }

  /** pot_pop does NOT keep heap order: from keys [1, 3, 5] it leaves [5, 3],
      because rebase_pop(1) gives up when the right child is missing. */
  lemma PopBreaksHeapOrder()
    ensures var pool := [ZeroSlot.(nextCc := 1), ZeroSlot.(nextCc := 3), ZeroSlot.(nextCc := 5)];
            var s := [Elem(0), Elem(1), Elem(2)];
            HeapOrdered(pool, s, 3) &&
            PopResult(s, 3, pool) == [Elem(2), Elem(1), Null] &&
            !HeapOrdered(pool, PopResult(s, 3, pool), 2)
  {
    var pool := [ZeroSlot.(nextCc := 1), ZeroSlot.(nextCc := 3), ZeroSlot.(nextCc := 5)];
    var s := [Elem(0), Elem(1), Elem(2)];
    assert s[0 := s[2]][2 := Null] == [Elem(2), Elem(1), Null];
    assert EdgeOk(pool, s, 1) && EdgeOk(pool, s, 2);
    var r := PopResult(s, 3, pool);
    assert r == [Elem(2), Elem(1), Null];
    assert !EdgeOk(pool, r, 1);
  }

  /** A heap-ordered tree with keys [1, 10, 2, 11, 12, 3]. */
  const RemovePool := [ZeroSlot.(nextCc := 1), ZeroSlot.(nextCc := 10), ZeroSlot.(nextCc := 2),
                       ZeroSlot.(nextCc := 11), ZeroSlot.(nextCc := 12), ZeroSlot.(nextCc := 3)]
  const RemoveTree := [Elem(0), Elem(1), Elem(2), Elem(3), Elem(4), Elem(5)]

  lemma RemoveTreeIsHeap()
    ensures HeapOrdered(RemovePool, RemoveTree, 6)
  {
    var pool, s := RemovePool, RemoveTree;
    assert EdgeOk(pool, s, 1) && EdgeOk(pool, s, 2) && EdgeOk(pool, s, 3);
    assert EdgeOk(pool, s, 4) && EdgeOk(pool, s, 5);
  }

  /** pot_remove does NOT keep heap order: it never sifts up, so an entry moved
      under a parent with a larger key stays there. Removing the entry with
      key 11 from the tree above leaves 3 below 10. */
  lemma RemoveBreaksHeapOrder()
    ensures HeapOrdered(RemovePool, RemoveTree, 6)
    ensures RemoveResult(RemoveTree, 6, 3, RemovePool) == [Elem(0), Elem(1), Elem(2), Elem(5), Elem(4), Null]
    ensures !HeapOrdered(RemovePool, RemoveResult(RemoveTree, 6, 3, RemovePool), 5)
  {
    RemoveTreeIsHeap();
    var t := RemoveTree[3 := RemoveTree[5]][5 := Null];
    assert t == [Elem(0), Elem(1), Elem(2), Elem(5), Elem(4), Null];
    assert SiftDown(t, 5, 4, RemovePool) == t;
    assert !EdgeOk(RemovePool, t, 3);
  }

  /** Two sequences that agree from index w on and are permutations of each
      other have permuted prefixes. */
  lemma PrefixPermutation(r: seq<Ref>, s: seq<Ref>, w: nat)
    requires |r| == |s| && w <= |s| && multiset(r) == multiset(s)
    requires forall k :: w <= k < |s| ==> r[k] == s[k]
    ensures multiset(r[..w]) == multiset(s[..w])
  {
    assert r[w..] == s[w..];
    calc {
      multiset(r[..w]) + multiset(r[w..]);
      { assert r == r[..w] + r[w..]; }
      multiset(r);
      multiset(s);
      { assert s == s[..w] + s[w..]; }
      multiset(s[..w]) + multiset(s[w..]);
    }
    assert multiset(r[..w]) == multiset(r[..w]) + multiset(r[w..]) - multiset(r[w..]);
    assert multiset(s[..w]) == multiset(s[..w]) + multiset(s[w..]) - multiset(s[w..]);
  }

  /** p_elements, arr_size and write of pot.c as one object. */
  class Tree {
    const elems: array<Ref> // the array p_elements points to once attached
    var arrSize: nat       // arr_size
    var write: nat         // write: the number of entries in use
    var attached: bool     // p_elements != NULL

    /** Entries below write are in use, entries from write to arr_size are NULL,
        and the 1-based indices of the sift routines fit their uint8_t copies. */
    ghost predicate Valid()
      reads this, elems
    {
      arrSize <= elems.Length && arrSize < 128 && write <= arrSize &&
      (!attached ==> arrSize == 0) && Packed(elems[..], write, arrSize)
    }

    /** The multiset of stored references. */
    ghost function Contents(): multiset<Ref>
      reads this, elems
      requires write <= elems.Length
    {
      multiset(elems[..write])
    }

    /** The file-scope statics before pot_init: no array attached, no entries.
        The array that pot_init will attach is fixed here. */
    constructor Unattached(arr: array<Ref>)
      ensures Valid() && !attached && arrSize == 0 && write == 0 && Contents() == multiset{}
      ensures elems == arr
    {
      elems := arr;
      arrSize := 0;
      write := 0;
      attached := false;
    }

    /** pot_init: attach the array, null its first size entries, empty the tree. */
    method Init(size: nat)
      requires size <= elems.Length && size < 128
      modifies this, elems
      ensures Valid() && attached && arrSize == size && write == 0
      ensures Contents() == multiset{}
      ensures forall k :: 0 <= k < size ==> elems[k] == Null
      ensures forall k :: size <= k < elems.Length ==> elems[k] == old(elems[k])
    {
      var i := 0;
      while i < size
        invariant 0 <= i <= size
        invariant forall k :: 0 <= k < i ==> elems[k] == Null
        invariant forall k :: size <= k < elems.Length ==> elems[k] == old(elems[k])
      {
        elems[i] := Null;
        i := i + 1;
      }
      arrSize := size;
      attached := true;
      write := 0;
    }

    /** rebase_push(i) */
    method RebasePush(i: nat, pool: seq<Slot>)
      requires i <= elems.Length
      modifies elems
      ensures elems[..] == SiftUp(old(elems[..]), i, pool)
      decreases i
    {
      if i <= 1 {
        return;
      }
      var curr, prev := i - 1, i / 2 - 1;
      ghost var s := elems[..];
      CompareIsLe(pool, elems[curr], elems[prev]);
      if Compare(SlotOf(pool, elems[curr]), SlotOf(pool, elems[prev])) == 1 {
        elems[prev], elems[curr] := elems[curr], elems[prev];
        assert elems[..] == Swap(s, prev, curr);
        RebasePush(i / 2, pool);
      }
    }

    /** rebase_pop(i) */
    method RebasePop(i: nat, pool: seq<Slot>)
      requires 1 <= i && write <= elems.Length
      modifies elems
      ensures elems[..] == SiftDown(old(elems[..]), write, i, pool)
      decreases write + 1 - i, 2
    {
      if i > write {
        return;
      }
      var next1, next2 := i * 2 - 1, i * 2;
      if next1 >= write || next2 >= write {
        return;
      }
      RebasePopLeft(i, pool);
      RebasePopRight(i, pool);
    }

    /** The left-child comparison of rebase_pop(i), also repeated after a swap
        with the right child. */
    method RebasePopLeft(i: nat, pool: seq<Slot>)
      requires 1 <= i && 2 * i < write <= elems.Length
      modifies elems
      ensures elems[..] == LeftStep(old(elems[..]), write, i, pool)
      decreases write + 1 - i, 0
    {
      var curr, next1 := i - 1, i * 2 - 1;
      ghost var s := elems[..];
      CompareIsLe(pool, elems[next1], elems[curr]);
      if Compare(SlotOf(pool, elems[next1]), SlotOf(pool, elems[curr])) == 1 {
        elems[curr], elems[next1] := elems[next1], elems[curr];
        assert elems[..] == Swap(s, curr, next1);
        RebasePop(i * 2, pool);
      }
    }

    /** The right-child comparison of rebase_pop(i). */
    method RebasePopRight(i: nat, pool: seq<Slot>)
      requires 1 <= i && 2 * i < write <= elems.Length
      modifies elems
      ensures elems[..] == RightStep(old(elems[..]), write, i, pool)
      decreases write + 1 - i, 1
    {
      var curr, next2 := i - 1, i * 2;
      ghost var s := elems[..];
      CompareIsLe(pool, elems[next2], elems[curr]);
      if Compare(SlotOf(pool, elems[next2]), SlotOf(pool, elems[curr])) == 1 {
        elems[curr], elems[next2] := elems[next2], elems[curr];
        assert elems[..] == Swap(s, curr, next2);
        RebasePop(i * 2 + 1, pool);
        RebasePopLeft(i, pool);
      }
    }

    /** pot_push: -1 on a full tree, otherwise append and sift up. */
    method Push(x: nat, pool: seq<Slot>) returns (r: int)
      requires Valid()
      modifies this`write, elems
      ensures Valid() && arrSize == old(arrSize) && attached == old(attached)
      ensures r == (if old(write) >= arrSize then -1 else 0)
      ensures r == -1 ==> write == old(write) && elems[..] == old(elems[..])
      ensures r == 0 ==> write == old(write) + 1 &&
                         elems[..] == SiftUp(old(elems[..])[old(write) := Elem(x)], write, pool) &&
                         Contents() == old(Contents()) + multiset{Elem(x)}
      ensures r == 0 ==> elems[0] == Elem(x) || (old(write) > 0 && elems[0] == old(elems[0]))
      ensures r == 0 && old(HeapOrdered(pool, elems[..], write)) ==> HeapOrdered(pool, elems[..], write)
    {
      if write >= arrSize {
        return -1;
      }
      ghost var s, w := elems[..], write;
      elems[write] := Elem(x);
      write := write + 1;
      assert elems[..] == s[w := Elem(x)];
      RebasePush(write, pool);
      ghost var e := elems[..];
      assert e == SiftUp(s[w := Elem(x)], w + 1, pool);
      PushFacts(s, w, arrSize, Elem(x), pool);
      assert Packed(e, write, arrSize);
      assert elems[..write] == e[..write];
      if HeapOrdered(pool, s, w) {
        PushKeepsHeapOrder(pool, s, w, Elem(x));
        assert HeapOrdered(pool, e, write);
      }
      return 0;
    }

    /** pot_pop: there is no empty check, so the tree must not be empty. */
    method Pop(pool: seq<Slot>) returns (r: Ref)
      requires Valid() && write > 0
      modifies this`write, elems
      ensures Valid() && arrSize == old(arrSize) && attached == old(attached)
      ensures r == old(elems[0]) && r != Null
      ensures write == old(write) - 1
      ensures elems[..] == PopResult(old(elems[..]), old(write), pool)
      ensures Contents() == old(Contents()) - multiset{r}
    {
      ghost var s, w := elems[..], write;
      r := elems[0];
      write := write - 1;
      elems[0] := elems[write];
      elems[write] := Null;
      assert elems[..] == s[0 := s[w - 1]][w - 1 := Null];
      RebasePop(1, pool);
      ghost var e := elems[..];
      assert e == PopResult(s, w, pool) == RemoveResult(s, w, 0, pool);
      RemoveFacts(s, w, arrSize, 0, pool);
      assert Packed(e, write, arrSize);
      assert elems[..write] == e[..write];
      assert s[..w] == old(elems[..write]);
    }

    /** pot_get: the root entry, NULL when no array is attached. */
    function Get(): (r: Ref)
      reads this, elems
      requires Valid() && (attached ==> 0 < arrSize)
      ensures r == Null <==> write == 0
      ensures r != Null ==> r == elems[0] && r in elems[..write]
    {
      if !attached then Null else elems[0]
    }

    /** pot_remove: linear scan over all arr_size entries, then the last entry
        takes the place of the one found and is sifted DOWN only. */
    method Remove(x: nat, pool: seq<Slot>) returns (r: int)
      requires Valid()
      modifies this`write, elems
      ensures Valid() && arrSize == old(arrSize) && attached == old(attached)
      ensures r == 0 || r == -1
      ensures r == -1 <==> Elem(x) !in old(elems[..write])
      ensures r == -1 ==> write == old(write) && elems[..] == old(elems[..])
      ensures r == 0 ==> write == old(write) - 1 &&
                         elems[..] == RemoveResult(old(elems[..]), old(write), IndexOf(old(elems[..write]), Elem(x)), pool)
      ensures r == 0 ==> Contents() == old(Contents()) - multiset{Elem(x)}
    {
      ghost var s := elems[..];
      ghost var c0 := Contents();
      var i := 0;
      var found := -1;
      while i < arrSize
        invariant 0 <= i <= arrSize && found == -1
        invariant forall k :: 0 <= k < i ==> s[k] != Elem(x)
        modifies {}
      {
        if elems[i] == Elem(x) {
          found := i;
          break;
        }
        i := i + 1;
      }
      if found >= 0 {
        FoundInPrefix(s, write, arrSize, i, Elem(x));
        ghost var w0 := write;
        assert old(elems[..write]) == s[..w0];
        write := write - 1;
        elems[i] := elems[write];
        elems[write] := Null;
        assert elems[..] == s[i := s[write]][write := Null];
        RebasePop(i + 1, pool);
        RemoveFacts(s, w0, arrSize, i, pool);
        ghost var rr := RemoveResult(s, w0, i, pool);
        assert elems[..] == rr;
        assert c0 == multiset(s[..w0]) && s[i] == Elem(x);
        assert elems[..write] == rr[..w0 - 1];
        return 0;
      }
      NotInPrefix(s, write, arrSize, Elem(x));
      return -1;
    }
  }
}
