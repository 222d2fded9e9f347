/**
 * The indexed binary min-heap used by Prim's algorithm.
 *
 * Slots are 1-based: slot 0 of `H` is an unused placeholder, so that the
 * parent of slot i is i / 2 and its left child is 2 * i.  Every element
 * carries its own slot number (`queueIndex`), written only by `Set`; it is
 * kept here in a side table owned by the heap.  Elements are vertex ids and
 * the key of an element is its `dist`, which the caller owns and passes in.
 */
module MutablePriorityQueue {

  /** `Vertex::operator<`: compares `dist` and nothing else, so it is strict and asymmetric. */
  predicate Less(dist: map<int, real>, a: int, b: int)
    requires a in dist && b in dist
    ensures Less(dist, a, b) ==> a != b && !(dist[b] < dist[a])
  {
    dist[a] < dist[b]
  }

  /** Every occupied slot holds an element that has a key. */
  ghost predicate Keyed(s: seq<int>, dist: map<int, real>)
  {
    forall j :: 1 <= j < |s| ==> s[j] in dist
  }

  /** Heap order: no element is smaller than its parent. */
  ghost predicate HeapOrdered(s: seq<int>, dist: map<int, real>)
    requires Keyed(s, dist)
  {
    forall p, j :: 1 <= p && 2 <= j < |s| && j / 2 == p ==> dist[s[p]] <= dist[s[j]]
  }

  /**
   * Heap order while slot k sifts up: every slot but k is no smaller than its
   * parent, and k's parent is no greater than k's children.
   */
  ghost predicate OrderedExceptUp(s: seq<int>, dist: map<int, real>, k: nat)
    requires Keyed(s, dist)
  {
    && (forall p, j :: 1 <= p && 2 <= j < |s| && j / 2 == p && j != k ==> dist[s[p]] <= dist[s[j]])
    && (2 <= k ==> forall j :: 2 <= j < |s| && j / 2 == k ==> dist[s[k / 2]] <= dist[s[j]])
  }

  /**
   * Heap order while slot k sifts down: every slot whose parent is not k is no
   * smaller than its parent, and k's parent is no greater than k's children.
   */
  ghost predicate OrderedExceptDown(s: seq<int>, dist: map<int, real>, k: nat)
    requires Keyed(s, dist)
  {
    && (forall p, j :: 1 <= p && 2 <= j < |s| && j / 2 == p && p != k ==> dist[s[p]] <= dist[s[j]])
    && (2 <= k ==> forall j :: 2 <= j < |s| && j / 2 == k ==> dist[s[k / 2]] <= dist[s[j]])
  }

  /** Every slot but k records its own index in `qi`. */
  ghost predicate IndexedExcept(s: seq<int>, qi: map<int, nat>, k: nat)
  {
    forall j :: 1 <= j < |s| && j != k ==> s[j] in qi && qi[s[j]] == j
  }

  /** The element about to be placed at slot k occurs in no other slot. */
  ghost predicate Unique(s: seq<int>, k: nat, x: int)
  {
    forall j :: 1 <= j < |s| && j != k ==> s[j] != x
  }

  /** In a heap-ordered array the root has the least key. */
  lemma {:induction false} RootIsMinimum(s: seq<int>, dist: map<int, real>, j: nat)
    requires Keyed(s, dist) && HeapOrdered(s, dist)
    requires 1 <= j < |s|
    ensures dist[s[1]] <= dist[s[j]]
    decreases j
  {
    if j > 1 {
      RootIsMinimum(s, dist, j / 2);
    }
  }

  /** Lowering the key of the element at slot k of a heap leaves it ordered except upwards from k. */
  lemma LowerKeyOrderedExceptUp(s: seq<int>, before: map<int, real>, dist: map<int, real>, k: nat)
    requires Keyed(s, before) && HeapOrdered(s, before)
    requires 1 <= k < |s| && s[k] in dist
    requires dist == before[s[k] := dist[s[k]]] && dist[s[k]] <= before[s[k]]
    requires Unique(s, k, s[k])
    ensures Keyed(s, dist) && OrderedExceptUp(s, dist, k)
  {
    assert Keyed(s, dist);
    forall p, j | 1 <= p && 2 <= j < |s| && j / 2 == p && j != k
      ensures dist[s[p]] <= dist[s[j]]
    {
      assert s[j] != s[k];
    }
    if 2 <= k {
      forall j | 2 <= j < |s| && j / 2 == k
        ensures dist[s[k / 2]] <= dist[s[j]]
      {
        assert s[j] != s[k] && s[k / 2] != s[k];
      }
    }
  }

  /** One move of the sift-up loop: the key at slot i is smaller than its parent's, so they trade places. */
  lemma SiftUpStep(s: seq<int>, dist: map<int, real>, i: nat)
    requires Keyed(s, dist) && OrderedExceptUp(s, dist, i)
    requires 2 <= i < |s| && dist[s[i]] < dist[s[i / 2]]
    ensures Keyed(s[i := s[i / 2]][i / 2 := s[i]], dist)
    ensures OrderedExceptUp(s[i := s[i / 2]][i / 2 := s[i]], dist, i / 2)
  {
    var t := s[i := s[i / 2]][i / 2 := s[i]];
    assert Keyed(t, dist);
    forall p, j | 1 <= p && 2 <= j < |t| && j / 2 == p && j != i / 2
      ensures dist[t[p]] <= dist[t[j]]
    {
      if j == i {
      } else if p == i {
        assert dist[s[i / 2]] <= dist[s[j]];
      } else if p == i / 2 {
        assert dist[s[i / 2]] <= dist[s[j]];
      } else {
        assert dist[s[p]] <= dist[s[j]];
      }
    }
  }

  /**
   * One move of the sift-down loop: k is the smaller child of slot i and its
   * key is smaller than the key at i, so they trade places.
   */
  lemma SiftDownStep(s: seq<int>, dist: map<int, real>, i: nat, k: nat)
    requires Keyed(s, dist) && OrderedExceptDown(s, dist, i)
    requires 1 <= i && k < |s| && k / 2 == i && 2 <= k
    requires forall c :: 2 <= c < |s| && c / 2 == i ==> dist[s[k]] <= dist[s[c]]
    requires dist[s[k]] < dist[s[i]]
    ensures Keyed(s[i := s[k]][k := s[i]], dist)
    ensures OrderedExceptDown(s[i := s[k]][k := s[i]], dist, k)
  {
    var t := s[i := s[k]][k := s[i]];
    assert Keyed(t, dist);
    forall p, j | 1 <= p && 2 <= j < |t| && j / 2 == p && p != k
      ensures dist[t[p]] <= dist[t[j]]
    {
      if j == k {
      } else if p == i {
        assert dist[s[k]] <= dist[s[j]];
      } else if j == i {
        assert dist[s[p]] <= dist[s[k]];
      } else {
        assert dist[s[p]] <= dist[s[j]];
      }
    }
  }

  /** Exchanging two slots does not change the multiset of elements. */
  lemma SwapElements(s: seq<int>, a: nat, b: nat)
    requires a < |s| && b < |s|
    ensures multiset(s[a := s[b]][b := s[a]]) == multiset(s)
  {
  }

  /** Two arrays with the same placeholder and the same multiset hold the same elements in slots 1... */
  lemma SameTail(s: seq<int>, t: seq<int>)
    requires 1 <= |s| && 1 <= |t| && s[0] == t[0] && multiset(s) == multiset(t)
    ensures multiset(s[1..]) == multiset(t[1..])
  {
    assert s == [s[0]] + s[1..];
    assert t == [t[0]] + t[1..];
    assert multiset(s) == multiset{s[0]} + multiset(s[1..]);
    assert multiset(t) == multiset{t[0]} + multiset(t[1..]);
    assert multiset(s[1..]) == multiset(s) - multiset{s[0]};
    assert multiset(t[1..]) == multiset(t) - multiset{t[0]};
  }

  /** Sift-up stops at the root or below a parent that is not greater: the array is a heap. */
  lemma SiftUpDone(s: seq<int>, dist: map<int, real>, k: nat)
    requires Keyed(s, dist) && OrderedExceptUp(s, dist, k) && 1 <= k < |s|
    requires k == 1 || dist[s[k / 2]] <= dist[s[k]]
    ensures HeapOrdered(s, dist)
  {
  }

  /** The child the sift-down loop picks has the least key among the children of k. */
  lemma MinChild(s: seq<int>, dist: map<int, real>, k: nat, c: nat)
    requires Keyed(s, dist) && 1 <= k && 2 * k <= c < |s|
    requires c == 2 * k ==> 2 * k + 1 < |s| ==> dist[s[c]] <= dist[s[2 * k + 1]]
    requires c != 2 * k ==> c == 2 * k + 1 && dist[s[c]] < dist[s[2 * k]]
    ensures forall j :: 2 <= j < |s| && j / 2 == k ==> dist[s[c]] <= dist[s[j]]
  {
    forall j | 2 <= j < |s| && j / 2 == k
      ensures dist[s[c]] <= dist[s[j]]
    {
      assert j == 2 * k || j == 2 * k + 1;
    }
  }

  /**
   * The sift-down loop's invariant: h is the array with a hole at k, s is the
   * array with x in the hole, a permutation of the array s0 the loop began
   * with, ordered except below k and indexed except at k.
   */
  ghost predicate DownInv(h: seq<int>, s: seq<int>, qi: map<int, nat>, s0: seq<int>, dist: map<int, real>, k: nat, x: int)
  {
    && 1 <= k < |h| == |s| == |s0| && s == h[k := x] && s[0] == s0[0]
    && Keyed(h, dist) && Keyed(s, dist) && OrderedExceptDown(s, dist, k)
    && multiset(s) == multiset(s0)
    && IndexedExcept(s, qi, k) && Unique(s, k, x)
  }

  /** The sift-down loop's invariant survives moving the smaller child c of the hole k up into it. */
  lemma DownStep(h: seq<int>, s: seq<int>, qi: map<int, nat>, s0: seq<int>, dist: map<int, real>, k: nat, c: nat, x: int)
    requires DownInv(h, s, qi, s0, dist, k, x)
    requires 2 <= c < |s| && c / 2 == k
    requires forall j :: 2 <= j < |s| && j / 2 == k ==> dist[s[c]] <= dist[s[j]]
    requires dist[s[c]] < dist[s[k]]
    ensures DownInv(h[k := h[c]], s[k := s[c]][c := s[k]], qi[h[c] := k], s0, dist, c, x)
  {
    SiftDownStep(s, dist, k, c);
    SwapElements(s, k, c);
    IndexStep(s, qi, k, c, x);
    var t := h[k := h[c]];
    assert Keyed(t, dist) by {
      forall j | 1 <= j < |t| ensures t[j] in dist {
        if j != k { assert t[j] == s[j]; }
      }
    }
    assert s[k := s[c]][c := s[k]] == t[c := x];
  }

  /** The sift-up loop's invariant: as DownInv, but ordered except above k. */
  ghost predicate UpInv(h: seq<int>, s: seq<int>, qi: map<int, nat>, s0: seq<int>, dist: map<int, real>, k: nat, x: int)
  {
    && 1 <= k < |h| == |s| == |s0| && s == h[k := x] && s[0] == s0[0]
    && Keyed(h, dist) && Keyed(s, dist) && OrderedExceptUp(s, dist, k)
    && multiset(s) == multiset(s0)
    && IndexedExcept(s, qi, k) && Unique(s, k, x)
  }

  /** The sift-up loop's invariant survives moving the parent of the hole k down into it. */
  lemma UpStep(h: seq<int>, s: seq<int>, qi: map<int, nat>, s0: seq<int>, dist: map<int, real>, k: nat, x: int)
    requires UpInv(h, s, qi, s0, dist, k, x)
    requires 2 <= k && dist[s[k]] < dist[s[k / 2]]
    ensures UpInv(h[k := h[k / 2]], s[k := s[k / 2]][k / 2 := s[k]], qi[h[k / 2] := k], s0, dist, k / 2, x)
  {
    SiftUpStep(s, dist, k);
    SwapElements(s, k, k / 2);
    IndexStep(s, qi, k, k / 2, x);
    var t := h[k := h[k / 2]];
    assert Keyed(t, dist) by {
      forall j | 1 <= j < |t| ensures t[j] in dist {
        if j != k { assert t[j] == s[j]; }
      }
    }
    assert s[k := s[k / 2]][k / 2 := s[k]] == t[k / 2 := x];
  }

  /** Sift-down stops where no child is smaller: the array is a heap. */
  lemma SiftDownDone(s: seq<int>, dist: map<int, real>, k: nat)
    requires Keyed(s, dist) && OrderedExceptDown(s, dist, k) && 1 <= k < |s|
    requires forall j :: 2 <= j < |s| && j / 2 == k ==> dist[s[k]] <= dist[s[j]]
    ensures HeapOrdered(s, dist)
  {
  }

  /** Moving the element at slot p into the hole k, and the element x of the hole to p, makes p the hole. */
  lemma IndexStep(s: seq<int>, qi: map<int, nat>, k: nat, p: nat, x: int)
    requires 1 <= p < |s| && 1 <= k < |s| && p != k && s[k] == x
    requires IndexedExcept(s, qi, k) && Unique(s, k, x)
    ensures IndexedExcept(s[k := s[p]][p := x], qi[s[p] := k], p)
    ensures Unique(s[k := s[p]][p := x], p, x)
  {
  }

  /** Recording the slot k of the hole's own element restores every back-index. */
  lemma IndexClose(s: seq<int>, qi: map<int, nat>, k: nat, x: int)
    requires 1 <= k < |s| && s[k] == x
    requires IndexedExcept(s, qi, k) && Unique(s, k, x)
    ensures IndexedExcept(s, qi[x := k], 0)
  {
  }

  /** The root's key is no greater than the key of any element. */
  lemma RootIsLeast(s: seq<int>, dist: map<int, real>)
    requires Keyed(s, dist) && HeapOrdered(s, dist) && |s| > 1
    ensures forall y :: y in multiset(s[1..]) ==> dist[s[1]] <= dist[y]
  {
    forall y | y in multiset(s[1..])
      ensures dist[s[1]] <= dist[y]
    {
      var j :| 0 <= j < |s[1..]| && s[1..][j] == y;
      RootIsMinimum(s, dist, j + 1);
    }
  }

  /** Moving the last leaf into the root slot and dropping the last slot removes exactly the root. */
  lemma RemoveRootElements(s: seq<int>, qi: map<int, nat>)
    requires |s| > 1 && IndexedExcept(s, qi, 0)
    ensures multiset(s[1 := s[|s| - 1]][..|s| - 1][1..]) == multiset(s[1..]) - multiset{s[1]}
    ensures s[1] !in s[1 := s[|s| - 1]][..|s| - 1][1..]
  {
    RemoveRootMultiset(s);
    RemoveRootAbsent(s, qi);
  }

  /** The slots after the move hold the old slots but the root's. */
  lemma RemoveRootMultiset(s: seq<int>)
    requires |s| > 1
    ensures multiset(s[1 := s[|s| - 1]][..|s| - 1][1..]) == multiset(s[1..]) - multiset{s[1]}
  {
    var n := |s| - 1;
    var h := s[1 := s[n]][..n][1..];
    if n > 1 {
      var mid := s[2..n];
      assert h == [s[n]] + mid by {
        assert |h| == |mid| + 1;
        forall j | 0 <= j < |h| ensures h[j] == ([s[n]] + mid)[j] {
        }
      }
      assert s[1..] == [s[1]] + mid + [s[n]];
      assert multiset(h) == multiset{s[n]} + multiset(mid);
      assert multiset(s[1..]) == multiset{s[1]} + multiset(mid) + multiset{s[n]};
    } else {
      assert h == [] && s[1..] == [s[1]];
    }
  }

  /** With back-indices in place, the root occurs in no other slot, so it is gone after the move. */
  lemma RemoveRootAbsent(s: seq<int>, qi: map<int, nat>)
    requires |s| > 1 && IndexedExcept(s, qi, 0)
    ensures s[1] !in s[1 := s[|s| - 1]][..|s| - 1][1..]
  {
    var h := s[1 := s[|s| - 1]][..|s| - 1];
    var n := |s| - 1;
    forall j | 0 <= j < |h| - 1 ensures h[1..][j] != s[1] {
      var k := if j == 0 then n else j + 1;
      assert h[1..][j] == s[k];
      assert qi[s[k]] == k;
    }
  }

  /** After the last leaf moves into the root slot, the array is ready to sift down from slot 1. */
  lemma RemoveRootShape(s: seq<int>, qi: map<int, nat>, dist: map<int, real>)
    requires |s| > 2 && IndexedExcept(s, qi, 0) && Keyed(s, dist) && HeapOrdered(s, dist)
    ensures Keyed(s[1 := s[|s| - 1]][..|s| - 1], dist)
    ensures IndexedExcept(s[1 := s[|s| - 1]][..|s| - 1], qi, 1)
    ensures Unique(s[1 := s[|s| - 1]][..|s| - 1], 1, s[|s| - 1])
    ensures OrderedExceptDown(s[1 := s[|s| - 1]][..|s| - 1], dist, 1)
  {
    var h := s[1 := s[|s| - 1]][..|s| - 1];
    assert forall j :: 2 <= j < |h| ==> h[j] == s[j];
  }

  /** Resetting the back-index of an element that is not in the array keeps every other back-index. */
  lemma IndexedDrop(s: seq<int>, qi: map<int, nat>, x: int)
    requires 1 <= |s| && IndexedExcept(s, qi, 0) && x !in s[1..]
    ensures IndexedExcept(s, qi[x := 0], 0)
  {
    forall j | 1 <= j < |s| ensures s[j] != x {
      assert s[j] == s[1..][j - 1];
    }
  }

  /** Changing the key of an element that is not in the heap keeps the heap ordered. */
  lemma KeyOutside(s: seq<int>, dist: map<int, real>, x: int, w: real)
    requires Keyed(s, dist) && HeapOrdered(s, dist) && |s| >= 1 && x !in multiset(s[1..])
    ensures Keyed(s, dist[x := w]) && HeapOrdered(s, dist[x := w])
  {
    forall j | 1 <= j < |s| ensures s[j] != x {
      assert s[j] == s[1..][j - 1];
    }
  }

  class MinHeap {
    /** The slots; H[0] is a placeholder that is never read as an element. */
    var H: seq<int>
    /** The back-index of every element that has been placed in a slot. */
    var queueIndex: map<int, nat>

    /** Slot 0 exists, and every occupied slot i holds an element whose queueIndex is i. */
    ghost predicate Valid()
      reads this
    {
      |H| >= 1 && IndexedExcept(H, queueIndex, 0)
    }

    /** The elements currently in the queue. */
    ghost function Elements(): multiset<int>
      reads this
      requires Valid()
    {
      multiset(H[1..])
    }

    constructor ()
      ensures Valid() && H == [0] && Elements() == multiset{}
      ensures queueIndex == map[]
    {
      H := [0];
      queueIndex := map[];
    }

    /** The queue is empty exactly when only the placeholder slot is left. */
    function IsEmpty(): (b: bool)
      reads this
      requires Valid()
      ensures b <==> Elements() == multiset{}
    {
      assert |H| == 1 ==> H[1..] == [];
      assert |H| > 1 ==> H[1] in Elements();
      |H| == 1
    }

    /** Places x in slot i and records i as x's back-index. */
    method Set(i: nat, x: int)
      requires 1 <= i < |H|
      modifies this
      ensures H == old(H)[i := x] && queueIndex == old(queueIndex)[x := i]
    {
      H := H[i := x];
      queueIndex := queueIndex[x := i];
    }

    /**
     * Moves the element at slot i towards the root while it is smaller than
     * its parent, shifting each greater parent one level down.
     */
    method HeapifyUp(i: nat, dist: map<int, real>)
      requires 1 <= i < |H| && Keyed(H, dist)
      requires IndexedExcept(H, queueIndex, i) && Unique(H, i, H[i])
      requires OrderedExceptUp(H, dist, i)
      modifies this
      ensures Valid() && Keyed(H, dist) && HeapOrdered(H, dist)
      ensures |H| == old(|H|) && H[0] == old(H[0])
      ensures multiset(H[1..]) == old(multiset(H[1..]))
    {
      ghost var s0 := H;
      var x := H[i];
      var k := i;
      ghost var S := H;
      while k > 1 && Less(dist, x, H[k / 2])
        invariant UpInv(H, S, queueIndex, s0, dist, k, x)
        decreases k
      {
        var p := k / 2;
        UpStep(H, S, queueIndex, s0, dist, k, x);
        S := S[k := S[p]][p := S[k]];
        Set(k, H[p]);
        k := p;
      }
      SiftUpDone(S, dist, k);
      IndexClose(S, queueIndex, k, x);
      Set(k, x);
      SameTail(H, s0);
    }

    /**
     * Moves the element at slot i away from the root while its smaller child
     * is strictly smaller, shifting that child one level up.
     */
    method HeapifyDown(i: nat, dist: map<int, real>)
      requires 1 <= i < |H| && Keyed(H, dist)
      requires IndexedExcept(H, queueIndex, i) && Unique(H, i, H[i])
      requires OrderedExceptDown(H, dist, i)
      modifies this
      ensures Valid() && Keyed(H, dist) && HeapOrdered(H, dist)
      ensures |H| == old(|H|) && H[0] == old(H[0])
      ensures multiset(H[1..]) == old(multiset(H[1..]))
    {
      ghost var s0 := H;
      var x := H[i];
      var k := i;
      ghost var S := H;
      while true
        invariant DownInv(H, S, queueIndex, s0, dist, k, x)
        decreases |H| - k
      {
        var c := 2 * k;
        if c >= |H| {
          break;
        }
        if c + 1 < |H| && Less(dist, H[c + 1], H[c]) {
          c := c + 1;
        }
        MinChild(S, dist, k, c);
        if !Less(dist, H[c], x) {
          break;
        }
        DownStep(H, S, queueIndex, s0, dist, k, c, x);
        S := S[k := S[c]][c := S[k]];
        Set(k, H[c]);
        k := c;
      }
      SiftDownDone(S, dist, k);
      IndexClose(S, queueIndex, k, x);
      Set(k, x);
      SameTail(H, s0);
    }

    /** Appends x as a new leaf and sifts it up. */
    method Insert(x: int, dist: map<int, real>)
      requires Valid() && Keyed(H, dist) && HeapOrdered(H, dist)
      requires x in dist && x !in Elements()
      modifies this
      ensures Valid() && Keyed(H, dist) && HeapOrdered(H, dist)
      ensures Elements() == old(Elements()) + multiset{x}
      ensures |H| == old(|H|) + 1
    {
      ghost var s0 := H;
      H := H + [x];
      assert H[1..] == s0[1..] + [x];
      forall j | 1 <= j < |H| - 1
        ensures H[j] != x
      {
        assert H[j] == s0[1..][j - 1];
      }
      HeapifyUp(|H| - 1, dist);
    }

    /** The last leaf takes the root's slot and sifts down, so exactly the root leaves. */
    method RemoveRoot(dist: map<int, real>)
      requires Valid() && Keyed(H, dist) && HeapOrdered(H, dist) && |H| > 1
      modifies this
      ensures Valid() && Keyed(H, dist) && HeapOrdered(H, dist)
      ensures multiset(H[1..]) == old(multiset(H[1..])) - multiset{old(H[1])}
      ensures old(H[1]) !in multiset(H[1..])
      ensures |H| == old(|H|) - 1
    {
      ghost var s := H;
      var h := H[1 := H[|H| - 1]][..|H| - 1];
      RemoveRootElements(s, queueIndex);
      assert multiset(h[1..]) == multiset(s[1..]) - multiset{s[1]};
      if |h| > 1 {
        RemoveRootShape(s, queueIndex, dist);
        H := h;
        HeapifyDown(1, dist);
      } else {
        H := h;
      }
    }

    /**
     * Removes and returns the root, whose key is least; the returned
     * element's back-index becomes 0.
     */
    method ExtractMin(dist: map<int, real>) returns (x: int)
      requires Valid() && Keyed(H, dist) && HeapOrdered(H, dist)
      requires Elements() != multiset{}
      modifies this
      ensures Valid() && Keyed(H, dist) && HeapOrdered(H, dist)
      ensures x in old(Elements()) && Elements() == old(Elements()) - multiset{x}
      ensures forall y :: y in old(Elements()) ==> dist[x] <= dist[y]
      ensures x !in Elements()
      ensures x in queueIndex && queueIndex[x] == 0
      ensures |H| == old(|H|) - 1
    {
      assert |H| > 1;
      RootIsLeast(H, dist);
      assert H[1] in Elements() by {
        assert H[1..][0] == H[1];
      }
      x := H[1];
      RemoveRoot(dist);
      IndexedDrop(H, queueIndex, x);
      queueIndex := queueIndex[x := 0];
    }

    /**
     * Restores heap order after the caller has lowered the key of x, which is
     * in the queue: x sifts up from its back-index.
     */
    method DecreaseKey(x: int, dist: map<int, real>, ghost before: map<int, real>)
      requires Valid() && Keyed(H, before) && HeapOrdered(H, before)
      requires x in Elements() && x in dist
      requires dist == before[x := dist[x]] && dist[x] <= before[x]
      modifies this
      ensures Valid() && Keyed(H, dist) && HeapOrdered(H, dist)
      ensures Elements() == old(Elements())
      ensures |H| == old(|H|)
    {
      ghost var j :| 0 <= j < |H[1..]| && H[1..][j] == x;
      assert H[j + 1] == x && queueIndex[x] == j + 1;
      LowerKeyOrderedExceptUp(H, before, dist, j + 1);
      HeapifyUp(queueIndex[x], dist);
    }
  }
}
