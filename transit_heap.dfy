/** The binary min-heap inside GTFS.plan (gtfs.js): an array of [d, i] pairs
    ordered by d, grown by push and shrunk by pop, with the siftUp and
    siftDown loops swapping entries in place. */
module TransitHeap {
  import opened Common

  /** A heap entry `[d, i]`: tentative duration `d` of stop `i`. */
  datatype Item = Item(key: real, stop: int)

  /** Every entry's parent `(i - 1) >> 1` has a key no larger than its own. */
  ghost predicate HeapOrdered(h: seq<Item>)
  {
    forall p, c :: 0 <= p < c < |h| && (c - 1) / 2 == p ==> h[p].key <= h[c].key
  }

  /** The root carries the smallest key. */
  lemma {:induction false} RootIsMin(h: seq<Item>, i: nat)
    requires HeapOrdered(h) && i < |h|
    ensures h[0].key <= h[i].key
    decreases i
  {
    if i > 0 {
      RootIsMin(h, (i - 1) / 2);
      assert h[(i - 1) / 2].key <= h[i].key;
    }
  }

  /** Ordered everywhere except between entry `idx` and its parent; entry
      idx's parent is still no larger than idx's children. (siftUp) */
  ghost predicate OrderedAbove(h: seq<Item>, idx: nat)
  {
    && (forall p, c :: 0 <= p < c < |h| && (c - 1) / 2 == p && c != idx ==> h[p].key <= h[c].key)
    && (0 < idx < |h| ==> forall c :: 0 < c < |h| && (c - 1) / 2 == idx ==> h[(idx - 1) / 2].key <= h[c].key)
  }

  /** Ordered everywhere except between entry `idx` and its children; idx's
      parent is still no larger than idx's children. (siftDown) */
  ghost predicate OrderedBelow(h: seq<Item>, idx: nat)
  {
    && (forall p, c :: 0 <= p < c < |h| && (c - 1) / 2 == p && p != idx ==> h[p].key <= h[c].key)
    && (0 < idx < |h| ==> forall c :: 0 < c < |h| && (c - 1) / 2 == idx ==> h[(idx - 1) / 2].key <= h[c].key)
  }

  lemma SwapCounts(h: seq<Item>, i: nat, j: nat)
    requires i < |h| && j < |h|
    ensures multiset(h[i := h[j]][j := h[i]]) == multiset(h)
  {
  }

  function Swap(h: seq<Item>, i: nat, j: nat): (r: seq<Item>)
    requires i < |h| && j < |h|
    ensures |r| == |h| && multiset(r) == multiset(h)
  {
    SwapCounts(h, i, j);
    h[i := h[j]][j := h[i]]
  }

  /** One round of siftUp: swapping entry idx with its larger parent moves the
      exception up to the parent. */
  lemma SiftUpStep(h: seq<Item>, idx: nat)
    requires 0 < idx < |h| && OrderedAbove(h, idx)
    requires h[idx].key < h[(idx - 1) / 2].key
    ensures OrderedAbove(Swap(h, (idx - 1) / 2, idx), (idx - 1) / 2)
  {
    var q := (idx - 1) / 2;
    var g := Swap(h, q, idx);
    forall p, c | 0 <= p < c < |g| && (c - 1) / 2 == p && c != q
      ensures g[p].key <= g[c].key
    {
      if c == idx {
      } else if p == idx {
        assert h[q].key <= h[c].key;
      } else if p == q {
        assert h[q].key <= h[c].key;
      } else {
        assert g[p] == h[p] && g[c] == h[c];
      }
    }
    if 0 < q {
      var gq := (q - 1) / 2;
      forall c | 0 < c < |g| && (c - 1) / 2 == q ensures g[gq].key <= g[c].key {
        assert h[gq].key <= h[q].key;
        if c != idx {
          assert h[q].key <= h[c].key;
        }
      }
    }
  }

  /** One round of siftDown: swapping entry idx with its smallest child moves
      the exception down to that child. */
  lemma SiftDownStep(h: seq<Item>, idx: nat, s: nat)
    requires idx < s < |h| && (s - 1) / 2 == idx && OrderedBelow(h, idx)
    requires h[s].key < h[idx].key
    requires forall c :: 0 < c < |h| && (c - 1) / 2 == idx ==> h[s].key <= h[c].key
    ensures OrderedBelow(Swap(h, s, idx), s)
  {
    var g := Swap(h, s, idx);
    forall p, c | 0 <= p < c < |g| && (c - 1) / 2 == p && p != s
      ensures g[p].key <= g[c].key
    {
      if p == idx {
      } else if c == idx {
        assert h[p].key <= h[s].key;
      } else {
        assert g[p] == h[p] && g[c] == h[c];
      }
    }
    forall c | 0 < c < |g| && (c - 1) / 2 == s ensures g[idx].key <= g[c].key {
      assert h[s].key <= h[c].key;
    }
  }

  /** siftDown stops when neither child is smaller: the heap is whole again. */
  lemma SiftDownDone(h: seq<Item>, idx: nat)
    requires idx < |h| && OrderedBelow(h, idx)
    requires idx * 2 + 1 < |h| ==> h[idx].key <= h[idx * 2 + 1].key
    requires idx * 2 + 2 < |h| ==> h[idx].key <= h[idx * 2 + 2].key
    ensures HeapOrdered(h)
  {
    forall p, c | 0 <= p < c < |h| && (c - 1) / 2 == p ensures h[p].key <= h[c].key {
      if p == idx {
        assert c == idx * 2 + 1 || c == idx * 2 + 2;
      }
    }
  }

  class MinHeap {
    var h: seq<Item>

    ghost predicate Valid()
      reads this
    {
      HeapOrdered(h)
    }

    /** The entries as a multiset: what push and pop promise about. */
    ghost function Contents(): multiset<Item>
      reads this
    {
      multiset(h)
    }

    constructor()
      ensures Valid() && h == []
    {
      h := [];
    }

    /** `heap.push([d, i]); siftUp(heap.length - 1)`. */
    method Push(key: real, stop: int)
      requires Valid()
      modifies this
      ensures Valid()
      ensures Contents() == old(Contents()) + multiset{Item(key, stop)}
      ensures |h| == old(|h|) + 1
    {
      h := h + [Item(key, stop)];
      SiftUp(|h| - 1);
    }

    /** Removes and returns an entry with the smallest key; None on an empty heap. */
    method Pop() returns (r: Option<Item>)
      requires Valid()
      modifies this
      ensures Valid()
      ensures old(|h|) == 0 ==> r.None? && h == old(h)
      ensures old(|h|) > 0 ==> r.Some? && r.value in old(Contents())
                               && Contents() == old(Contents()) - multiset{r.value}
                               && |h| == old(|h|) - 1
      ensures r.Some? ==> forall x :: x in Contents() ==> r.value.key <= x.key
    {
      if |h| == 0 {
        return None;
      }
      var top := h[0];
      forall i | 0 <= i < |h| ensures top.key <= h[i].key {
        RootIsMin(h, i);
      }
      var last := h[|h| - 1];
      ghost var all := h;
      h := h[..|h| - 1];
      assert all == h + [last];
      if |h| > 0 {
        assert all == [top] + h[1..] + [last];
        h := h[0 := last];
        assert h == [last] + all[1..|all| - 1];
        assert OrderedBelow(h, 0);
        SiftDown(0);
      }
      r := Some(top);
    }

    method SiftUp(idx0: nat)
      requires idx0 < |h| && OrderedAbove(h, idx0)
      modifies this
      ensures Valid() && multiset(h) == old(multiset(h)) && |h| == old(|h|)
    {
      var idx: nat := idx0;
      while idx > 0
        invariant idx < |h| && OrderedAbove(h, idx)
        invariant multiset(h) == old(multiset(h)) && |h| == old(|h|)
        decreases idx
      {
        var p := (idx - 1) / 2;
        if h[p].key <= h[idx].key {
          break;
        }
        SiftUpStep(h, idx);
        h := Swap(h, p, idx);
        idx := p;
      }
    }

    method SiftDown(idx0: nat)
      requires idx0 < |h| && OrderedBelow(h, idx0)
      modifies this
      ensures Valid() && multiset(h) == old(multiset(h)) && |h| == old(|h|)
    {
      var idx: nat := idx0;
      while true
        invariant idx < |h| && OrderedBelow(h, idx)
        invariant multiset(h) == old(multiset(h)) && |h| == old(|h|)
        decreases |h| - idx
      {
        var l := idx * 2 + 1;
        var r := l + 1;
        var s := idx;
        if l < |h| && h[l].key < h[s].key {
          s := l;
        }
        if r < |h| && h[r].key < h[s].key {
          s := r;
        }
        if s == idx {
          SiftDownDone(h, idx);
          break;
        }
        SiftDownStep(h, idx, s);
        h := Swap(h, s, idx);
        idx := s;
      }
    }
  }

}
