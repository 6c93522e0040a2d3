/**
 The base pointer and its stack under set-index and restore items, for every stream the
 loader gets through, well-formed or not.
 */
module BaseStack {
  import opened Bytes
  import opened ObjectFile
  import opened HeapModel

  /** Set-indexes minus restores. */
  function Depth(items: seq<Item>): int {
    if items == [] then 0
    else
      var it := items[|items| - 1];
      Depth(items[..|items| - 1]) + if it.payload.SetIndex? then 1 else if it.payload.Restore? then -1 else 0
  }

  /** No prefix restores more often than it sets an index, `credit` restores apart. */
  ghost predicate NeverBelow(items: seq<Item>, credit: nat) {
    forall k :: 0 <= k <= |items| ==> Depth(items[..k]) + credit >= 0
  }

  ghost predicate Balanced(items: seq<Item>) {
    Depth(items) == 0 && NeverBelow(items, 0)
  }

  /** The saved bases with the current one on top. */
  function Bases(h: Heap): (r: seq<Base>)
    ensures |r| == |h.stack| + 1
  {
    h.stack + [h.base]
  }

  lemma LoadBases(h: Heap, sizes: seq<int>, it: Item)
    requires Load(h, sizes, it).Ok?
    ensures var h' := Load(h, sizes, it).value;
            if it.payload.SetIndex? then Bases(h') == Bases(h) + [h'.base]
            else if it.payload.Restore? then Bases(h') == Bases(h)[..|h.stack|]
            else Bases(h') == Bases(h)
  {
    hide Dest, Image, Cells;
    if it.payload.Restore? {
      assert h.stack == h.stack[..|h.stack| - 1] + [h.stack[|h.stack| - 1]];
    }
  }

  lemma LoadAllSnoc(h: Heap, sizes: seq<int>, items: seq<Item>)
    requires items != []
    ensures var front, last := items[..|items| - 1], items[|items| - 1];
            LoadAll(h, sizes, items) ==
            if LoadAll(h, sizes, front).Fail? then Fail else Load(LoadAll(h, sizes, front).value, sizes, last)
  {
    var front, last := items[..|items| - 1], items[|items| - 1];
    assert items == front + [last];
    LoadAllSplit(h, sizes, front, [last]);
    if LoadAll(h, sizes, front).Ok? {
      var h1 := LoadAll(h, sizes, front).value;
      hide Load;
      assert LoadAll(h1, sizes, [last]) ==
             if Load(h1, sizes, last).Fail? then Fail else LoadAll(Load(h1, sizes, last).value, sizes, []);
    }
  }

  lemma NeverBelowFront(items: seq<Item>, credit: nat)
    requires NeverBelow(items, credit) && items != []
    ensures NeverBelow(items[..|items| - 1], credit) && Depth(items) + credit >= 0
  {
    var front := items[..|items| - 1];
    forall k | 0 <= k <= |front|
      ensures Depth(front[..k]) + credit >= 0
    {
      assert front[..k] == items[..k];
    }
    assert items[..|items|] == items;
  }

  /** The stack depth is always the depth of the stream. */
  lemma {:induction false} DepthOfStack(h: Heap, sizes: seq<int>, items: seq<Item>)
    requires LoadAll(h, sizes, items).Ok?
    ensures |LoadAll(h, sizes, items).value.stack| == |h.stack| + Depth(items)
    decreases |items|
  {
    if items != [] {
      hide Load;
      LoadAllSnoc(h, sizes, items);
      var front := items[..|items| - 1];
      DepthOfStack(h, sizes, front);
      LoadBases(LoadAll(h, sizes, front).value, sizes, items[|items| - 1]);
    }
  }

  /** Whatever happens above them, the bases below a stream that never underflows stay. */
  lemma {:induction false} BasesKept(h: Heap, sizes: seq<int>, items: seq<Item>)
    requires LoadAll(h, sizes, items).Ok? && NeverBelow(items, 0)
    ensures Bases(h) <= Bases(LoadAll(h, sizes, items).value)
    decreases |items|
  {
    if items != [] {
      hide Load, NeverBelow;
      LoadAllSnoc(h, sizes, items);
      NeverBelowFront(items, 0);
      var front := items[..|items| - 1];
      BasesKept(h, sizes, front);
      DepthOfStack(h, sizes, items);
      DepthOfStack(h, sizes, front);
      LoadBases(LoadAll(h, sizes, front).value, sizes, items[|items| - 1]);
    }
  }

  /** A balanced stream leaves base and stack as it found them, at any nesting depth. */
  lemma BalancedRestores(h: Heap, sizes: seq<int>, items: seq<Item>)
    requires LoadAll(h, sizes, items).Ok? && Balanced(items)
    ensures LoadAll(h, sizes, items).value.base == h.base
    ensures LoadAll(h, sizes, items).value.stack == h.stack
  {
    hide LoadAll;
    BasesKept(h, sizes, items);
    DepthOfStack(h, sizes, items);
    var h' := LoadAll(h, sizes, items).value;
    assert Bases(h') == Bases(h);
    assert h'.base == Bases(h')[|h'.stack|] && h'.stack == Bases(h')[..|h'.stack|];
    assert h.base == Bases(h)[|h.stack|] && h.stack == Bases(h)[..|h.stack|];
  }

  /** Every item other than a restore is loaded once the stream gets to it. */
  ghost predicate OthersLoad(h: Heap, sizes: seq<int>, items: seq<Item>) {
    forall k :: 0 <= k < |items| && !items[k].payload.Restore? && LoadAll(h, sizes, items[..k]).Ok? ==>
      Load(LoadAll(h, sizes, items[..k]).value, sizes, items[k]).Ok?
  }

  lemma OthersLoadFront(h: Heap, sizes: seq<int>, items: seq<Item>)
    requires OthersLoad(h, sizes, items) && items != []
    ensures OthersLoad(h, sizes, items[..|items| - 1])
  {
    var front := items[..|items| - 1];
    forall k | 0 <= k < |front|
      ensures front[..k] == items[..k] && front[k] == items[k]
    {
    }
  }

  /**
   Restores succeed at every step exactly when no prefix of the stream has more restores
   than set-indexes and bases saved before it.
   */
  lemma {:induction false} RestoresSucceedExactly(h: Heap, sizes: seq<int>, items: seq<Item>)
    requires OthersLoad(h, sizes, items)
    ensures LoadAll(h, sizes, items).Ok? <==> NeverBelow(items, |h.stack|)
    decreases |items|
  {
    if items == [] {
      assert forall k :: 0 <= k <= 0 ==> items[..k] == [];
    } else {
      var front, last := items[..|items| - 1], items[|items| - 1];
      LoadAllSnoc(h, sizes, items);
      OthersLoadFront(h, sizes, items);
      RestoresSucceedExactly(h, sizes, front);
      NeverBelowSnoc(items, |h.stack|);
      if LoadAll(h, sizes, front).Ok? {
        hide Load, NeverBelow;
        DepthOfStack(h, sizes, front);
        DepthSnoc(items);
        if last.payload.Restore? {
          RestoreOutcome(LoadAll(h, sizes, front).value, sizes, last);
        }
      }
    }
  }

  lemma RestoreOutcome(h: Heap, sizes: seq<int>, it: Item)
    requires it.payload.Restore?
    ensures Load(h, sizes, it).Ok? <==> |h.stack| > 0
  {
  }

  lemma DepthSnoc(items: seq<Item>)
    requires items != []
    ensures var p := items[|items| - 1].payload;
            Depth(items) == Depth(items[..|items| - 1]) + if p.SetIndex? then 1 else if p.Restore? then -1 else 0
  {
  }

  lemma NeverBelowSnoc(items: seq<Item>, credit: nat)
    requires items != []
    ensures NeverBelow(items, credit) <==> NeverBelow(items[..|items| - 1], credit) && Depth(items) + credit >= 0
  {
    hide Depth;
    var front := items[..|items| - 1];
    if NeverBelow(items, credit) {
      NeverBelowFront(items, credit);
    }
    if NeverBelow(front, credit) && Depth(items) + credit >= 0 {
      forall k | 0 <= k <= |items|
        ensures Depth(items[..k]) + credit >= 0
      {
        if k < |items| {
          assert front[..k] == items[..k];
        } else {
          assert items[..k] == items;
        }
      }
    }
  }
}
