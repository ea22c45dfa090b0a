/**
  The 0/1 knapsack dynamic program: a table of best values indexed by
  capacity and by how many of the items may be used, filled row by row, and
  a traceback from the last cell that recovers which items were taken.
 */
module Knapsack {
  import opened Builtins

  /** A slot of the table: an `array('I')` element, an unsigned 32-bit
      integer. */
  newtype UInt32 = x: int | 0 <= x < 0x1_0000_0000

  /** An item with its position in the input, its value and its weight. */
  datatype Item = Item(index: nat, value: nat, weight: nat)

  function Max(a: nat, b: nat): nat
  {
    if a >= b then a else b
  }

  /** The total value of the first `i` items. */
  function Worth(items: seq<Item>, i: nat): nat
    requires i <= |items|
  {
    if i == 0 then 0 else Worth(items, i - 1) + items[i - 1].value
  }

  /** The table entry for capacity `k` and the first `i` items, as the fill
      loop computes it. Row 0 and column 0 are never written and stay 0, and
      an entry is worth at least its own item when that item fits. */
  function Cell(items: seq<Item>, k: nat, i: nat): (r: nat)
    requires i <= |items|
    ensures k == 0 || i == 0 ==> r == 0
    ensures 0 < i && 0 < k && items[i - 1].weight <= k ==> items[i - 1].value <= r
    decreases i
  {
    if k == 0 || i == 0 then 0
    else if items[i - 1].weight > k then Cell(items, k, i - 1)
    else Max(Cell(items, k, i - 1), Cell(items, k - items[i - 1].weight, i - 1) + items[i - 1].value)
  }

  /** No entry exceeds the total value of the items it may use. */
  lemma {:induction false} CellWorth(items: seq<Item>, k: nat, i: nat)
    requires i <= |items|
    ensures Cell(items, k, i) <= Worth(items, i)
    decreases i
  {
    if k > 0 && i > 0 {
      CellWorth(items, k, i - 1);
      if items[i - 1].weight <= k {
        CellWorth(items, k - items[i - 1].weight, i - 1);
      }
    }
  }

  /** The total value of the items selected by `taken`, which covers the
      first `|taken|` items. */
  function Value(items: seq<Item>, taken: seq<bool>): nat
    requires |taken| <= |items|
  {
    if taken == [] then 0
    else Value(items, taken[..|taken| - 1]) + (if taken[|taken| - 1] then items[|taken| - 1].value else 0)
  }

  /** The total weight of the items selected by `taken`. */
  function Weight(items: seq<Item>, taken: seq<bool>): nat
    requires |taken| <= |items|
  {
    if taken == [] then 0
    else Weight(items, taken[..|taken| - 1]) + (if taken[|taken| - 1] then items[|taken| - 1].weight else 0)
  }

  /** `i` items left out. */
  function Nothing(i: nat): (r: seq<bool>)
    ensures |r| == i && forall j :: 0 <= j < i ==> !r[j]
  {
    seq(i, _ => false)
  }

  /** Leaving every item out selects nothing. */
  lemma {:induction false} NothingSelected(items: seq<Item>, i: nat)
    requires i <= |items|
    ensures Value(items, Nothing(i)) == 0 && Weight(items, Nothing(i)) == 0
  {
    if i > 0 {
      NothingSelected(items, i - 1);
      assert Nothing(i)[..i - 1] == Nothing(i - 1);
    }
  }

  /** Selecting one more item, previously left out, adds its value and its
      weight and nothing else. */
  lemma {:induction false} SelectOne(items: seq<Item>, taken: seq<bool>, j: nat)
    requires j < |taken| <= |items| && !taken[j]
    ensures Value(items, taken[j := true]) == Value(items, taken) + items[j].value
    ensures Weight(items, taken[j := true]) == Weight(items, taken) + items[j].weight
    decreases |taken|
  {
    var t := taken[j := true];
    if j < |taken| - 1 {
      SelectOne(items, taken[..|taken| - 1], j);
      assert t[..|t| - 1] == taken[..|taken| - 1][j := true];
    } else {
      assert t[..|t| - 1] == taken[..|taken| - 1];
    }
  }

  /** With positive weights, a selection of weight zero takes nothing. */
  lemma {:induction false} WeightlessWorthless(items: seq<Item>, taken: seq<bool>)
    requires |taken| <= |items| && forall j :: 0 <= j < |items| ==> items[j].weight >= 1
    requires Weight(items, taken) == 0
    ensures Value(items, taken) == 0
    decreases |taken|
  {
    if taken != [] {
      WeightlessWorthless(items, taken[..|taken| - 1]);
    }
  }

  /** When item `i - 1` fits in a positive capacity, its entry is at least
      its value plus the entry for the capacity left without it. */
  lemma CellFits(items: seq<Item>, k: nat, i: nat)
    requires 1 <= i <= |items| && 1 <= k && items[i - 1].weight <= k
    ensures Cell(items, k, i) >= Cell(items, k - items[i - 1].weight, i - 1) + items[i - 1].value
  {
  }

  /** With positive weights, the table entry for capacity `k` and the first
      `i` items bounds the value of every selection among those items whose
      weight fits in `k`. */
  lemma {:induction false} CellOptimal(items: seq<Item>, k: nat, taken: seq<bool>)
    requires |taken| <= |items| && forall j :: 0 <= j < |items| ==> items[j].weight >= 1
    requires Weight(items, taken) <= k
    ensures Value(items, taken) <= Cell(items, k, |taken|)
    decreases |taken|
  {
    var i := |taken|;
    if i == 0 {
    } else if k == 0 {
      WeightlessWorthless(items, taken);
    } else {
      var rest := taken[..i - 1];
      if taken[i - 1] {
        CellOptimal(items, k - items[i - 1].weight, rest);
        CellFits(items, k, i);
      } else {
        CellOptimal(items, k, rest);
      }
    }
  }

  /** With positive weights, the last entry bounds every selection of all the
      items that fits in the capacity. */
  lemma TableOptimal(items: seq<Item>, capacity: nat)
    requires forall j :: 0 <= j < |items| ==> items[j].weight >= 1
    ensures forall other :: |other| == |items| && Weight(items, other) <= capacity ==>
              Value(items, other) <= Cell(items, capacity, |items|)
  {
    forall other | |other| == |items| && Weight(items, other) <= capacity
      ensures Value(items, other) <= Cell(items, capacity, |items|)
    {
      CellOptimal(items, capacity, other);
    }
  }

  /** Row 0 of the table is never filled, so an item of weight zero is
      counted only where some capacity is left: with capacity 1 and the items
      (value 5, weight 0) and (value 3, weight 1), the last entry is 5 while
      taking both weighs 1 and is worth 8. */
  lemma ZeroWeightShortfall()
    ensures var items := [Item(0, 5, 0), Item(1, 3, 1)];
            && Cell(items, 1, 2) == 5
            && Weight(items, [true, true]) == 1 && Value(items, [true, true]) == 8
  {
    var items := [Item(0, 5, 0), Item(1, 3, 1)];
    assert Cell(items, 1, 1) == 5;
    assert Cell(items, 0, 1) == 0;
    assert [true, true][..1] == [true];
    assert [true][..0] == [];
  }

  /** The table holds `Cell` in every row before `k` and in row `k` before
      column `i`, and zero in column 0 of the rows after. */
  ghost predicate Filled(a: array2<UInt32>, items: seq<Item>, k: nat, i: nat)
    reads a
  {
    && a.Length1 == |items| + 1 && k <= a.Length0 && i <= |items| + 1
    && (forall k', i' :: 0 <= k' < k && 0 <= i' <= |items| ==> a[k', i'] as int == Cell(items, k', i'))
    && (k < a.Length0 ==> forall i' :: 0 <= i' < i ==> a[k, i'] as int == Cell(items, k, i'))
    && (forall k' :: k < k' < a.Length0 ==> a[k', 0] == 0)
  }

  /** An entry is at least the one to its left, and differs from it only when
      the item fits and its value was added. */
  lemma CellTaken(items: seq<Item>, k: nat, i: nat)
    requires 1 <= i <= |items|
    ensures Cell(items, k, i) >= Cell(items, k, i - 1)
    ensures Cell(items, k, i) != Cell(items, k, i - 1) ==>
              1 <= k && items[i - 1].weight <= k &&
              Cell(items, k, i) == Cell(items, k - items[i - 1].weight, i - 1) + items[i - 1].value
  {
  }

  /** The traceback's invariant: `taken` decides the last `|items| - i`
      items, and with the first `i` left out its value plus the entry still
      to explain is the objective, and its weight plus the capacity left is
      the capacity. */
  ghost predicate Traced(items: seq<Item>, capacity: nat, obj: nat, k: nat, i: nat, taken: seq<bool>)
  {
    && i <= |items| && |taken| == |items| - i
    && Value(items, Nothing(i) + taken) + Cell(items, k, i) == obj
    && Weight(items, Nothing(i) + taken) + k == capacity
  }

  /** A traceback step that finds the entry equal to the one to its left
      leaves item `i - 1` out and keeps the invariant. */
  lemma TraceSkip(items: seq<Item>, capacity: nat, obj: nat, k: nat, i: nat, taken: seq<bool>)
    requires 1 <= i && Traced(items, capacity, obj, k, i, taken)
    requires Cell(items, k, i) == Cell(items, k, i - 1)
    ensures Traced(items, capacity, obj, k, i - 1, [false] + taken)
  {
    assert Nothing(i - 1) + ([false] + taken) == Nothing(i) + taken;
  }

  /** A traceback step that finds the entry different from the one to its
      left takes item `i - 1`, which fits, and keeps the invariant with its
      weight moved from the capacity left to the selection. */
  lemma TraceTake(items: seq<Item>, capacity: nat, obj: nat, k: nat, i: nat, taken: seq<bool>)
    requires 1 <= i && Traced(items, capacity, obj, k, i, taken)
    requires Cell(items, k, i) != Cell(items, k, i - 1)
    ensures items[i - 1].weight <= k
    ensures Traced(items, capacity, obj, k - items[i - 1].weight, i - 1, [true] + taken)
  {
    CellTaken(items, k, i);
    var before := Nothing(i) + taken;
    assert Nothing(i - 1) + ([true] + taken) == before[i - 1 := true];
    SelectOne(items, before, i - 1);
  }

  /** Growing the capacity never lowers an entry. */
  lemma {:induction false} CellGrows(items: seq<Item>, k: nat, i: nat)
    requires i <= |items|
    ensures Cell(items, k, i) <= Cell(items, k + 1, i)
    decreases i
  {
    if i > 0 && k > 0 {
      var w := items[i - 1].weight;
      CellGrows(items, k, i - 1);
      if w <= k {
        CellGrows(items, k - w, i - 1);
      }
    }
  }

  /** Every entry of the table is at most the last one. */
  lemma {:induction false} CellBounded(items: seq<Item>, capacity: nat, k: nat, i: nat)
    requires k <= capacity && i <= |items|
    ensures Cell(items, k, i) <= Cell(items, capacity, |items|)
    decreases capacity - k, |items| - i
  {
    if k < capacity {
      CellGrows(items, k, i);
      CellBounded(items, capacity, k + 1, i);
    } else if i < |items| {
      CellBounded(items, capacity, k, i + 1);
    }
  }

  /** Fills the table row by row. It stops with `overflow` set when an entry
      does not fit in its slot, which happens exactly when the last entry
      does not; otherwise entry `(k, i)` is `Cell(items, k, i)` for every
      capacity up to `capacity` and every number of items up to `|items|`. */
  method FillTable(capacity: nat, items: seq<Item>) returns (a: array2<UInt32>, overflow: bool)
    ensures fresh(a) && a.Length0 == capacity + 1 && a.Length1 == |items| + 1
    ensures overflow <==> Cell(items, capacity, |items|) >= 0x1_0000_0000
    ensures !overflow ==>
              forall k, i :: 0 <= k <= capacity && 0 <= i <= |items| ==> a[k, i] as int == Cell(items, k, i)
  {
    a := new UInt32[capacity + 1, |items| + 1]((_, _) => 0);
    for k := 1 to capacity + 1
      invariant Filled(a, items, k, 1)
    {
      for i := 1 to |items| + 1
        invariant Filled(a, items, k, i)
      {
        var item := items[i - 1];
        var best: nat;
        if item.weight > k {
          best := a[k, i - 1] as nat;
        } else {
          best := Max(a[k, i - 1] as nat, a[k - item.weight, i - 1] as nat + item.value);
        }
        assert best == Cell(items, k, i);
        if best >= 0x1_0000_0000 {
          CellBounded(items, capacity, k, i);
          return a, true;
        }
        a[k, i] := best as UInt32;
      }
    }
    overflow := false;
  }

  /** Solves the instance. With no capacity or no items the source reads a
      loop variable that was never bound; when the best value does not fit
      in a 32-bit slot the fill fails. Otherwise `obj` is the last table
      entry and `taken` marks, in item order, the items whose selection
      reaches exactly `obj` within the capacity; when every weight is
      positive, no selection that fits does better. */
  method SolveKnapsack(capacity: nat, items: seq<Item>) returns (r: Result<(nat, seq<bool>)>)
    ensures capacity == 0 || |items| == 0 ==> r == Err(UnboundLocalError)
    ensures capacity >= 1 && |items| >= 1 ==>
              (r == Err(OverflowError) <==> Cell(items, capacity, |items|) >= 0x1_0000_0000)
    ensures capacity >= 1 && |items| >= 1 && Cell(items, capacity, |items|) < 0x1_0000_0000 ==> r.Ok?
    ensures r.Ok? ==> Solved(items, capacity, r.value.0, r.value.1)
  {
    if capacity == 0 || |items| == 0 {
      return Err(UnboundLocalError);
    }
    var a, overflow := FillTable(capacity, items);
    if overflow {
      return Err(OverflowError);
    }
    var obj := a[capacity, |items|] as nat;
    var taken := Traceback(a, capacity, items);
    if forall j :: 0 <= j < |items| ==> items[j].weight >= 1 {
      TableOptimal(items, capacity);
    }
    return Ok((obj, taken));
  }

  /** Walks back from the last entry of a filled table: an item is taken
      exactly when its entry differs from the one to its left, and then its
      weight leaves the capacity. The flags select items worth exactly the
      last entry, within the capacity. */
  method Traceback(a: array2<UInt32>, capacity: nat, items: seq<Item>) returns (taken: seq<bool>)
    requires a.Length0 == capacity + 1 && a.Length1 == |items| + 1
    requires forall k, i :: 0 <= k <= capacity && 0 <= i <= |items| ==> a[k, i] as int == Cell(items, k, i)
    ensures |taken| == |items|
    ensures Value(items, taken) == Cell(items, capacity, |items|) && Weight(items, taken) <= capacity
  {
    var k: nat := capacity;
    var i: nat := |items|;
    ghost var obj := Cell(items, k, i);
    taken := [];
    NothingSelected(items, i);
    assert Nothing(i) + taken == Nothing(i);
    while i > 0
      invariant k <= capacity && Traced(items, capacity, obj, k, i, taken)
    {
      var didTake := a[k, i] != a[k, i - 1];
      if didTake {
        TraceTake(items, capacity, obj, k, i, taken);
        k := k - items[i - 1].weight;
      } else {
        TraceSkip(items, capacity, obj, k, i, taken);
      }
      taken := [didTake] + taken;
      i := i - 1;
    }
    assert Nothing(0) + taken == taken && Cell(items, k, 0) == 0;
  }

  /** What a solution promises: `obj` is the last table entry, `taken` has one
      flag per item and selects items worth exactly `obj` within the
      capacity, and when every weight is positive no selection that fits is
      worth more. */
  ghost predicate Solved(items: seq<Item>, capacity: nat, obj: nat, taken: seq<bool>)
  {
    && obj == Cell(items, capacity, |items|)
    && |taken| == |items|
    && Value(items, taken) == obj && Weight(items, taken) <= capacity
    && ((forall j :: 0 <= j < |items| ==> items[j].weight >= 1) ==>
          forall other :: |other| == |items| && Weight(items, other) <= capacity ==> Value(items, other) <= obj)
  }
}
