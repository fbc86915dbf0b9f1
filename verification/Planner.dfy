/** The `selected` flags of the erase layout and the procedures that set and clear them
    (erasure_layout.c: deselect_erase_functions, select_erase_functions and the
    selection loop of erase_write_helper). */
module Planner {
  import opened Granularity
  import opened EraseBlocks
  import opened Selection

  /** Nodes of levels `0..k` whose blocks lie inside `[lo, hi]`. */
  ghost function Tree(levels: seq<Level>, k: nat, lo: int, hi: int): set<Node>
    requires k < |levels|
  {
    set m: nat, i: nat | m <= k && i < |levels[m]| && Within(levels[m][i], lo, hi) :: Node(m, i)
  }

  /** The nodes of one level between two indices. */
  ghost function Row(k: nat, from: nat, til: nat): set<Node> {
    set i: nat | from <= i < til :: Node(k, i)
  }

  lemma TreeSplit(levels: seq<Level>, size: nat, k: nat, from: nat, upto: nat)
    requires ValidLayout(levels, size) && k < |levels| && from <= upto < |levels[k]|
    ensures var lo, hi := levels[k][from].start, levels[k][upto].end;
            Tree(levels, k, lo, hi) == Row(k, from, upto + 1) + if k == 0 then {} else Tree(levels, k - 1, lo, hi)
  {
    var lo, hi := levels[k][from].start, levels[k][upto].end;
    forall i: nat | i < |levels[k]| ensures Within(levels[k][i], lo, hi) <==> from <= i <= upto {
      RowGeometry(levels, size, k, from, upto, i);
    }
  }

  lemma RowGeometry(levels: seq<Level>, size: nat, k: nat, from: nat, upto: nat, i: nat)
    requires ValidLayout(levels, size) && k < |levels| && from <= upto < |levels[k]| && i < |levels[k]|
    ensures Within(levels[k][i], levels[k][from].start, levels[k][upto].end) <==> from <= i <= upto
  {
    IsTiling(levels, size, k);
    if i < from { TilingOrdered(levels[k], size, i, from); }
    if from < i { TilingOrdered(levels[k], size, from, i); }
    if i < upto { TilingOrdered(levels[k], size, i, upto); }
    if upto < i { TilingOrdered(levels[k], size, upto, i); }
  }

  /** What is selected below one block stays inside its tree. */
  lemma SelInTree(q: Job, k: nat, j: nat)
    requires q.Ok() && k < |q.levels| && j < |q.levels[k]|
    ensures Sel(q, k, j) <= Tree(q.levels, k, q.levels[k][j].start, q.levels[k][j].end)
  {
    forall n | n in Sel(q, k, j) ensures n in Tree(q.levels, k, q.levels[k][j].start, q.levels[k][j].end) {
      SelWithin(q, k, j, n);
    }
  }

  /** Trees of different blocks of one level have no node in common. */
  lemma TreesApart(q: Job, k: nat, from: nat, i: nat)
    requires q.Ok() && k < |q.levels| && from <= i < |q.levels[k]|
    ensures SelRange(q, k, from, i) !! Tree(q.levels, k, q.levels[k][i].start, q.levels[k][i].end)
  {
    forall n | n in SelRange(q, k, from, i)
      ensures n !in Tree(q.levels, k, q.levels[k][i].start, q.levels[k][i].end)
    {
      var p := RangeElim(q, k, from, i, n);
      SelWithin(q, k, p, n);
      IsTiling(q.levels, q.size, k);
      TilingOrdered(q.levels[k], q.size, p, i);
      IsBlock(q.levels, q.size, n.level, n.index);
    }
  }

  lemma SubTree(q: Job, k: nat, j: nat, i: nat)
    requires q.Ok() && 0 < k < |q.levels| && j < |q.levels[k]| && q.First(k, j) <= i < q.End(k, j)
    ensures Tree(q.levels, k - 1, q.levels[k - 1][i].start, q.levels[k - 1][i].end)
         <= Tree(q.levels, k, q.levels[k][j].start, q.levels[k][j].end)
    ensures Node(k - 1, i) in Tree(q.levels, k - 1, q.levels[k - 1][i].start, q.levels[k - 1][i].end)
  {
    SubBlock(q, k, j, i);
  }

  class EraseLayout {
    const levels: seq<Level>
    const size: nat
    var selected: seq<seq<bool>>

    ghost predicate Valid()
      reads this
    {
      && ValidLayout(levels, size)
      && |selected| == |levels|
      && forall k | 0 <= k < |levels| :: |selected[k]| == |levels[k]|
    }

    /** The set of selected blocks. */
    ghost function Flags(): set<Node>
      reads this
    {
      set k: nat, j: nat | k < |selected| && j < |selected[k]| && selected[k][j] :: Node(k, j)
    }

    /** A fresh layout has no block selected. */
    constructor (levels: seq<Level>, size: nat)
      requires ValidLayout(levels, size)
      ensures Valid() && this.levels == levels && this.size == size && Flags() == {}
    {
      this.levels := levels;
      this.size := size;
      this.selected := seq(|levels|, k requires 0 <= k < |levels| => seq(|levels[k]|, j => false));
    }

    method Mark(k: nat, j: nat, value: bool)
      requires Valid() && k < |levels| && j < |levels[k]|
      modifies this`selected
      ensures Valid()
      ensures Flags() == if value then old(Flags()) + {Node(k, j)} else old(Flags()) - {Node(k, j)}
      ensures value == (Node(k, j) in Flags())
    {
      selected := selected[k := selected[k][j := value]];
      var k', j' := k, j;
      assert selected[k'][j'] == value;
    }

    /** Clears the flags of blocks `from..upto` of level `k` and of everything below. */
    method Deselect(k: nat, from: nat, upto: nat)
      requires Valid() && k < |levels| && from <= upto < |levels[k]|
      modifies this`selected
      ensures Valid()
      ensures Flags() == old(Flags()) - Tree(levels, k, levels[k][from].start, levels[k][upto].end)
      decreases k
    {
      for j := from to upto + 1
        invariant Valid() && Flags() == old(Flags()) - Row(k, from, j)
      {
        Mark(k, j, false);
      }
      TreeSplit(levels, size, k, from, upto);
      if k > 0 {
        IsLinked(levels, size, k);
        Deselect(k - 1, levels[k][from].first, levels[k][upto].last) by {
          LinkOrder(levels[k - 1], levels[k], size, from, upto);
        }
      }
    }

    /** Selects what has to be erased below block `j` of level `k`. */
    method Select(k: nat, j: nat, cur: array<byte>, new': array<byte>, g: WriteGranularity, ev: byte,
                  lo: nat, hi: nat, ratio: nat)
      requires Valid() && k < |levels| && j < |levels[k]|
      requires cur.Length == size && new'.Length == size && BlocksOnGrid(levels[0], g)
      requires Flags() !! Tree(levels, k, levels[k][j].start, levels[k][j].end)
      modifies this`selected
      ensures Valid()
      ensures Flags() == old(Flags()) + Sel(JobFor(cur[..], new'[..], g, ev, lo, hi, ratio), k, j)
      decreases k, 0
    {
      if k == 0 {
        SelectSmallest(j, cur, new', g, ev, lo, hi, ratio);
      } else {
        ghost var before := Flags();
        ghost var q := JobFor(cur[..], new'[..], g, ev, lo, hi, ratio);
        var count := SelectChildren(k, j, cur, new', g, ev, lo, hi, ratio, q, before);
        Promote(k, j, count, lo, hi, ratio, q, before);
      }
    }

    method SelectSmallest(j: nat, cur: array<byte>, new': array<byte>, g: WriteGranularity, ev: byte,
                          lo: nat, hi: nat, ratio: nat)
      requires Valid() && j < |levels[0]| && Node(0, j) !in Flags()
      requires cur.Length == size && new'.Length == size && BlocksOnGrid(levels[0], g)
      modifies this`selected
      ensures Valid()
      ensures Flags() == old(Flags()) + Sel(JobFor(cur[..], new'[..], g, ev, lo, hi, ratio), 0, j)
    {
      var b := levels[0][j];
      IsBlock(levels, size, 0, j);
      if b.start >= lo && b.end <= hi {
        assert OnGrid(b.start, Stride(g));
        var need := NeedErase(cur, new', b.start, b.end - b.start + 1, g, ev);
        assert need == JobFor(cur[..], new'[..], g, ev, lo, hi, ratio).need[j];
        Mark(0, j, need);
      }
    }

    /** Replaces the selected sub-blocks by their common block if few enough are spared. */
    method Promote(k: nat, j: nat, count: nat, lo: nat, hi: nat, ratio: nat, ghost q: Job, ghost before: set<Node>)
      requires Valid() && 0 < k < |levels| && j < |levels[k]|
      requires q.Ok() && q.levels == levels && q.size == size && q.lo == lo && q.hi == hi && q.ratio == ratio
      requires before !! Tree(levels, k, levels[k][j].start, levels[k][j].end)
      requires Flags() == before + SelRange(q, k - 1, q.First(k, j), q.End(k, j))
      requires count == Count(q, k - 1, q.First(k, j), q.End(k, j))
      modifies this`selected
      ensures Valid()
      ensures Flags() == before + Sel(q, k, j)
    {
      IsLinked(levels, size, k);
      var b := levels[k][j];
      var total := b.last - b.first + 1;
      if total - count <= total * ratio / 100 && b.start >= lo && b.end <= hi {
        assert Promoted(q, k, j);
        Deselect(k - 1, b.first, b.last);
        Mark(k, j, true);
        PromotedFlags(q, k, j, before);
      }
    }

    /** The loop over the sub-blocks of block `j`; returns how many of them are selected. */
    method SelectChildren(k: nat, j: nat, cur: array<byte>, new': array<byte>, g: WriteGranularity, ev: byte,
                          lo: nat, hi: nat, ratio: nat, ghost q: Job, ghost before: set<Node>) returns (count: nat)
      requires Valid() && 0 < k < |levels| && j < |levels[k]|
      requires cur.Length == size && new'.Length == size && BlocksOnGrid(levels[0], g)
      requires q == JobFor(cur[..], new'[..], g, ev, lo, hi, ratio)
      requires before == Flags() && before !! Tree(levels, k, levels[k][j].start, levels[k][j].end)
      modifies this`selected
      ensures Valid()
      ensures Flags() == before + SelRange(q, k - 1, q.First(k, j), q.End(k, j))
      ensures count == Count(q, k - 1, q.First(k, j), q.End(k, j))
      decreases k - 1, 2
    {
      count := 0;
      var first, end := SubBlockRange(k, j, q);
      for i := first to end
        invariant Valid()
        invariant Flags() == before + SelRange(q, k - 1, first, i)
        invariant count == Count(q, k - 1, first, i)
      {
        CountStep(q, k - 1, first, i);
        var chosen := SelectChild(k, j, i, cur, new', g, ev, lo, hi, ratio, q, before);
        if chosen {
          count := count + 1;
        }
      }
    }

    method SubBlockRange(k: nat, j: nat, ghost q: Job) returns (first: nat, end: nat)
      requires Valid() && 0 < k < |levels| && j < |levels[k]|
      requires q.Ok() && q.levels == levels
      ensures first == q.First(k, j) && end == q.End(k, j)
    {
      IsLinked(levels, size, k);
      first, end := levels[k][j].first, levels[k][j].last + 1;
    }

    method SelectChild(k: nat, j: nat, i: nat, cur: array<byte>, new': array<byte>, g: WriteGranularity, ev: byte,
                       lo: nat, hi: nat, ratio: nat, ghost q: Job, ghost before: set<Node>) returns (chosen: bool)
      requires Valid() && 0 < k < |levels| && j < |levels[k]|
      requires cur.Length == size && new'.Length == size && BlocksOnGrid(levels[0], g)
      requires q == JobFor(cur[..], new'[..], g, ev, lo, hi, ratio) && q.First(k, j) <= i < q.End(k, j)
      requires before !! Tree(levels, k, levels[k][j].start, levels[k][j].end)
      requires Flags() == before + SelRange(q, k - 1, q.First(k, j), i)
      modifies this`selected
      ensures Valid() && Flags() == before + SelRange(q, k - 1, q.First(k, j), i + 1)
      ensures chosen <==> Node(k - 1, i) in Sel(q, k - 1, i)
      decreases k - 1, 1
    {
      ChildReady(q, k, j, q.First(k, j), i, before);
      Select(k - 1, i, cur, new', g, ev, lo, hi, ratio);
      chosen := IsSelected(k - 1, i);
    }

    method IsSelected(k: nat, j: nat) returns (r: bool)
      requires Valid() && k < |levels| && j < |levels[k]|
      ensures r <==> Node(k, j) in Flags()
    {
      r := selected[k][j];
    }

    /** Selects over the whole layout, visiting the coarsest blocks that meet the region. */
    method SelectAll(cur: array<byte>, new': array<byte>, g: WriteGranularity, ev: byte, lo: nat, hi: nat, ratio: nat)
      requires Valid() && Flags() == {}
      requires cur.Length == size && new'.Length == size && BlocksOnGrid(levels[0], g)
      modifies this`selected
      ensures Valid()
      ensures Flags() == SelAll(JobFor(cur[..], new'[..], g, ev, lo, hi, ratio))
    {
      ghost var q := JobFor(cur[..], new'[..], g, ev, lo, hi, ratio);
      var top := |levels| - 1;
      for i := 0 to |levels[top]|
        invariant Valid() && Flags() == SelRange(q, top, 0, i)
      {
        if levels[top][i].start <= hi && lo <= levels[top][i].end {
          TreesApart(q, top, 0, i);
          Select(top, i, cur, new', g, ev, lo, hi, ratio);
        } else {
          SelOutside(q, top, i);
        }
      }
    }

    /** The planning problem posed by two images of the chip. */
    ghost function JobFor(cur: Image, new': Image, g: WriteGranularity, ev: byte, lo: nat, hi: nat,
                          ratio: nat): (q: Job)
      requires ValidLayout(levels, size) && |cur| == size && |new'| == size
      ensures q.Ok()
    {
      Job(levels, size, Needs(levels, size, cur, new', g, ev), lo, hi, ratio)
    }
  }

  lemma {:induction false} LinkOrder(fine: Level, coarse: Level, size: nat, from: nat, upto: nat)
    requires Linked(fine, coarse) && from <= upto < |coarse|
    ensures 0 <= coarse[from].first <= coarse[upto].last < |fine|
    ensures fine[coarse[from].first].start == coarse[from].start
    ensures fine[coarse[upto].last].end == coarse[upto].end
  {
    if from < upto {
      LinkOrder(fine, coarse, size, from, upto - 1);
    }
  }

  /** Every smallest block is a whole number of write chunks. */
  ghost predicate BlocksOnGrid(lv: Level, g: WriteGranularity) {
    forall i | 0 <= i < |lv| :: OnGrid(lv[i].start, Stride(g)) && OnGrid(lv[i].end + 1, Stride(g))
  }

  /** Before sub-block `i` is visited nothing below it is selected. */
  lemma ChildReady(q: Job, k: nat, j: nat, first: nat, i: nat, before: set<Node>)
    requires q.Ok() && 0 < k < |q.levels| && j < |q.levels[k]| && first == q.First(k, j) <= i < q.End(k, j)
    requires before !! Tree(q.levels, k, q.levels[k][j].start, q.levels[k][j].end)
    ensures before + SelRange(q, k - 1, first, i)
         !! Tree(q.levels, k - 1, q.levels[k - 1][i].start, q.levels[k - 1][i].end)
    ensures Node(k - 1, i) !in before + SelRange(q, k - 1, first, i)
  {
    TreesApart(q, k - 1, first, i);
    SubTree(q, k, j, i);
  }

  /** Clearing the subtree of a promoted block leaves only that block selected in it. */
  lemma PromotedFlags(q: Job, k: nat, j: nat, before: set<Node>)
    requires q.Ok() && 0 < k < |q.levels| && j < |q.levels[k]| && Promoted(q, k, j)
    requires before !! Tree(q.levels, k, q.levels[k][j].start, q.levels[k][j].end)
    ensures var b := q.levels[k][j];
            && Linked(q.levels[k - 1], q.levels[k])
            && var cleared := Tree(q.levels, k - 1, q.levels[k - 1][b.first].start, q.levels[k - 1][b.last].end);
            before + SelRange(q, k - 1, q.First(k, j), q.End(k, j)) - cleared + {Node(k, j)} == before + Sel(q, k, j)
  {
    var b := q.levels[k][j];
    IsLinked(q.levels, q.size, k);
    var cleared := Tree(q.levels, k - 1, b.start, b.end);
    assert cleared <= Tree(q.levels, k, b.start, b.end);
    forall n | n in SelRange(q, k - 1, q.First(k, j), q.End(k, j)) ensures n in cleared {
      var i := RangeElim(q, k - 1, q.First(k, j), q.End(k, j), n);
      SelInTree(q, k - 1, i);
      SubBlock(q, k, j, i);
    }
  }

  ghost function Needs(levels: seq<Level>, size: nat, cur: Image, new': Image, g: WriteGranularity,
                       ev: byte): (need: seq<bool>)
    requires ValidLayout(levels, size) && |cur| == size && |new'| == size
    ensures |need| == |levels[0]|
  {
    seq(|levels[0]|, i requires 0 <= i < |levels[0]| =>
      IsBlock(levels, size, 0, i);
      NeedsErase(g, ev, cur, new', levels[0][i].start, levels[0][i].end + 1))
  }
}
