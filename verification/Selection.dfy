/** Which erase blocks the planner picks (erasure_layout.c: select_erase_functions),
    as a function, and what that choice guarantees. */
module Selection {
  import opened EraseBlocks

  datatype Node = Node(level: nat, index: nat)

  /** One planning problem: the layout, which smallest blocks need an erase, the
      region to stay in, and the sacrifice ratio in percent. */
  datatype Job = Job(levels: seq<Level>, size: nat, need: seq<bool>, lo: nat, hi: nat, ratio: nat) {

    ghost predicate Ok() {
      ValidLayout(levels, size) && |need| == |levels[0]|
    }

    ghost predicate Has(n: Node) {
      n.level < |levels| && n.index < |levels[n.level]|
    }

    ghost function At(n: Node): Block
      requires Has(n)
    {
      levels[n.level][n.index]
    }

    ghost predicate Inside(b: Block) {
      Within(b, lo, hi)
    }

    /** The sub-blocks of block `j` of level `k` are `First(k, j)..End(k, j)` below. */
    ghost function First(k: nat, j: nat): (i: nat)
      requires Ok() && 0 < k < |levels| && j < |levels[k]|
      ensures i == levels[k][j].first && i < |levels[k - 1]|
    {
      IsLinked(levels, size, k);
      levels[k][j].first
    }

    ghost function End(k: nat, j: nat): (i: nat)
      requires Ok() && 0 < k < |levels| && j < |levels[k]|
      ensures i == levels[k][j].last + 1 && First(k, j) < i <= |levels[k - 1]|
    {
      IsLinked(levels, size, k);
      levels[k][j].last + 1
    }

    /** Smallest block `i` lies in the region and needs an erase. */
    ghost predicate Due(i: nat)
      requires Ok() && i < |levels[0]|
    {
      need[i] && Inside(levels[0][i])
    }
  }

  // ----- The selection ---------------------------------------------------------

  /** Blocks selected in the subtree of block `j` of level `k`. */
  ghost function Sel(q: Job, k: nat, j: nat): set<Node>
    requires q.Ok() && k < |q.levels| && j < |q.levels[k]|
    decreases k, 0
  {
    if k == 0 then
      if q.Due(j) then {Node(0, j)} else {}
    else
      if Promoted(q, k, j) then {Node(k, j)} else SelRange(q, k - 1, q.First(k, j), q.End(k, j))
  }

  /** Number of sub-blocks that may be erased without need. */
  function Tolerated(total: nat, ratio: nat): (r: nat)
    ensures ratio == 0 ==> r == 0
    ensures total > 0 && ratio < 100 ==> r < total
  {
    assert ratio < 100 ==> total * ratio <= total * 99;
    total * ratio / 100
  }

  /** Few enough sub-blocks are spared for one coarse erase to replace the others. */
  ghost predicate Promoted(q: Job, k: nat, j: nat)
    requires q.Ok() && 0 < k < |q.levels| && j < |q.levels[k]|
    decreases k - 1, 2
  {
    var total := q.End(k, j) - q.First(k, j);
    total - Count(q, k - 1, q.First(k, j), q.End(k, j)) <= Tolerated(total, q.ratio) && q.Inside(q.levels[k][j])
  }

  ghost function SelRange(q: Job, k: nat, from: nat, til: nat): set<Node>
    requires q.Ok() && k < |q.levels| && from <= til <= |q.levels[k]|
    decreases k, 1, til
  {
    if from == til then {} else SelRange(q, k, from, til - 1) + Sel(q, k, til - 1)
  }

  /** Number of blocks `from..to` of level `k` that are selected themselves. */
  ghost function Count(q: Job, k: nat, from: nat, til: nat): (n: nat)
    requires q.Ok() && k < |q.levels| && from <= til <= |q.levels[k]|
    ensures n <= til - from
    decreases k, 1, til
  {
    if from == til then 0
    else Count(q, k, from, til - 1) + if Node(k, til - 1) in Sel(q, k, til - 1) then 1 else 0
  }

  lemma CountStep(q: Job, k: nat, from: nat, i: nat)
    requires q.Ok() && k < |q.levels| && from <= i < |q.levels[k]|
    ensures Count(q, k, from, i + 1) == Count(q, k, from, i) + if Node(k, i) in Sel(q, k, i) then 1 else 0
  {
  }

  /** The selection over all blocks of the coarsest level. */
  ghost function SelAll(q: Job): set<Node>
    requires q.Ok()
  {
    SelRange(q, |q.levels| - 1, 0, |q.levels[|q.levels| - 1]|)
  }

  // ----- Ranges ----------------------------------------------------------------

  lemma {:induction false} RangeElim(q: Job, k: nat, from: nat, til: nat, n: Node) returns (i: nat)
    requires q.Ok() && k < |q.levels| && from <= til <= |q.levels[k]|
    requires n in SelRange(q, k, from, til)
    ensures from <= i < til && n in Sel(q, k, i)
    decreases til
  {
    i := til - 1;
    if n !in Sel(q, k, i) {
      i := RangeElim(q, k, from, til - 1, n);
    }
  }

  lemma {:induction false} RangeIntro(q: Job, k: nat, from: nat, til: nat, i: nat)
    requires q.Ok() && k < |q.levels| && from <= i < til <= |q.levels[k]|
    ensures Sel(q, k, i) <= SelRange(q, k, from, til)
    decreases til
  {
    if i < til - 1 {
      RangeIntro(q, k, from, til - 1, i);
    }
  }

  lemma {:induction false} CountPositive(q: Job, k: nat, from: nat, til: nat) returns (i: nat)
    requires q.Ok() && k < |q.levels| && from <= til <= |q.levels[k]|
    requires Count(q, k, from, til) > 0
    ensures from <= i < til && Node(k, i) in Sel(q, k, i)
    decreases til
  {
    i := til - 1;
    if Node(k, i) !in Sel(q, k, i) {
      i := CountPositive(q, k, from, til - 1);
    }
  }

  /** Block `i` of level `k` is selected unless a coarser block replaces it. */
  ghost predicate Own(q: Job, k: nat, i: nat)
    requires q.Ok() && k < |q.levels| && i < |q.levels[k]|
  {
    Node(k, i) in Sel(q, k, i)
  }

  ghost predicate AllOwn(q: Job, k: nat, from: nat, til: nat)
    requires q.Ok() && k < |q.levels| && from <= til <= |q.levels[k]|
  {
    forall i | from <= i < til :: Own(q, k, i)
  }

  lemma {:induction false} CountFull(q: Job, k: nat, from: nat, til: nat)
    requires q.Ok() && k < |q.levels| && from <= til <= |q.levels[k]|
    ensures Count(q, k, from, til) == til - from <==> AllOwn(q, k, from, til)
    decreases til
  {
    if from < til {
      CountFull(q, k, from, til - 1);
      assert AllOwn(q, k, from, til) <==> AllOwn(q, k, from, til - 1) && Own(q, k, til - 1);
    }
  }

  /** The sub-blocks of a block are exactly the blocks of the next level inside it. */
  lemma SubBlock(q: Job, k: nat, j: nat, i: nat)
    requires q.Ok() && 0 < k < |q.levels| && j < |q.levels[k]| && i < |q.levels[k - 1]|
    ensures q.First(k, j) <= i < q.End(k, j) ==>
              Within(q.levels[k - 1][i], q.levels[k][j].start, q.levels[k][j].end)
    ensures i < q.First(k, j) ==> q.levels[k - 1][i].end < q.levels[k][j].start
    ensures i >= q.End(k, j) ==> q.levels[k - 1][i].start > q.levels[k][j].end
  {
    IsLinked(q.levels, q.size, k);
    IsTiling(q.levels, q.size, k);
    IsTiling(q.levels, q.size, k - 1);
    SubBlocks(q.levels[k - 1], q.levels[k], q.size, j, i);
  }

  /** Two blocks of one level that share a byte are the same block. */
  lemma SameBlock(q: Job, k: nat, i: nat, j: nat, a: nat)
    requires q.Ok() && k < |q.levels| && i < |q.levels[k]| && j < |q.levels[k]|
    requires Holds(q.levels[k][i], a) && Holds(q.levels[k][j], a)
    ensures i == j
  {
    IsTiling(q.levels, q.size, k);
    TilingUnique(q.levels[k], q.size, i, j, a);
  }

  /** A selected node of an unpromoted block is selected below one of its sub-blocks. */
  lemma Below(q: Job, k: nat, j: nat, n: Node) returns (i: nat)
    requires q.Ok() && 0 < k < |q.levels| && j < |q.levels[k]|
    requires n in Sel(q, k, j) && !Promoted(q, k, j)
    ensures i < |q.levels[k - 1]| && n in Sel(q, k - 1, i)
    ensures q.First(k, j) <= i < q.End(k, j)
    ensures Within(q.levels[k - 1][i], q.levels[k][j].start, q.levels[k][j].end)
  {
    i := RangeElim(q, k - 1, q.First(k, j), q.End(k, j), n);
    SubBlock(q, k, j, i);
  }

  /** The sub-block of block `j` of level `k` that contains a given finer block of it. */
  lemma Child(q: Job, k: nat, j: nat, m: Node) returns (p: nat)
    requires q.Ok() && 0 < k < |q.levels| && j < |q.levels[k]| && q.Has(m) && m.level < k
    requires Within(q.At(m), q.levels[k][j].start, q.levels[k][j].end)
    ensures p < |q.levels[k - 1]| && q.First(k, j) <= p < q.End(k, j)
    ensures Within(q.At(m), q.levels[k - 1][p].start, q.levels[k - 1][p].end)
    ensures Within(q.levels[k - 1][p], q.levels[k][j].start, q.levels[k][j].end)
  {
    p := Enclosing(q.levels, q.size, m.level, m.index, k - 1);
    IsBlock(q.levels, q.size, m.level, m.index);
    SubBlock(q, k, j, p);
  }

  // ----- Where selected blocks lie ---------------------------------------------

  lemma {:induction false} SelWithin(q: Job, k: nat, j: nat, n: Node)
    requires q.Ok() && k < |q.levels| && j < |q.levels[k]| && n in Sel(q, k, j)
    ensures q.Has(n) && n.level <= k && q.Inside(q.At(n))
    ensures Within(q.At(n), q.levels[k][j].start, q.levels[k][j].end)
    decreases k
  {
    if k > 0 && !Promoted(q, k, j) {
      var i := Below(q, k, j, n);
      SelWithin(q, k - 1, i, n);
    }
  }

  /** A smallest block is selected only if it needs an erase itself. */
  lemma {:induction false} SelSmallest(q: Job, k: nat, j: nat, n: Node)
    requires q.Ok() && k < |q.levels| && j < |q.levels[k]| && n in Sel(q, k, j) && n.level == 0
    ensures q.Has(n) && q.Due(n.index)
    decreases k
  {
    if k > 0 {
      var i := Below(q, k, j, n);
      SelSmallest(q, k - 1, i, n);
    }
  }

  /** A block that does not meet the region has nothing selected below it. */
  lemma SelOutside(q: Job, k: nat, j: nat)
    requires q.Ok() && k < |q.levels| && j < |q.levels[k]|
    requires !(q.levels[k][j].start <= q.hi && q.lo <= q.levels[k][j].end)
    ensures Sel(q, k, j) == {}
  {
    if Sel(q, k, j) != {} {
      var n :| n in Sel(q, k, j);
      SelWithin(q, k, j, n);
      IsBlock(q.levels, q.size, n.level, n.index);
    }
  }

  lemma {:induction false} SelDisjoint(q: Job, k: nat, j: nat, n: Node, m: Node, a: nat)
    requires q.Ok() && k < |q.levels| && j < |q.levels[k]| && n in Sel(q, k, j) && m in Sel(q, k, j)
    requires q.Has(n) && q.Has(m) && Holds(q.At(n), a) && Holds(q.At(m), a)
    ensures n == m
    decreases k
  {
    if k > 0 && !Promoted(q, k, j) {
      var i := Below(q, k, j, n);
      var i' := Below(q, k, j, m);
      SelWithin(q, k - 1, i, n);
      SelWithin(q, k - 1, i', m);
      SameBlock(q, k - 1, i, i', a);
      SelDisjoint(q, k - 1, i, n, m, a);
    }
  }

  // ----- What the selection covers ---------------------------------------------

  lemma {:induction false} SelCovers(q: Job, k: nat, j: nat, i: nat) returns (n: Node)
    requires q.Ok() && k < |q.levels| && j < |q.levels[k]| && i < |q.levels[0]| && q.Due(i)
    requires Within(q.levels[0][i], q.levels[k][j].start, q.levels[k][j].end)
    ensures n in Sel(q, k, j) && q.Has(n) && Within(q.levels[0][i], q.At(n).start, q.At(n).end)
    decreases k
  {
    n := Node(k, j);
    if k == 0 {
      IsBlock(q.levels, q.size, 0, i);
      SameBlock(q, 0, i, j, q.levels[0][i].start);
    } else if !Promoted(q, k, j) {
      var p := Child(q, k, j, Node(0, i));
      n := SelCovers(q, k - 1, p, i);
      RangeIntro(q, k - 1, q.First(k, j), q.End(k, j), p);
    }
  }

  lemma {:induction false} SelUseful(q: Job, k: nat, j: nat, n: Node) returns (i: nat)
    requires q.Ok() && k < |q.levels| && j < |q.levels[k]| && n in Sel(q, k, j) && q.ratio < 100
    ensures q.Has(n) && i < |q.levels[0]| && q.Due(i)
    ensures Within(q.levels[0][i], q.At(n).start, q.At(n).end)
    decreases k
  {
    if k == 0 {
      i := j;
    } else if Promoted(q, k, j) {
      var p := CountPositive(q, k - 1, q.First(k, j), q.End(k, j));
      SubBlock(q, k, j, p);
      i := SelUseful(q, k - 1, p, Node(k - 1, p));
    } else {
      var p := Below(q, k, j, n);
      i := SelUseful(q, k - 1, p, n);
    }
  }

  /** A block of the region whose sub-blocks are all selected is promoted ... */
  lemma PromotedIfAll(q: Job, k: nat, j: nat)
    requires q.Ok() && 0 < k < |q.levels| && j < |q.levels[k]|
    requires AllOwn(q, k - 1, q.First(k, j), q.End(k, j)) && q.Inside(q.levels[k][j])
    ensures Promoted(q, k, j)
  {
    CountFull(q, k - 1, q.First(k, j), q.End(k, j));
  }

  /** ... and without sacrifice no other block is. */
  lemma AllIfPromoted(q: Job, k: nat, j: nat)
    requires q.Ok() && 0 < k < |q.levels| && j < |q.levels[k]|
    requires q.ratio == 0 && Promoted(q, k, j)
    ensures AllOwn(q, k - 1, q.First(k, j), q.End(k, j))
  {
    CountFull(q, k - 1, q.First(k, j), q.End(k, j));
  }

  /** Without sacrifice, every smallest block inside a selected block is due. */
  lemma {:induction false} SelExact(q: Job, k: nat, j: nat, n: Node, i: nat)
    requires q.Ok() && k < |q.levels| && j < |q.levels[k]| && n in Sel(q, k, j) && q.ratio == 0
    requires q.Has(n) && i < |q.levels[0]| && Within(q.levels[0][i], q.At(n).start, q.At(n).end)
    ensures q.Due(i)
    decreases k
  {
    if k == 0 {
      IsBlock(q.levels, q.size, 0, i);
      SameBlock(q, 0, i, j, q.levels[0][i].start);
    } else if Promoted(q, k, j) {
      AllIfPromoted(q, k, j);
      var p := Child(q, k, j, Node(0, i));
      assert Own(q, k - 1, p);
      SelExact(q, k - 1, p, Node(k - 1, p), i);
    } else {
      var p := Below(q, k, j, n);
      SelExact(q, k - 1, p, n, i);
    }
  }

  /** All smallest blocks inside block `n` are due. */
  ghost predicate AllDue(q: Job, n: Node)
    requires q.Ok() && q.Has(n)
  {
    forall i | 0 <= i < |q.levels[0]| && Within(q.levels[0][i], q.At(n).start, q.At(n).end) :: q.Due(i)
  }

  lemma AllDueInside(q: Job, n: Node)
    requires q.Ok() && q.Has(n) && AllDue(q, n)
    ensures q.Inside(q.At(n))
  {
    var b := q.At(n);
    var i, i' := SmallestAtEnds(q.levels, q.size, n.level, n.index);
    Laminar(q.levels, q.size, 0, i, n.level, n.index);
    Laminar(q.levels, q.size, 0, i', n.level, n.index);
    IsBlock(q.levels, q.size, 0, i);
    IsBlock(q.levels, q.size, 0, i');
    IsBlock(q.levels, q.size, n.level, n.index);
    assert q.Due(i) && q.Due(i');
  }

  /** A block whose smallest blocks are all due is selected itself. */
  lemma {:induction false} SelWhole(q: Job, k: nat, j: nat)
    requires q.Ok() && k < |q.levels| && j < |q.levels[k]| && AllDue(q, Node(k, j))
    ensures Node(k, j) in Sel(q, k, j)
    decreases k
  {
    AllDueInside(q, Node(k, j));
    if k > 0 {
      var k' := k - 1;
      forall p | q.First(k, j) <= p < q.End(k, j) ensures Own(q, k', p) {
        SubBlock(q, k, j, p);
        AllDueBelow(q, Node(k, j), Node(k - 1, p));
        SelWhole(q, k - 1, p);
      }
      PromotedIfAll(q, k, j);
    } else {
      assert Within(q.levels[0][j], q.levels[0][j].start, q.levels[0][j].end);
    }
  }

  lemma AllDueBelow(q: Job, n: Node, m: Node)
    requires q.Ok() && q.Has(n) && q.Has(m) && AllDue(q, n) && Within(q.At(m), q.At(n).start, q.At(n).end)
    ensures AllDue(q, m)
  {
  }

  lemma SameLevel(q: Job, m: Node, j: nat)
    requires q.Ok() && q.Has(m) && j < |q.levels[m.level]|
    requires Within(q.At(m), q.levels[m.level][j].start, q.levels[m.level][j].end)
    ensures m.index == j
  {
    IsBlock(q.levels, q.size, m.level, m.index);
    SameBlock(q, m.level, m.index, j, q.At(m).start);
  }

  /** Every block made of due blocks only lies inside a selected block. */
  lemma {:induction false} SelMaximal(q: Job, k: nat, j: nat, m: Node) returns (n: Node)
    requires q.Ok() && k < |q.levels| && j < |q.levels[k]|
    requires q.Has(m) && m.level <= k && AllDue(q, m)
    requires Within(q.At(m), q.levels[k][j].start, q.levels[k][j].end)
    ensures n in Sel(q, k, j) && q.Has(n) && Within(q.At(m), q.At(n).start, q.At(n).end)
    decreases k
  {
    n := Node(k, j);
    if m.level == k {
      SameLevel(q, m, j);
      SelWhole(q, k, j);
    } else if !Promoted(q, k, j) {
      var p := Child(q, k, j, m);
      n := SelMaximal(q, k - 1, p, m);
      RangeIntro(q, k - 1, q.First(k, j), q.End(k, j), p);
    }
  }

  // ----- The whole selection ---------------------------------------------------

  /** The block of the coarsest level below which a node was selected. */
  lemma TopOf(q: Job, n: Node) returns (j: nat)
    requires q.Ok() && n in SelAll(q)
    ensures var k := |q.levels| - 1; j < |q.levels[k]| && n in Sel(q, k, j) && q.Has(n)
    ensures var k := |q.levels| - 1; Within(q.At(n), q.levels[k][j].start, q.levels[k][j].end)
  {
    j := RangeElim(q, |q.levels| - 1, 0, |q.levels[|q.levels| - 1]|, n);
    SelWithin(q, |q.levels| - 1, j, n);
  }

  /** Smallest block `i` lies inside node `n`. */
  ghost predicate Contains(q: Job, n: Node, i: nat)
    requires q.Ok() && q.Has(n) && i < |q.levels[0]|
  {
    Within(q.levels[0][i], q.At(n).start, q.At(n).end)
  }

  /** Every block that needs erasing and lies in the region is erased by exactly one
      selected block. */
  lemma SelectionCovers(q: Job, i: nat)
    requires q.Ok() && i < |q.levels[0]| && q.Due(i)
    ensures exists n :: n in SelAll(q) && q.Has(n) && Contains(q, n, i)
    ensures forall n, m | n in SelAll(q) && m in SelAll(q) && q.Has(n) && q.Has(m)
                          && Contains(q, n, i) && Contains(q, m, i) :: n == m
  {
    var k := |q.levels| - 1;
    var j := Enclosing(q.levels, q.size, 0, i, k);
    var n := SelCovers(q, k, j, i);
    RangeIntro(q, k, 0, |q.levels[k]|, j);
    assert Contains(q, n, i);
    IsBlock(q.levels, q.size, 0, i);
    forall n, m | n in SelAll(q) && m in SelAll(q) && q.Has(n) && q.Has(m)
                  && Contains(q, n, i) && Contains(q, m, i)
      ensures n == m
    {
      SelectionDisjoint(q, n, m, q.levels[0][i].start);
    }
  }

  /** Selected blocks of all levels are pairwise disjoint. */
  lemma SelectionDisjoint(q: Job, n: Node, m: Node, a: nat)
    requires q.Ok() && n in SelAll(q) && m in SelAll(q) && q.Has(n) && q.Has(m)
    requires Holds(q.At(n), a) && Holds(q.At(m), a)
    ensures n == m
  {
    var k := |q.levels| - 1;
    var j := TopOf(q, n);
    var j' := TopOf(q, m);
    SameBlock(q, k, j, j', a);
    SelDisjoint(q, k, j, n, m, a);
  }

  /** Selected blocks lie inside the region, and for every sacrifice ratio below 100
      each of them contains a block that needs erasing. */
  lemma SelectionUseful(q: Job, n: Node)
    requires q.Ok() && n in SelAll(q)
    ensures q.Has(n) && q.Inside(q.At(n)) && (n.level == 0 ==> q.Due(n.index))
    ensures q.ratio < 100 ==>
              exists i: nat :: i < |q.levels[0]| && q.Due(i) && Within(q.levels[0][i], q.At(n).start, q.At(n).end)
  {
    var j := TopOf(q, n);
    SelWithin(q, |q.levels| - 1, j, n);
    if n.level == 0 {
      SelSmallest(q, |q.levels| - 1, j, n);
    }
    if q.ratio < 100 {
      var i := SelUseful(q, |q.levels| - 1, j, n);
    }
  }

  /** The blocks `from..til` of level `k` that are selected themselves. */
  ghost function Chosen(q: Job, k: nat, from: nat, til: nat): set<nat>
    requires q.Ok() && k < |q.levels| && from <= til <= |q.levels[k]|
  {
    set i: nat | from <= i < til && Node(k, i) in Sel(q, k, i)
  }

  /** What is selected in one of their subtrees. */
  ghost predicate ChosenBelow(q: Job, k: nat, from: nat, til: nat, m: Node)
    requires q.Ok() && k < |q.levels| && from <= til <= |q.levels[k]|
  {
    exists i: nat :: from <= i < til && m in Sel(q, k, i)
  }

  lemma {:induction false} CountChosen(q: Job, k: nat, from: nat, til: nat)
    requires q.Ok() && k < |q.levels| && from <= til <= |q.levels[k]|
    ensures Count(q, k, from, til) == |Chosen(q, k, from, til)|
    decreases til
  {
    if from == til {
      assert Chosen(q, k, from, til) == {};
    } else {
      CountChosen(q, k, from, til - 1);
      var i := til - 1;
      var c, c' := Chosen(q, k, from, i), Chosen(q, k, from, til);
      assert i !in c;
      assert c' == if Node(k, i) in Sel(q, k, i) then c + {i} else c;
    }
  }

  /** The sacrifice ratio: a block inside the region replaces what is selected below it exactly
      if the share of its sub-blocks that are not selected is at most `ratio` percent; then it
      alone is selected, and otherwise what is selected below it. */
  lemma SelectionRatio(q: Job, k: nat, j: nat)
    requires q.Ok() && k + 1 < |q.levels| && j < |q.levels[k + 1]|
    ensures var first, end := q.First(k + 1, j), q.End(k + 1, j);
            var spared := end - first - |Chosen(q, k, first, end)|;
            && (Node(k + 1, j) in Sel(q, k + 1, j) <==>
                  q.Inside(q.levels[k + 1][j]) && 100 * spared <= (end - first) * q.ratio)
            && (Node(k + 1, j) in Sel(q, k + 1, j) ==> Sel(q, k + 1, j) == {Node(k + 1, j)})
            && (Node(k + 1, j) !in Sel(q, k + 1, j) ==>
                  forall m :: m in Sel(q, k + 1, j) <==> ChosenBelow(q, k, first, end, m))
  {
    var first, end := q.First(k + 1, j), q.End(k + 1, j);
    CountChosen(q, k, first, end);
    if Node(k + 1, j) in SelRange(q, k, first, end) {
      var i := RangeElim(q, k, first, end, Node(k + 1, j));
      SelWithin(q, k, i, Node(k + 1, j));
    }
    if !Promoted(q, k + 1, j) {
      forall m ensures m in Sel(q, k + 1, j) <==> ChosenBelow(q, k, first, end, m) {
        if m in Sel(q, k + 1, j) {
          var i := RangeElim(q, k, first, end, m);
        }
        if ChosenBelow(q, k, first, end, m) {
          var i: nat :| first <= i < end && m in Sel(q, k, i);
          RangeIntro(q, k, first, end, i);
        }
      }
    }
  }

  ghost predicate Covered(q: Job, s: set<Node>, a: nat) {
    exists n :: n in s && q.Has(n) && Holds(q.At(n), a)
  }

  ghost predicate InDueBlock(q: Job, a: nat)
    requires q.Ok()
  {
    exists i: nat :: i < |q.levels[0]| && q.Due(i) && Holds(q.levels[0][i], a)
  }

  /** Without sacrifice, exactly the blocks that need erasing are erased. */
  lemma SelectionExact(q: Job, a: nat)
    requires q.Ok() && q.ratio == 0 && a < q.size
    ensures Covered(q, SelAll(q), a) <==> InDueBlock(q, a)
  {
    if Covered(q, SelAll(q), a) {
      var n :| n in SelAll(q) && q.Has(n) && Holds(q.At(n), a);
      var j := TopOf(q, n);
      IsTiling(q.levels, q.size, 0);
      var i := TilingFind(q.levels[0], q.size, a);
      Laminar(q.levels, q.size, 0, i, n.level, n.index);
      SelExact(q, |q.levels| - 1, j, n, i);
    }
    if InDueBlock(q, a) {
      var i: nat :| i < |q.levels[0]| && q.Due(i) && Holds(q.levels[0][i], a);
      SelectionCovers(q, i);
    }
  }

  /** Without sacrifice, no set of erase blocks that covers exactly the same bytes has
      fewer members. */
  lemma SelectionMinimal(q: Job, c: set<Node>)
    requires q.Ok() && q.ratio == 0
    requires forall n | n in c :: q.Has(n)
    requires forall a: nat | a < q.size :: Covered(q, c, a) <==> Covered(q, SelAll(q), a)
    ensures |SelAll(q)| <= |c|
  {
    var part := (n: Node, m: Node) => q.Has(n) && q.Has(m) && Within(q.At(m), q.At(n).start, q.At(n).end);
    forall n | n in SelAll(q) ensures exists m :: m in c && part(n, m) {
      var m := SomePartOf(q, c, n);
      assert part(n, m);
    }
    forall n, n', m | n in SelAll(q) && n' in SelAll(q) && part(n, m) && part(n', m) ensures n == n' {
      IsBlock(q.levels, q.size, m.level, m.index);
      SelectionDisjoint(q, n, n', q.At(m).start);
    }
    PairOff(SelAll(q), c, part);
  }

  /** Every selected block contains a member of the competing cover. */
  lemma SomePartOf(q: Job, c: set<Node>, n: Node) returns (m: Node)
    requires q.Ok() && q.ratio == 0 && n in SelAll(q)
    requires forall n | n in c :: q.Has(n)
    requires forall a: nat | a < q.size :: Covered(q, c, a) <==> Covered(q, SelAll(q), a)
    ensures q.Has(n) && m in c && Within(q.At(m), q.At(n).start, q.At(n).end)
  {
    var j := TopOf(q, n);
    IsBlock(q.levels, q.size, n.level, n.index);
    var a := q.At(n).start;
    assert Holds(q.At(n), a) && Covered(q, SelAll(q), a);
    m :| m in c && q.Has(m) && Holds(q.At(m), a);
    PartAllDue(q, c, m);
    var n' := SelectionMaximal(q, m);
    SelectionDisjoint(q, n, n', a);
  }

  /** Every block made of due blocks only is erased by one selected block. */
  lemma SelectionMaximal(q: Job, m: Node) returns (n: Node)
    requires q.Ok() && q.Has(m) && AllDue(q, m)
    ensures n in SelAll(q) && q.Has(n) && Within(q.At(m), q.At(n).start, q.At(n).end)
  {
    var k := |q.levels| - 1;
    var j := Enclosing(q.levels, q.size, m.level, m.index, k);
    n := SelMaximal(q, k, j, m);
    RangeIntro(q, k, 0, |q.levels[k]|, j);
  }

  lemma PartAllDue(q: Job, c: set<Node>, m: Node)
    requires q.Ok() && q.ratio == 0 && m in c && q.Has(m)
    requires forall a: nat | a < q.size :: Covered(q, c, a) <==> Covered(q, SelAll(q), a)
    ensures AllDue(q, m)
  {
    forall i | 0 <= i < |q.levels[0]| && Within(q.levels[0][i], q.At(m).start, q.At(m).end) ensures q.Due(i) {
      IsBlock(q.levels, q.size, 0, i);
      var a := q.levels[0][i].start;
      assert Holds(q.At(m), a) && Covered(q, c, a);
      SelectionExact(q, a);
      var i': nat :| i' < |q.levels[0]| && q.Due(i') && Holds(q.levels[0][i'], a);
      SameBlock(q, 0, i, i', a);
    }
  }

  /** A set whose members claim distinct members of `c` is not larger than `c`. */
  lemma {:induction false} PairOff(s: set<Node>, c: set<Node>, part: (Node, Node) -> bool)
    requires forall n | n in s :: exists m :: m in c && part(n, m)
    requires forall n, n', m | n in s && n' in s && part(n, m) && part(n', m) :: n == n'
    ensures |s| <= |c|
    decreases |s|
  {
    if s != {} {
      var n :| n in s;
      var m :| m in c && part(n, m);
      forall n' | n' in s - {n} ensures exists m' :: m' in c - {m} && part(n', m') {
        var m' :| m' in c && part(n', m');
        assert m' in c - {m};
      }
      PairOff(s - {n}, c - {m}, part);
    }
  }
}
