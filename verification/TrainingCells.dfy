/** The choice of the best cell and the reordering of cells by distance in generate-training-data.py:
    each label must stay on the right cell. */
module TrainingCells {
  import opened Sequences

  // ----- the optimal cell

  /** A row of one group; a group holds the rows of one scenario, run and time. */
  datatype Sample = Sample(node: int, cell: int, nextMeanLoss: real, cellDistance: real, target: int)

  predicate LossThenDistance(a: Sample, b: Sample) {
    a.nextMeanLoss < b.nextMeanLoss || (a.nextMeanLoss == b.nextMeanLoss && a.cellDistance <= b.cellDistance)
  }

  function NodeOne(group: seq<Sample>): seq<Sample> { Filter((r: Sample) => r.node == 1, group) }

  /** The group with the target of node 1 replaced; nothing when node 1 has no row to choose from. */
  function Retarget(group: seq<Sample>): Option<seq<Sample>> {
    var candidates := Sort(LossThenDistance, NodeOne(group));
    if candidates == [] then None
    else Some(Map((r: Sample) => if r.node == 1 then r.(target := candidates[0].cell) else r, group))
  }

  ghost predicate HasNodeOne(group: seq<Sample>) { exists r :: r in group && r.node == 1 }

  /** Node 1 is sent to the cell of one of its own rows with the least next mean loss, the nearest one
      among those; the other nodes keep their cells, and no other column changes. */
  ghost predicate Improved(group: seq<Sample>, result: seq<Sample>) { exists best :: BestOf(group, best, result) }

  lemma RetargetChoosesBest(group: seq<Sample>)
    ensures Retarget(group).Some? <==> HasNodeOne(group)
    ensures Retarget(group).Some? ==> Improved(group, Retarget(group).value)
  {
    var candidates := Sort(LossThenDistance, NodeOne(group));
    forall r ensures r in candidates <==> r in group && r.node == 1 {
      FilterMembers((x: Sample) => x.node == 1, group, r);
      assert r in candidates <==> r in multiset(candidates);
      assert r in NodeOne(group) <==> r in multiset(NodeOne(group));
    }
    if candidates != [] {
      var best := candidates[0];
      assert best in candidates;
      SortSorts(LossThenDistance, NodeOne(group));
      forall r | r in group && r.node == 1 ensures LossThenDistance(best, r) {
        var i :| 0 <= i < |candidates| && candidates[i] == r;
      }
      assert BestOf(group, best, Retarget(group).value);
    }
  }

  ghost predicate BestOf(group: seq<Sample>, best: Sample, result: seq<Sample>) {
    && best in group && best.node == 1
    && (forall r :: r in group && r.node == 1 ==>
          best.nextMeanLoss < r.nextMeanLoss
          || (best.nextMeanLoss == r.nextMeanLoss && best.cellDistance <= r.cellDistance))
    && |result| == |group|
    && forall i :: 0 <= i < |group| ==>
         result[i] == if group[i].node == 1 then group[i].(target := best.cell) else group[i]
  }

  /** The loop over the groups; it stops at the first group without a row of node 1. */
  method SelectOptimal(groups: seq<seq<Sample>>) returns (optimal: Option<seq<seq<Sample>>>)
    ensures optimal.Some? <==> forall g :: g in groups ==> HasNodeOne(g)
    ensures optimal.Some? ==> |optimal.value| == |groups|
    ensures optimal.Some? ==> forall i :: 0 <= i < |groups| ==> Improved(groups[i], optimal.value[i])
  {
    var done := [];
    for i := 0 to |groups|
      invariant |done| == i
      invariant forall k :: 0 <= k < i ==> HasNodeOne(groups[k])
      invariant forall k :: 0 <= k < i ==> Improved(groups[k], done[k])
    {
      RetargetChoosesBest(groups[i]);
      var group := Retarget(groups[i]);
      if group.None? {
        assert groups[i] in groups;
        return None;
      }
      done := done + [group.value];
    }
    return Some(done);
  }

  // ----- reordering by distance

  datatype Cell = Cell(distance: real, load: real, loss: real)

  predicate Nearer(a: Cell, b: Cell) { a.distance <= b.distance }

  /** The first position at which the distance occurs. */
  function FirstAt(cells: seq<Cell>, distance: real): (r: Option<nat>)
    ensures r.Some? ==> r.value < |cells| && cells[r.value].distance == distance
    ensures r.Some? ==> forall i :: 0 <= i < r.value ==> cells[i].distance != distance
    ensures r.None? <==> forall i :: 0 <= i < |cells| ==> cells[i].distance != distance
  {
    if cells == [] then None
    else if cells[0].distance == distance then Some(0)
    else
      var r := FirstAt(cells[1..], distance);
      if r.None? then None else Some(r.value + 1)
  }

  /** `sorted` is some arrangement of `cells` by distance; which one is up to the sort routine. */
  ghost predicate Arranged(cells: seq<Cell>, sorted: seq<Cell>) {
    && multiset(sorted) == multiset(cells)
    && forall i, j :: 0 <= i < j < |sorted| ==> sorted[i].distance <= sorted[j].distance
  }

  lemma ArrangedMembers(cells: seq<Cell>, sorted: seq<Cell>)
    requires Arranged(cells, sorted)
    ensures forall c :: c in sorted <==> c in cells
  {
    forall c ensures c in sorted <==> c in cells {
      assert c in sorted <==> c in multiset(sorted);
    }
  }

  /** The label always exists and always points at the target's distance. */
  lemma LabelHasTargetDistance(cells: seq<Cell>, sorted: seq<Cell>, t: nat)
    requires t < |cells| && Arranged(cells, sorted)
    ensures FirstAt(sorted, cells[t].distance).Some?
    ensures sorted[FirstAt(sorted, cells[t].distance).value].distance == cells[t].distance
  {
    ArrangedMembers(cells, sorted);
    assert cells[t] in sorted;
    var i :| 0 <= i < |sorted| && sorted[i] == cells[t];
  }

  /** No other cell shares the target's distance, unless it is equal in load and loss too. */
  ghost predicate Unmistakable(cells: seq<Cell>, t: nat)
    requires t < |cells|
  {
    forall i :: 0 <= i < |cells| && cells[i].distance == cells[t].distance ==> cells[i] == cells[t]
  }

  /** The label points at the target cell itself, whatever the sort does with ties, exactly when the
      target cannot be mistaken for another cell at the same distance. */
  lemma LabelIsRightIff(cells: seq<Cell>, t: nat)
    requires t < |cells|
    ensures (forall sorted :: Arranged(cells, sorted) ==>
              FirstAt(sorted, cells[t].distance).Some? && sorted[FirstAt(sorted, cells[t].distance).value] == cells[t])
       <==> Unmistakable(cells, t)
  {
    if Unmistakable(cells, t) {
      forall sorted | Arranged(cells, sorted)
        ensures FirstAt(sorted, cells[t].distance).Some? && sorted[FirstAt(sorted, cells[t].distance).value] == cells[t]
      {
        LabelHasTargetDistance(cells, sorted, t);
        ArrangedMembers(cells, sorted);
        assert sorted[FirstAt(sorted, cells[t].distance).value] in cells;
      }
    } else {
      var i :| 0 <= i < |cells| && cells[i].distance == cells[t].distance && cells[i] != cells[t];
      var sorted := ArrangeFirst(cells, i);
      assert FirstAt(sorted, cells[t].distance).value < |sorted|;
    }
  }

  /** Two cells at one distance, of which the second is the target: the label points at the first. */
  lemma TiedCellIsMislabelled(distance: real, load: real, loss: real, otherLoad: real)
    requires load != otherLoad
    ensures var first, target := Cell(distance, otherLoad, loss), Cell(distance, load, loss);
      Arranged([first, target], [first, target])
      && FirstAt([first, target], target.distance) == Some(0) && first != target
      && !Unmistakable([first, target], 1)
  {
    var cells := [Cell(distance, otherLoad, loss), Cell(distance, load, loss)];
    assert cells[0].distance == cells[1].distance && cells[0] != cells[1];
  }

  /** An arrangement that puts cell `i` before all others at its distance. */
  lemma ArrangeFirst(cells: seq<Cell>, i: nat) returns (sorted: seq<Cell>)
    requires i < |cells|
    ensures Arranged(cells, sorted)
    ensures FirstAt(sorted, cells[i].distance).Some? && sorted[FirstAt(sorted, cells[i].distance).value] == cells[i]
  {
    var rest := Sort(Nearer, RemoveAt(cells, i));
    SortSorts(Nearer, RemoveAt(cells, i));
    InsertSorts(Nearer, cells[i], rest);
    sorted := Insert(Nearer, cells[i], rest);
    RemoveAtMultiset(cells, i);
    assert cells[i] in multiset(cells);
    InsertedComesFirst(cells[i], rest);
  }

  lemma {:induction false} InsertedComesFirst(c: Cell, s: seq<Cell>)
    ensures var r := Insert(Nearer, c, s);
      FirstAt(r, c.distance).Some? && r[FirstAt(r, c.distance).value] == c
  {
    if s != [] && !Nearer(c, s[0]) {
      InsertedComesFirst(c, s[1..]);
      var r := Insert(Nearer, c, s);
      assert r[1..] == Insert(Nearer, c, s[1..]);
    }
  }

  /** A row: its cells, and the distance of the cell chosen as target. */
  datatype Row = Row(cells: seq<Cell>, targetDistance: real)

  datatype Labelled = Labelled(cells: seq<Cell>, target: nat)

  ghost predicate HasTarget(row: Row) { exists c :: c in row.cells && c.distance == row.targetDistance }

  /** Distances ascend, each cell's distance, load and loss stay together, and the label is the first
      position at the target's distance. */
  ghost predicate RowReordered(row: Row, result: Labelled) {
    && Arranged(row.cells, result.cells)
    && FirstAt(result.cells, row.targetDistance) == Some(result.target)
  }

  lemma SortArranges(row: Row)
    ensures Arranged(row.cells, Sort(Nearer, row.cells))
    ensures FirstAt(Sort(Nearer, row.cells), row.targetDistance).Some? <==> HasTarget(row)
  {
    var sorted := Sort(Nearer, row.cells);
    SortSorts(Nearer, row.cells);
    ArrangedMembers(row.cells, sorted);
    if c :| c in row.cells && c.distance == row.targetDistance {
      var k :| 0 <= k < |sorted| && sorted[k] == c;
    }
    if FirstAt(sorted, row.targetDistance).Some? {
      assert sorted[FirstAt(sorted, row.targetDistance).value] in sorted;
    }
  }

  method ReorderRow(row: Row) returns (result: Option<Labelled>)
    ensures result.Some? <==> HasTarget(row)
    ensures result.Some? ==> RowReordered(row, result.value)
  {
    SortArranges(row);
    var cells := Sort(Nearer, row.cells);
    var index := FirstAt(cells, row.targetDistance);
    if index.None? {
      return None;
    }
    return Some(Labelled(cells, index.value));
  }

  /** The loop over the rows; it fails on a target distance that no cell has. */
  method Reorder(rows: seq<Row>) returns (sortedRows: Option<seq<Labelled>>)
    ensures sortedRows.Some? <==> forall i :: 0 <= i < |rows| ==> HasTarget(rows[i])
    ensures sortedRows.Some? ==> |sortedRows.value| == |rows|
    ensures sortedRows.Some? ==> forall i :: 0 <= i < |rows| ==> RowReordered(rows[i], sortedRows.value[i])
  {
    var done := [];
    for i := 0 to |rows|
      invariant |done| == i
      invariant forall k :: 0 <= k < i ==> HasTarget(rows[k])
      invariant forall k :: 0 <= k < i ==> RowReordered(rows[k], done[k])
    {
      var result := ReorderRow(rows[i]);
      if result.None? {
        return None;
      }
      done := done + [result.value];
    }
    return Some(done);
  }
}
