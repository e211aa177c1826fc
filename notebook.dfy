/** The parts of an nbformat version 4 notebook that the rewrite reads or
    writes, first as values and then as the mutable objects the rewrite edits
    in place.

    A notebook's `cells` list is only read; each code cell's `outputs` list is
    only read; the output dictionaries in it are what change. So a cell is a
    value holding references to its outputs, and an output is an object. */
module Notebook {
  import opened Wrappers
  import opened Json
  import opened OrderedMap

  /** An output dictionary: its `output_type`, its `data` mime bundle (keys in
      order) and its `metadata`. An output without a `data` entry (a stream or
      error output) has an empty bundle here. Other keys are never touched. */
  datatype OutputValue = OutputValue(outputType: string, data: Entries<Json>, metadata: map<string, Json>)

  /** A cell: its `cell_type`, its `execution_count` (null when never run) and
      its outputs. */
  datatype CellValue = CellValue(cellType: string, executionCount: Option<int>, outputs: seq<OutputValue>)

  /** An output dictionary as a mutable object. */
  class Output {
    var outputType: string
    var data: Entries<Json>
    var metadata: map<string, Json>

    constructor (outputType: string, data: Entries<Json>, metadata: map<string, Json>)
      ensures Value() == OutputValue(outputType, data, metadata)
    {
      this.outputType := outputType;
      this.data := data;
      this.metadata := metadata;
    }

    /** The dictionary's current contents. */
    function Value(): OutputValue
      reads this
    {
      OutputValue(outputType, data, metadata)
    }
  }

  /** A cell of a loaded notebook; its outputs are shared with the notebook. */
  datatype Cell = Cell(cellType: string, executionCount: Option<int>, outputs: seq<Output>)

  /** Every output object of the notebook. */
  ghost function Objects(cells: seq<Cell>): set<Output> {
    set k, l | 0 <= k < |cells| && 0 <= l < |cells[k].outputs| :: cells[k].outputs[l]
  }

  /** No output object appears twice: the notebook is a tree, as a notebook
      parsed from JSON is. */
  ghost predicate Distinct(cells: seq<Cell>) {
    forall k, l, k', l' ::
      0 <= k < |cells| && 0 <= l < |cells[k].outputs| &&
      0 <= k' < |cells| && 0 <= l' < |cells[k'].outputs| &&
      cells[k].outputs[l] == cells[k'].outputs[l']
      ==> k == k' && l == l'
  }

  /** The outputs of two different cells are different objects. */
  lemma DisjointCells(cells: seq<Cell>, k: nat, k': nat)
    requires Distinct(cells) && k < |cells| && k' < |cells| && k != k'
    ensures forall o :: o in cells[k].outputs ==> o !in cells[k'].outputs
  {
  }

  /** The current contents of a cell. */
  ghost function CellSnapshot(c: Cell): (v: CellValue)
    reads c.outputs
    ensures v.cellType == c.cellType && v.executionCount == c.executionCount
    ensures |v.outputs| == |c.outputs|
    ensures forall l :: 0 <= l < |c.outputs| ==> v.outputs[l] == c.outputs[l].Value()
  {
    CellValue(c.cellType, c.executionCount,
      seq(|c.outputs|, l requires 0 <= l < |c.outputs| reads c.outputs => c.outputs[l].Value()))
  }

  /** The current contents of the whole notebook. */
  ghost function Snapshot(cells: seq<Cell>): (nb: seq<CellValue>)
    reads Objects(cells)
    ensures |nb| == |cells|
    ensures forall k :: 0 <= k < |cells| ==> nb[k] == CellSnapshot(cells[k])
  {
    seq(|cells|, k requires 0 <= k < |cells| reads Objects(cells) => CellSnapshot(cells[k]))
  }
}
