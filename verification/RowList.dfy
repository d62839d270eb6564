/** The rows of a result: a linked list with a cursor, filled from the table that the answer was parsed into. */
module RowList {
  import opened Options

  datatype Cell = Null | Text(text: string)

  type Row = seq<Cell>

  /** The length of every cell of a row, as strlen gives it; a null has none. */
  function Lengths(row: Row): (l: seq<nat>)
    ensures |l| == |row|
  {
    seq(|row|, i requires 0 <= i < |row| => if row[i].Null? then 0 else |row[i].text|)
  }

  class RowNode {
    var next: RowNode?
    var data: Option<Row>

    constructor ()
      ensures next == null && data == None
    {
      next, data := null, None;
    }
  }

  /** The nodes hold the rows in order. A result without rows still has one node, without data. */
  ghost predicate Linked(nodes: seq<RowNode>, rows: seq<Row>)
    reads nodes
  {
    && |nodes| == (if rows == [] then 1 else |rows|)
    && (forall i :: 0 <= i < |nodes| ==> nodes[i].next == if i + 1 < |nodes| then nodes[i + 1] else null)
    && (forall i :: 0 <= i < |nodes| ==> nodes[i].data == if i < |rows| then Some(rows[i]) else None)
  }

  /** Build the list of rows, node by node. */
  method GenerateRows(rows: seq<Row>) returns (head: RowNode, ghost nodes: seq<RowNode>)
    ensures fresh(nodes) && Linked(nodes, rows) && head == nodes[0]
  {
    head := new RowNode();
    var ptr := head;
    nodes := [head];
    for i := 0 to |rows|
      invariant fresh(nodes) && nodes != [] && head == nodes[0] && ptr == nodes[|nodes| - 1]
      invariant |nodes| == if i == 0 then 1 else if i < |rows| then i + 1 else i
      invariant forall k :: 0 <= k < |nodes| - 1 ==> nodes[k].next == nodes[k + 1]
      invariant ptr.next == null
      invariant forall k, l :: 0 <= k < l < |nodes| ==> nodes[k] != nodes[l]
      invariant forall k :: 0 <= k < |nodes| ==> nodes[k].data == if k < i then Some(rows[k]) else None
    {
      ptr.data := Some(rows[i]);
      if i + 1 < |rows| {
        var node := new RowNode();
        ptr.next := node;
        ptr := node;
        nodes := nodes + [node];
      } else {
        ptr.next := null;
      }
    }
  }

  class Result {
    const rows: seq<Row>
    const head: RowNode
    var dataCursor: RowNode?
    var currentRow: Option<Row>
    ghost const nodes: seq<RowNode>

    ghost predicate Valid()
      reads nodes
    {
      Linked(nodes, rows) && head == nodes[0]
    }

    constructor (rows: seq<Row>)
      ensures Valid() && fresh(nodes) && this.rows == rows && dataCursor == NodeAt(0) && currentRow == None
    {
      var first;
      ghost var ns;
      first, ns := GenerateRows(rows);
      this.rows, head, dataCursor, currentRow, nodes := rows, first, first, None, ns;
    }

    /** The node that k steps from the head reach; null behind the last one. */
    ghost function NodeAt(k: nat): RowNode? {
      if k < |nodes| then nodes[k] else null
    }

    /** What stands in the node of a row, and behind it. */
    lemma NodeOfRow(k: nat)
      requires Valid() && k < |rows|
      ensures NodeAt(k) != null && NodeAt(k).data == Some(rows[k]) && NodeAt(k).next == NodeAt(k + 1)
    {
      assert nodes[k].data == Some(rows[k]);
    }

    lemma NoNodeBehind()
      requires Valid() && rows != []
      ensures NodeAt(|rows|) == null
    {
    }

    /** Walk to a row from the head of the list. */
    method DataSeek(offset: nat)
      requires Valid()
      modifies this
      ensures dataCursor == NodeAt(offset) && currentRow == None
    {
      var tmp: RowNode? := head;
      var left := offset;
      while left != 0 && tmp != null
        invariant 0 <= left <= offset && tmp == NodeAt(offset - left)
        decreases left
      {
        tmp := tmp.next;
        left := left - 1;
      }
      currentRow := None;
      dataCursor := tmp;
    }

    /** Move the cursor to a node and tell where it was. */
    method RowSeek(node: RowNode?) returns (before: RowNode?)
      modifies this
      ensures before == old(dataCursor) && dataCursor == node && currentRow == None
    {
      before := dataCursor;
      currentRow := None;
      dataCursor := node;
    }

    /** Hand out the row under the cursor and move on. */
    method FetchRow() returns (row: Option<Row>)
      modifies this
      ensures row == currentRow == if old(dataCursor) == null then None else old(dataCursor.data)
      ensures dataCursor == if old(dataCursor) == null then null else old(dataCursor.next)
    {
      if dataCursor == null {
        currentRow := None;
        return None;
      }
      row := dataCursor.data;
      dataCursor := dataCursor.next;
      currentRow := row;
    }
  }
}
