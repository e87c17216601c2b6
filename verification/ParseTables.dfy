/** The parser of the syntax tables as it runs: an index that moves through the rows, and containers
    whose children grow. */
module ParseTables {
  import opened Wrappers
  import opened SyntaxTables

  class Container {
    var children: Nodes
    var depth: nat

    constructor ()
      ensures children == []
    {
      children, depth := [], 0;
    }

    /** Appends the children and returns the index of the first row behind them; `raised` is an
        exception that leaves the method. */
    method ParseChildren(table: seq<Row>, start: nat) returns (raised: bool, tableIndex: nat)
      requires start <= |table|
      modifies this
      ensures raised <==> Parse(table[start..]).None?
      ensures raised ==> children == old(children)
      ensures !raised ==>
        && start <= tableIndex <= |table|
        && var (nodes, behind) := Parse(table[start..]).value;
           children == old(children) + nodes && table[tableIndex..] == behind
      decreases |table| - start, 1
    {
      hide Loop, Parse, Ends;
      tableIndex := start;
      ParseSkips(table, start);
      while tableIndex < |table| && Slashed(table[tableIndex])
        invariant start <= tableIndex <= |table|
        invariant Skip(table[tableIndex..]) == Skip(table[start..])
      {
        tableIndex := tableIndex + 1;
      }
      if tableIndex == |table| {
        return true, tableIndex;
      }
      depth := table[tableIndex].depth;
      ghost var all := children + Loop(table[tableIndex..], depth).0;
      ghost var end := Loop(table[tableIndex..], depth).1;
      while true
        invariant start <= tableIndex <= |table|
        invariant LeadsTo(table, tableIndex, depth, children, all, end)
        decreases |table| - tableIndex
      {
        hide LeadsTo, Skip;
        ghost var i, found := tableIndex, children;
        RowAt(table, i, depth);
        if tableIndex == |table| {
          LoopEnds(table, i, depth, found, all, end);
          return false, tableIndex;
        }
        var row := table[tableIndex];
        if row.depth < depth && !Slashed(row) {
          LoopEnds(table, i, depth, found, all, end);
          return false, tableIndex;
        }
        if row.depth > depth {
          LoopEnds(table, i, depth, found, all, end);
          return false, tableIndex;
        }
        var stop, next := ParseRow(table, tableIndex, all, end);
        tableIndex := next;
        if stop {
          return false, tableIndex;
        }
      }
    }

    /** The row at i and, if it opens a container, the rows of that container. `stop` is an exception
        that ends the loop with what it has so far. */
    method ParseRow(table: seq<Row>, i: nat, ghost all: Nodes, ghost end: seq<Row>)
      returns (stop: bool, tableIndex: nat)
      requires i < |table| && LeadsTo(table, i, depth, children, all, end) && !Ends(table[i..], depth)
      modifies this
      ensures depth == old(depth) && i < tableIndex <= |table|
      ensures if stop then children == all && table[tableIndex..] == end
              else LeadsTo(table, tableIndex, depth, children, all, end)
      decreases |table| - i, 0
    {
      hide LeadsTo, Parse, Ends;
      ghost var found := children;
      stop, tableIndex := false, i + 1;
      match table[i].entry {
        case LineRow(line) =>
          AfterLine(table, i, depth, found, all, end);
          if line != Note("}") {
            children := children + [Leaf(line)];
          }
        case WhileRow(condition) =>
          AfterLine(table, i, depth, found, all, end);
          children := children + [Leaf(Note("} while(" + condition + ")"))];
        case HeadRow(head) =>
          var item := new Container();
          var failed, next := item.ParseChildren(table, tableIndex);
          children := children + [Block(AsParsed(head), item.children, false)];
          if failed {
            AfterFailure(table, i, depth, found, all, end);
            return true, tableIndex;
          }
          tableIndex := next;
          assert item.children == Parse(table[i + 1..]).value.0;
          AfterBlock(table, i, next, depth, found, all, end);
        case DoRow =>
          var item := new Container();
          var failed, next := item.ParseChildren(table, tableIndex);
          if failed {
            AfterFailure(table, i, depth, found, all, end);
            return true, tableIndex;
          }
          tableIndex := next;
          var closing := ParseClosingWhile(table, tableIndex);
          assert item.children == Parse(table[i + 1..]).value.0;
          AfterDo(table, i, next, depth, found, all, end);
          if closing.None? {
            return true, tableIndex;
          }
          children := children + [DoWhile(closing.value, item.children)];
          tableIndex := tableIndex + 1;
      }
    }
  }

  /** The condition of a closing while; None is an exception. */
  method ParseClosingWhile(table: seq<Row>, tableIndex: nat) returns (condition: Option<string>)
    ensures condition.Some? <==> tableIndex < |table| && table[tableIndex].entry.WhileRow?
    ensures condition.Some? ==> condition.value == table[tableIndex].entry.condition
  {
    if tableIndex >= |table| || !table[tableIndex].entry.WhileRow? {
      return None;
    }
    return Some(table[tableIndex].entry.condition);
  }

  lemma ParseSkips(table: seq<Row>, i: nat)
    requires i <= |table|
    ensures var s := Skip(table[i..]); Parse(table[i..]) == if s == [] then None else Some(Loop(s, s[0].depth))
  {
    hide Loop;
  }

  /** The state of the loop: what is found so far is completed by what the loop still finds. */
  predicate LeadsTo(table: seq<Row>, i: nat, depth: nat, found: Nodes, all: Nodes, end: seq<Row>)
    requires i <= |table|
  {
    found + Loop(table[i..], depth).0 == all && Loop(table[i..], depth).1 == end
  }

  lemma LoopEnds(table: seq<Row>, i: nat, depth: nat, found: Nodes, all: Nodes, end: seq<Row>)
    requires i <= |table| && LeadsTo(table, i, depth, found, all, end) && Ends(table[i..], depth)
    ensures found == all && table[i..] == end
  {
  }

  lemma RowAt(table: seq<Row>, i: nat, depth: nat)
    requires i <= |table|
    ensures Ends(table[i..], depth)
       <==> i == |table| || table[i].depth > depth || (table[i].depth < depth && !Slashed(table[i]))
    ensures i < |table| ==> table[i..][0] == table[i] && table[i..][1..] == table[i + 1..]
  {
  }

  lemma AfterLine(table: seq<Row>, i: nat, depth: nat, found: Nodes, all: Nodes, end: seq<Row>)
    requires i < |table| && LeadsTo(table, i, depth, found, all, end) && !Ends(table[i..], depth)
    ensures table[i].entry.LineRow? ==> LeadsTo(table, i + 1, depth,
      if table[i].entry.line == Note("}") then found else found + [Leaf(table[i].entry.line)], all, end)
    ensures table[i].entry.WhileRow? ==>
      LeadsTo(table, i + 1, depth, found + [Leaf(Note("} while(" + table[i].entry.condition + ")"))], all, end)
  {
    RowAt(table, i, depth);
  }

  /** The table ends where a container begins. */
  lemma AfterFailure(table: seq<Row>, i: nat, depth: nat, found: Nodes, all: Nodes, end: seq<Row>)
    requires i < |table| && LeadsTo(table, i, depth, found, all, end) && !Ends(table[i..], depth)
    requires Parse(table[i + 1..]).None?
    ensures table[i].entry.HeadRow? ==> all == found + [Block(AsParsed(table[i].entry.head), [], false)]
    ensures table[i].entry.DoRow? ==> all == found
    ensures table[i].entry.HeadRow? || table[i].entry.DoRow? ==> end == table[i + 1..]
  {
    RowAt(table, i, depth);
  }

  lemma AfterBlock(table: seq<Row>, i: nat, j: nat, depth: nat, found: Nodes, all: Nodes, end: seq<Row>)
    requires i < j <= |table| && LeadsTo(table, i, depth, found, all, end) && !Ends(table[i..], depth)
    requires table[i].entry.HeadRow?
    requires Parse(table[i + 1..]).Some? && Parse(table[i + 1..]).value.1 == table[j..]
    ensures LeadsTo(table, j, depth,
      found + [Block(AsParsed(table[i].entry.head), Parse(table[i + 1..]).value.0, false)], all, end)
  {
    RowAt(table, i, depth);
  }

  lemma AfterDo(table: seq<Row>, i: nat, j: nat, depth: nat, found: Nodes, all: Nodes, end: seq<Row>)
    requires i < j <= |table| && LeadsTo(table, i, depth, found, all, end) && !Ends(table[i..], depth)
    requires table[i].entry.DoRow?
    requires Parse(table[i + 1..]).Some? && Parse(table[i + 1..]).value.1 == table[j..]
    ensures j == |table| || !table[j].entry.WhileRow? ==> all == found && end == table[j..]
    ensures j < |table| && table[j].entry.WhileRow? ==>
      LeadsTo(table, j + 1, depth,
        found + [DoWhile(table[j].entry.condition, Parse(table[i + 1..]).value.0)], all, end)
  {
    RowAt(table, i, depth);
    RowAt(table, j, depth);
  }
}
