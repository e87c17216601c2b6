/** The syntax tables of a video standard: rows with an indentation, the tree they stand for, and the
    parser that rebuilds it. */
module SyntaxTables {
  import opened Wrappers

  /** What opens a container. The condition of an else-if can be missing. */
  datatype Head =
    | For(header: string)
    | If(condition: string)
    | Else
    | ElseIf(guard: Option<string>)
    | CloseElseIf(condition: string) // written "} else if"
    | While(condition: string)

  datatype Line =
    | Variable(name: string, descriptor: string)
    | FunctionCall(call: string)
    | Note(text: string)

  type Nodes = seq<Node>

  /** A line, or a container with its lines; closed tells whether a closing row is written. */
  datatype Node =
    | Leaf(line: Line)
    | Block(head: Head, body: Nodes, closed: bool)
    | DoWhile(condition: string, body: Nodes)

  /** What getEntryType tells about the text of a row. A text of its own can be a closing bracket, a
      comment, or anything else. */
  datatype Entry =
    | LineRow(line: Line)
    | HeadRow(head: Head)
    | DoRow
    | WhileRow(condition: string)

  datatype Row = Row(depth: nat, entry: Entry)

  const BRACKET := LineRow(Note("}"))

  /** The row begins with a comment. */
  predicate Slashed(row: Row) {
    row.entry.LineRow? && SlashedLine(row.entry.line)
  }

  predicate SlashedLine(line: Line) {
    line.Note? && "/*" <= line.text
  }

  /** What the head of a container becomes: the guard of an else-if is lost. */
  function AsParsed(head: Head): Head {
    match head
    case ElseIf(_) => ElseIf(None)
    case CloseElseIf(_) => Else
    case _ => head
  }

  /** Comments before the first row of a container are skipped. */
  function Skip(t: seq<Row>): (s: seq<Row>)
    ensures |s| <= |t| && (s != [] ==> !Slashed(s[0]))
    decreases |t|
  {
    if t != [] && Slashed(t[0]) then Skip(t[1..]) else t
  }

  /** parseChildren: the children, and the rows behind them. None is the exception of a table that
      ends where a container should begin. */
  function Parse(t: seq<Row>): (r: Option<(Nodes, seq<Row>)>)
    ensures r.Some? ==> |r.value.1| <= |t|
    decreases |t|, 1
  {
    var s := Skip(t);
    if s == [] then None else Some(Loop(s, s[0].depth))
  }

  predicate Ends(t: seq<Row>, depth: nat) {
    t == [] || t[0].depth > depth || (t[0].depth < depth && !Slashed(t[0]))
  }

  /** The loop of parseChildren. An exception inside ends it with what it has so far. */
  function Loop(t: seq<Row>, depth: nat): (r: (Nodes, seq<Row>))
    ensures |r.1| <= |t|
    decreases |t|, 0
  {
    if Ends(t, depth) then ([], t)
    else
      match t[0].entry
      case LineRow(line) =>
        var (nodes, rest) := Loop(t[1..], depth);
        (if line == Note("}") then nodes else [Leaf(line)] + nodes, rest)
      case WhileRow(condition) =>
        var (nodes, rest) := Loop(t[1..], depth);
        ([Leaf(Note("} while(" + condition + ")"))] + nodes, rest)
      case HeadRow(head) =>
        match Parse(t[1..]) {
          case None => ([Block(AsParsed(head), [], false)], t[1..])
          case Some((body, behind)) =>
            var (nodes, rest) := Loop(behind, depth);
            ([Block(AsParsed(head), body, false)] + nodes, rest)
        }
      case DoRow =>
        match Parse(t[1..]) {
          case None => ([], t[1..])
          case Some((body, behind)) =>
            if behind == [] || !behind[0].entry.WhileRow? then ([], behind)
            else
              var (nodes, rest) := Loop(behind[1..], depth);
              ([DoWhile(behind[0].entry.condition, body)] + nodes, rest)
        }
  }

  /** The rows of a tree: a container's lines stand one step deeper than its head. */
  function Print(ns: Nodes, depth: nat): seq<Row>
    decreases ns
  {
    if ns == [] then []
    else
      var rows := match ns[0] {
        case Leaf(line) => [Row(depth, LineRow(line))]
        case Block(head, body, closed) =>
          [Row(depth, HeadRow(head))] + Print(body, depth + 1) + Closing(closed, depth)
        case DoWhile(condition, body) =>
          [Row(depth, DoRow)] + Print(body, depth + 1) + [Row(depth, WhileRow(condition))]
      };
      rows + Print(ns[1..], depth)
  }

  function Closing(closed: bool, depth: nat): seq<Row> {
    if closed then [Row(depth, BRACKET)] else []
  }

  /** The tree without the closing rows, which leave no trace. */
  function Plain(ns: Nodes): Nodes
    decreases ns
  {
    if ns == [] then []
    else
      [match ns[0]
       case Leaf(line) => ns[0]
       case Block(head, body, _) => Block(head, Plain(body), false)
       case DoWhile(condition, body) => DoWhile(condition, Plain(body))]
      + Plain(ns[1..])
  }

  /** Every container has lines. */
  predicate Filled(ns: Nodes)
    decreases ns
  {
    ns != [] ==>
      && (!ns[0].Leaf? ==> ns[0].body != [] && Filled(ns[0].body))
      && Filled(ns[1..])
  }

  /** An else-if must have no guard, and none is written behind a bracket. */
  predicate KeptHead(head: Head) {
    match head
    case ElseIf(guard) => guard.None?
    case CloseElseIf(_) => false
    case _ => true
  }

  /** Such heads are read as they are; of an else-if the guard is lost, and one behind a bracket is read
      as an else. */
  lemma HeadIsRead(head: Head)
    ensures AsParsed(head) == head <==> KeptHead(head)
    ensures head.ElseIf? ==> AsParsed(head) == ElseIf(None)
    ensures head.CloseElseIf? ==> AsParsed(head) == Else
    ensures KeptHead(AsParsed(head))
  {
  }

  /** No else-if has a guard, and no line is a lone bracket. */
  predicate Kept(ns: Nodes)
    decreases ns
  {
    ns != [] ==>
      && (ns[0].Leaf? ==> ns[0].line != Note("}"))
      && (ns[0].Block? ==> KeptHead(ns[0].head))
      && (!ns[0].Leaf? ==> Kept(ns[0].body))
      && Kept(ns[1..])
  }

  predicate LeadsWithComment(ns: Nodes) {
    ns != [] && ns[0].Leaf? && SlashedLine(ns[0].line)
  }

  /** No container begins with a comment, and none that is not closed is followed by one; `comment`
      tells whether one follows the last node. */
  predicate Placed(ns: Nodes, comment: bool)
    decreases ns
  {
    if ns == [] then !comment
    else
      var next := if |ns| == 1 then comment else LeadsWithComment(ns[1..]);
      && (!ns[0].Leaf? ==> !LeadsWithComment(ns[0].body))
      && (ns[0].Block? ==> Placed(ns[0].body, next && !ns[0].closed))
      && (ns[0].DoWhile? ==> Placed(ns[0].body, false))
      && Placed(ns[1..], comment)
  }

  predicate CommentFollows(rest: seq<Row>) {
    rest != [] && Slashed(rest[0])
  }

  /** These rows are outside a container of this depth. */
  predicate Outside(rest: seq<Row>, depth: nat) {
    rest == [] || rest[0].depth < depth
  }

  lemma OutsideMore(rest: seq<Row>, depth: nat)
    requires Outside(rest, depth)
    ensures Outside(rest, depth + 1)
  {
  }

  lemma FirstRow(ns: Nodes, depth: nat)
    requires ns != []
    ensures Print(ns, depth) != [] && Print(ns, depth)[0].depth == depth
    ensures Slashed(Print(ns, depth)[0]) <==> LeadsWithComment(ns)
  {
  }

  /** What follows the lines of the first container of ns. */
  function Behind(ns: Nodes, depth: nat, rest: seq<Row>): seq<Row>
    requires ns != [] && !ns[0].Leaf?
  {
    ClosingOf(ns[0], depth) + Print(ns[1..], depth) + rest
  }

  lemma BehindIsOutside(ns: Nodes, depth: nat, rest: seq<Row>)
    requires ns != [] && !ns[0].Leaf? && Outside(rest, depth + 1)
    ensures Outside(Behind(ns, depth, rest), depth + 1)
    ensures CommentFollows(Behind(ns, depth, rest))
       <==> ns[0].Block? && !ns[0].closed && (if |ns| == 1 then CommentFollows(rest) else LeadsWithComment(ns[1..]))
  {
    if |ns| > 1 {
      FirstRow(ns[1..], depth);
    }
  }

  /** The rows of ns, taken apart at its first node. */
  lemma PrintStep(ns: Nodes, depth: nat, rest: seq<Row>)
    requires ns != []
    ensures var t := Print(ns, depth) + rest;
      && t != [] && t[0].depth == depth
      && match ns[0]
         case Leaf(line) => t[0].entry == LineRow(line) && t[1..] == Print(ns[1..], depth) + rest
         case Block(head, body, _) =>
           t[0].entry == HeadRow(head) && t[1..] == Print(body, depth + 1) + Behind(ns, depth, rest)
         case DoWhile(_, body) =>
           t[0].entry == DoRow && t[1..] == Print(body, depth + 1) + Behind(ns, depth, rest)
  {
    hide Print, Closing;
    PrintIs(ns, depth);
    if ns[0].Leaf? {
      RegroupLine(Row(depth, LineRow(ns[0].line)), Print(ns[1..], depth), rest);
    } else {
      var head := Row(depth, if ns[0].Block? then HeadRow(ns[0].head) else DoRow);
      Regroup(head, Print(ns[0].body, depth + 1), ClosingOf(ns[0], depth), Print(ns[1..], depth), rest);
    }
  }

  function ClosingOf(n: Node, depth: nat): seq<Row>
    requires !n.Leaf?
  {
    if n.Block? then Closing(n.closed, depth) else [Row(depth, WhileRow(n.condition))]
  }

  lemma PrintIs(ns: Nodes, depth: nat)
    requires ns != []
    ensures ns[0].Leaf? ==> Print(ns, depth) == [Row(depth, LineRow(ns[0].line))] + Print(ns[1..], depth)
    ensures !ns[0].Leaf? ==>
      var head := Row(depth, if ns[0].Block? then HeadRow(ns[0].head) else DoRow);
      Print(ns, depth)
      == [head] + Print(ns[0].body, depth + 1) + ClosingOf(ns[0], depth) + Print(ns[1..], depth)
  {
  }

  lemma RegroupLine(row: Row, next: seq<Row>, rest: seq<Row>)
    ensures ([row] + next + rest)[0] == row && ([row] + next + rest)[1..] == next + rest
  {
  }

  lemma Regroup(row: Row, body: seq<Row>, closing: seq<Row>, next: seq<Row>, rest: seq<Row>)
    ensures ([row] + body + closing + next + rest)[0] == row
    ensures ([row] + body + closing + next + rest)[1..] == body + (closing + next + rest)
  {
    var sum := body + (closing + next + rest);
    assert [row] + body + closing + next + rest == [row] + sum;
  }

  /** The parser in a container of the first node, whose lines do not begin with a comment. */
  lemma ParseBody(body: Nodes, depth: nat, behind: seq<Row>)
    requires body != [] && !LeadsWithComment(body)
    ensures Parse(Print(body, depth) + behind) == Some(Loop(Print(body, depth) + behind, depth))
  {
    FirstRow(body, depth);
  }

  /** A closing row leaves no trace. */
  lemma LoopBehind(ns: Nodes, depth: nat, rest: seq<Row>)
    requires ns != [] && ns[0].Block?
    ensures Loop(Behind(ns, depth, rest), depth) == Loop(Print(ns[1..], depth) + rest, depth)
  {
    var next := Print(ns[1..], depth) + rest;
    var t := Behind(ns, depth, rest);
    if ns[0].closed {
      assert t == [Row(depth, BRACKET)] + next;
      assert t[1..] == next;
    } else {
      assert t == next;
    }
  }

  /** The lines of a container are read back, and the loop goes on behind them. */
  lemma {:induction false} LoopGoesOn(ns: Nodes, depth: nat, rest: seq<Row>)
    requires Kept(ns) && Filled(ns) && Outside(rest, depth + 1) && Placed(ns, CommentFollows(rest))
    ensures var (more, end) := Loop(rest, depth);
      Loop(Print(ns, depth) + rest, depth) == (Plain(ns) + more, end)
    decreases ns, 0
  {
    hide Print, Behind, Outside, CommentFollows, Parse, Loop, Plain;
    if ns == [] {
      NothingPrinted(depth, rest, Loop(rest, depth).0);
    } else {
      LoopGoesOn(ns[1..], depth, rest);
      if ns[0].Leaf? {
        LeafReads(ns, depth, rest);
      } else {
        var behind := Behind(ns, depth, rest);
        BehindIsOutside(ns, depth, rest);
        LoopReads(ns[0].body, depth + 1, behind);
        ParseBody(ns[0].body, depth + 1, behind);
        if ns[0].Block? {
          HeadIsRead(ns[0].head);
        }
        ContainerReads(ns, depth, rest);
      }
    }
  }

  lemma NothingPrinted(depth: nat, rest: seq<Row>, nodes: Nodes)
    ensures Print([], depth) + rest == rest && Plain([]) + nodes == nodes
  {
  }

  lemma LeafReads(ns: Nodes, depth: nat, rest: seq<Row>)
    requires ns != [] && ns[0].Leaf? && ns[0].line != Note("}")
    requires Loop(Print(ns[1..], depth) + rest, depth) == (Plain(ns[1..]) + Loop(rest, depth).0, Loop(rest, depth).1)
    ensures Loop(Print(ns, depth) + rest, depth) == (Plain(ns) + Loop(rest, depth).0, Loop(rest, depth).1)
  {
    hide Print, Loop, Plain;
    PrintStep(ns, depth, rest);
    PlainStep(ns);
    LoopAtLine(Print(ns, depth) + rest, depth, ns[0].line);
    Prepend(ns[0], Plain(ns[1..]), Loop(rest, depth).0);
  }

  lemma Prepend(n: Node, a: Nodes, b: Nodes)
    ensures [n] + (a + b) == [n] + a + b
  {
  }

  lemma LoopAtLine(t: seq<Row>, depth: nat, line: Line)
    requires t != [] && t[0] == Row(depth, LineRow(line)) && line != Note("}")
    ensures Loop(t, depth) == ([Leaf(line)] + Loop(t[1..], depth).0, Loop(t[1..], depth).1)
  {
    hide Parse;
  }

  /** Up to the first row outside of the container, if that is no comment. */
  lemma {:induction false} LoopReads(ns: Nodes, depth: nat, rest: seq<Row>)
    requires Kept(ns) && Filled(ns) && Outside(rest, depth) && Placed(ns, CommentFollows(rest))
    ensures Loop(Print(ns, depth) + rest, depth) == (Plain(ns), rest)
    decreases ns, 1
  {
    hide Print, Parse, Kept, Filled, Plain, Loop, Placed, CommentFollows;
    PlacedEnds(ns, CommentFollows(rest));
    LoopGoesOn(ns, depth, rest);
    NoRows(depth, rest);
    assert Plain(ns) + [] == Plain(ns);
  }

  lemma {:induction false} PlacedEnds(ns: Nodes, comment: bool)
    requires Placed(ns, comment)
    ensures !comment
    decreases ns
  {
    if ns != [] {
      PlacedEnds(ns[1..], comment);
    }
  }

  lemma NoRows(depth: nat, rest: seq<Row>)
    requires Outside(rest, depth) && !CommentFollows(rest)
    ensures Loop(rest, depth) == ([], rest)
  {
  }

  lemma ContainerReads(ns: Nodes, depth: nat, rest: seq<Row>)
    requires ns != [] && !ns[0].Leaf?
    requires ns[0].Block? ==> AsParsed(ns[0].head) == ns[0].head
    requires Parse(Print(ns[0].body, depth + 1) + Behind(ns, depth, rest))
          == Some((Plain(ns[0].body), Behind(ns, depth, rest)))
    requires Loop(Print(ns[1..], depth) + rest, depth) == (Plain(ns[1..]) + Loop(rest, depth).0, Loop(rest, depth).1)
    ensures Loop(Print(ns, depth) + rest, depth) == (Plain(ns) + Loop(rest, depth).0, Loop(rest, depth).1)
  {
    hide Print, Parse, Loop, Plain, Behind;
    PrintStep(ns, depth, rest);
    PlainStep(ns);
    LoopAtContainer(Print(ns, depth) + rest, depth);
    var more := Loop(rest, depth).0;
    if ns[0].Block? {
      LoopBehind(ns, depth, rest);
      Prepend(Block(ns[0].head, Plain(ns[0].body), false), Plain(ns[1..]), more);
    } else {
      BehindWhile(ns, depth, rest);
      Prepend(DoWhile(ns[0].condition, Plain(ns[0].body)), Plain(ns[1..]), more);
    }
  }

  /** The loop at a row that opens a container. */
  lemma LoopAtContainer(t: seq<Row>, depth: nat)
    requires t != [] && t[0].depth == depth && Parse(t[1..]).Some?
    ensures t[0].entry.HeadRow? ==>
      var (body, behind) := Parse(t[1..]).value;
      Loop(t, depth) ==
      ([Block(AsParsed(t[0].entry.head), body, false)] + Loop(behind, depth).0, Loop(behind, depth).1)
    ensures t[0].entry.DoRow? ==>
      var (body, behind) := Parse(t[1..]).value;
      behind != [] && behind[0].entry.WhileRow? ==>
        Loop(t, depth) ==
        ([DoWhile(behind[0].entry.condition, body)] + Loop(behind[1..], depth).0, Loop(behind[1..], depth).1)
  {
    hide Parse;
  }

  lemma PlainStep(ns: Nodes)
    requires ns != []
    ensures ns[0].Leaf? ==> Plain(ns) == [ns[0]] + Plain(ns[1..])
    ensures ns[0].Block? ==> Plain(ns) == [Block(ns[0].head, Plain(ns[0].body), false)] + Plain(ns[1..])
    ensures ns[0].DoWhile? ==> Plain(ns) == [DoWhile(ns[0].condition, Plain(ns[0].body))] + Plain(ns[1..])
  {
  }

  lemma BehindWhile(ns: Nodes, depth: nat, rest: seq<Row>)
    requires ns != [] && ns[0].DoWhile?
    ensures var behind := Behind(ns, depth, rest);
      && behind != [] && behind[0] == Row(depth, WhileRow(ns[0].condition))
      && behind[1..] == Print(ns[1..], depth) + rest
  {
  }

  lemma KeptSum(n: Node, ns: Nodes)
    ensures Kept([n] + ns) <==> Kept([n]) && Kept(ns)
  {
    assert ([n] + ns)[1..] == ns && [n][1..] == [];
  }

  /** What the parser returns has no guarded else-if and no lone bracket, whatever the rows are. */
  lemma {:induction false} LoopIsKept(t: seq<Row>, depth: nat)
    ensures Kept(Loop(t, depth).0)
    decreases |t|, 0
  {
    if !Ends(t, depth) {
      var entry := t[0].entry;
      if entry.LineRow? {
        LoopIsKept(t[1..], depth);
        KeptSum(Leaf(entry.line), Loop(t[1..], depth).0);
      } else if entry.WhileRow? {
        LoopIsKept(t[1..], depth);
        KeptSum(Leaf(Note("} while(" + entry.condition + ")")), Loop(t[1..], depth).0);
        assert ("} while(" + entry.condition + ")")[1] == ' ';
      } else {
        ParseIsKept(t[1..]);
        if Parse(t[1..]).Some? {
          var (body, behind) := Parse(t[1..]).value;
          LoopIsKept(behind, depth);
          if entry.HeadRow? {
            KeptSum(Block(AsParsed(entry.head), body, false), Loop(behind, depth).0);
          } else if behind != [] && behind[0].entry.WhileRow? {
            LoopIsKept(behind[1..], depth);
            KeptSum(DoWhile(behind[0].entry.condition, body), Loop(behind[1..], depth).0);
          }
        }
      }
    }
  }

  lemma {:induction false} ParseIsKept(t: seq<Row>)
    ensures Parse(t).Some? ==> Kept(Parse(t).value.0)
    decreases |t|, 1
  {
    var s := Skip(t);
    if s != [] {
      LoopIsKept(s, s[0].depth);
    }
  }

  function Comments(ns: Nodes): nat
    decreases ns
  {
    if ns == [] then 0
    else
      (match ns[0]
       case Leaf(line) => if SlashedLine(line) then 1 else 0
       case Block(_, body, _) => Comments(body)
       case DoWhile(_, body) => Comments(body))
      + Comments(ns[1..])
  }

  function CommentRows(t: seq<Row>): nat
    decreases |t|
  {
    if t == [] then 0 else (if Slashed(t[0]) then 1 else 0) + CommentRows(t[1..])
  }

  lemma {:induction false} CommentRowsOfSum(a: seq<Row>, b: seq<Row>)
    ensures CommentRows(a + b) == CommentRows(a) + CommentRows(b)
    decreases |a|
  {
    if a == [] {
      assert a + b == b;
    } else {
      assert (a + b)[1..] == a[1..] + b;
      CommentRowsOfSum(a[1..], b);
    }
  }

  lemma CommentsStep(n: Node, ns: Nodes)
    ensures Comments([n] + ns)
         == (if n.Leaf? then (if SlashedLine(n.line) then 1 else 0) else Comments(n.body)) + Comments(ns)
  {
    assert ([n] + ns)[1..] == ns;
  }

  /** As many comments as comment rows. */
  lemma {:induction false} PrintedComments(ns: Nodes, depth: nat)
    ensures CommentRows(Print(ns, depth)) == Comments(ns)
    decreases ns
  {
    if ns != [] {
      PrintStep(ns, depth, []);
      var t := Print(ns, depth);
      assert t + [] == t;
      PrintedComments(ns[1..], depth);
      assert Print(ns[1..], depth) + [] == Print(ns[1..], depth);
      if !ns[0].Leaf? {
        PrintedComments(ns[0].body, depth + 1);
        CommentRowsOfSum(Print(ns[0].body, depth + 1), Behind(ns, depth, []));
        BehindComments(ns, depth, []);
      }
    }
  }

  lemma BehindComments(ns: Nodes, depth: nat, rest: seq<Row>)
    requires ns != [] && !ns[0].Leaf?
    ensures CommentRows(Behind(ns, depth, rest)) == CommentRows(Print(ns[1..], depth) + rest)
  {
    var next := Print(ns[1..], depth) + rest;
    var t := Behind(ns, depth, rest);
    if ns[0].Block? && !ns[0].closed {
      assert t == next;
    } else {
      assert t[1..] == next;
    }
  }

  /** No comment is made up. */
  lemma {:induction false} LoopComments(t: seq<Row>, depth: nat)
    ensures Comments(Loop(t, depth).0) + CommentRows(Loop(t, depth).1) <= CommentRows(t)
    decreases |t|, 0
  {
    if !Ends(t, depth) {
      var entry := t[0].entry;
      if entry.LineRow? {
        LoopComments(t[1..], depth);
        CommentsStep(Leaf(entry.line), Loop(t[1..], depth).0);
      } else if entry.WhileRow? {
        LoopComments(t[1..], depth);
        CommentsStep(Leaf(Note("} while(" + entry.condition + ")")), Loop(t[1..], depth).0);
        assert ("} while(" + entry.condition + ")")[0] == '}';
      } else {
        ParseComments(t[1..]);
        if Parse(t[1..]).Some? {
          var (body, behind) := Parse(t[1..]).value;
          if entry.HeadRow? {
            LoopComments(behind, depth);
            CommentsStep(Block(AsParsed(entry.head), body, false), Loop(behind, depth).0);
          } else if behind != [] && behind[0].entry.WhileRow? {
            LoopComments(behind[1..], depth);
            CommentsStep(DoWhile(behind[0].entry.condition, body), Loop(behind[1..], depth).0);
          }
        }
      }
    }
  }

  /** A comment at the beginning is lost. */
  lemma {:induction false} ParseComments(t: seq<Row>)
    ensures Parse(t).Some? ==>
      Comments(Parse(t).value.0) + CommentRows(Parse(t).value.1) + (if CommentFollows(t) then 1 else 0)
      <= CommentRows(t)
    decreases |t|, 1
  {
    var s := Skip(t);
    SkipComments(t);
    if s != [] {
      LoopComments(s, s[0].depth);
    }
  }

  lemma {:induction false} SkipComments(t: seq<Row>)
    ensures CommentRows(Skip(t)) + (if CommentFollows(t) then 1 else 0) <= CommentRows(t)
    decreases |t|
  {
    if CommentFollows(t) {
      SkipComments(t[1..]);
    }
  }

  /** A comment in the wrong place changes what is read: it is lost, or it moves. */
  predicate Spoiled(ns: Nodes, depth: nat, rest: seq<Row>) {
    var t := Print(ns, depth) + rest;
    var (nodes, behind) := Loop(t, depth);
    nodes != Plain(ns) || Comments(nodes) + CommentRows(behind) < CommentRows(t)
  }

  lemma {:induction false} MisplacedSpoils(ns: Nodes, depth: nat, rest: seq<Row>)
    requires Kept(ns) && Filled(ns) && Outside(rest, depth) && !Placed(ns, CommentFollows(rest))
    ensures Spoiled(ns, depth, rest)
    decreases ns
  {
    hide Print, Behind, Loop, Parse, Spoiled, Outside;
    if ns == [] {
      RestSpoils(depth, rest);
    } else if ns[0].Leaf? {
      MisplacedSpoils(ns[1..], depth, rest);
      LeafSpoils(ns, depth, rest);
    } else {
      var body, behind := ns[0].body, Behind(ns, depth, rest);
      OutsideMore(rest, depth);
      BehindIsOutside(ns, depth, rest);
      if LeadsWithComment(body) {
        LeadingCommentSpoils(ns, depth, rest);
      } else {
        ParseBody(body, depth + 1, behind);
        if !Placed(body, CommentFollows(behind)) {
          MisplacedSpoils(body, depth + 1, behind);
          BodySpoils(ns, depth, rest);
        } else {
          LoopReads(body, depth + 1, behind);
          MisplacedSpoils(ns[1..], depth, rest);
          NextSpoils(ns, depth, rest);
        }
      }
    }
  }

  lemma RestSpoils(depth: nat, rest: seq<Row>)
    requires Outside(rest, depth) && CommentFollows(rest)
    ensures Spoiled([], depth, rest)
  {
    assert Print([], depth) + rest == rest;
  }

  lemma LeafSpoils(ns: Nodes, depth: nat, rest: seq<Row>)
    requires ns != [] && ns[0].Leaf? && ns[0].line != Note("}") && Spoiled(ns[1..], depth, rest)
    ensures Spoiled(ns, depth, rest)
  {
    PrintStep(ns, depth, rest);
    CommentsStep(ns[0], Loop(Print(ns[1..], depth) + rest, depth).0);
  }

  lemma LeadingCommentSpoils(ns: Nodes, depth: nat, rest: seq<Row>)
    requires ns != [] && !ns[0].Leaf? && LeadsWithComment(ns[0].body)
    ensures Spoiled(ns, depth, rest)
  {
    hide Spoiled, Loop, Parse;
    FirstRow(ns[0].body, depth + 1);
    ParseComments(Print(ns[0].body, depth + 1) + Behind(ns, depth, rest));
    ContainerSpoils(ns, depth, rest);
  }

  lemma BodySpoils(ns: Nodes, depth: nat, rest: seq<Row>)
    requires ns != [] && !ns[0].Leaf? && ns[0].body != [] && !LeadsWithComment(ns[0].body)
    requires Spoiled(ns[0].body, depth + 1, Behind(ns, depth, rest))
    ensures Spoiled(ns, depth, rest)
  {
    hide Loop, Parse;
    ParseBody(ns[0].body, depth + 1, Behind(ns, depth, rest));
    ContainerSpoils(ns, depth, rest);
  }

  /** A container is spoiled if its lines are. */
  lemma ContainerSpoils(ns: Nodes, depth: nat, rest: seq<Row>)
    requires ns != [] && !ns[0].Leaf? && ns[0].body != []
    requires var t := Print(ns[0].body, depth + 1) + Behind(ns, depth, rest);
      Parse(t).Some? ==>
        || Parse(t).value.0 != Plain(ns[0].body)
        || Comments(Parse(t).value.0) + CommentRows(Parse(t).value.1) < CommentRows(t)
    ensures Spoiled(ns, depth, rest)
  {
    PrintStep(ns, depth, rest);
    var t := Print(ns, depth) + rest;
    if Parse(t[1..]).Some? {
      var (body, behind) := Parse(t[1..]).value;
      if ns[0].Block? {
        LoopComments(behind, depth);
        CommentsStep(Block(AsParsed(ns[0].head), body, false), Loop(behind, depth).0);
      } else if behind != [] && behind[0].entry.WhileRow? {
        LoopComments(behind[1..], depth);
        CommentsStep(DoWhile(behind[0].entry.condition, body), Loop(behind[1..], depth).0);
      }
    }
  }

  /** A container that is read well leaves the spoiled rest as it is. */
  lemma NextSpoils(ns: Nodes, depth: nat, rest: seq<Row>)
    requires ns != [] && !ns[0].Leaf? && ns[0].body != [] && Spoiled(ns[1..], depth, rest)
    requires ns[0].Block? ==> AsParsed(ns[0].head) == ns[0].head
    requires Parse(Print(ns[0].body, depth + 1) + Behind(ns, depth, rest))
          == Some((Plain(ns[0].body), Behind(ns, depth, rest)))
    ensures Spoiled(ns, depth, rest)
  {
    hide Print, Behind, Parse;
    PrintStep(ns, depth, rest);
    var t := Print(ns, depth) + rest;
    var body, behind := ns[0].body, Behind(ns, depth, rest);
    ParseComments(t[1..]);
    BehindComments(ns, depth, rest);
    if ns[0].Block? {
      LoopBehind(ns, depth, rest);
      CommentsStep(Block(ns[0].head, Plain(body), false), Loop(behind, depth).0);
    } else {
      BehindWhile(ns, depth, rest);
      CommentsStep(DoWhile(ns[0].condition, Plain(body)), Loop(behind[1..], depth).0);
    }
  }

  lemma {:induction false} PlainKeeps(ns: Nodes)
    ensures Comments(Plain(ns)) == Comments(ns)
    ensures Kept(Plain(ns)) <==> Kept(ns)
    decreases ns
  {
    if ns != [] {
      PlainKeeps(ns[1..]);
      CommentsStep(Plain(ns)[0], Plain(ns[1..]));
      KeptSum(Plain(ns)[0], Plain(ns[1..]));
      if !ns[0].Leaf? {
        PlainKeeps(ns[0].body);
      }
    }
  }

  /** A printed tree is parsed back to itself exactly if no else-if has a guard, no container begins
      with a comment, and a comment behind a container stands behind its closing row. All rows are
      read. */
  lemma TablesRoundTrip(ns: Nodes, depth: nat)
    requires ns != [] && Filled(ns)
    ensures Parse(Print(ns, depth)) == Some((Plain(ns), []))
       <==> Kept(ns) && !LeadsWithComment(ns) && Placed(ns, false)
  {
    var t := Print(ns, depth);
    assert t + [] == t;
    FirstRow(ns, depth);
    PlainKeeps(ns);
    PrintedComments(ns, depth);
    ParseIsKept(t);
    ParseComments(t);
    if Kept(ns) && !LeadsWithComment(ns) {
      ParseBody(ns, depth, []);
      if Placed(ns, false) {
        LoopReads(ns, depth, []);
      } else {
        MisplacedSpoils(ns, depth, []);
      }
    }
  }

  /** A table that ends too early. Behind lines that are read back, a head without lines gives an empty
      container and a do without lines gives nothing; and if the row that closes a do is missing, the do
      is lost with all its lines, while the lines in front of it stay. */
  lemma TableEndsEarly(ns: Nodes, depth: nat, head: Head, body: Nodes)
    requires Kept(ns) && Filled(ns) && Placed(ns, false)
    requires body != [] && Kept(body) && Filled(body) && Placed(body, false) && !LeadsWithComment(body)
    ensures Loop(Print(ns, depth) + [Row(depth, HeadRow(head))], depth)
         == (Plain(ns) + [Block(AsParsed(head), [], false)], [])
    ensures Loop(Print(ns, depth) + [Row(depth, DoRow)], depth) == (Plain(ns), [])
    ensures Loop(Print(ns, depth) + ([Row(depth, DoRow)] + Print(body, depth + 1)), depth) == (Plain(ns), [])
  {
    hide Print, Parse, Kept, Filled, Plain, Placed, Loop;
    LoopGoesOn(ns, depth, [Row(depth, HeadRow(head))]);
    LoopGoesOn(ns, depth, [Row(depth, DoRow)]);
    var rest := [Row(depth, DoRow)] + Print(body, depth + 1);
    LoopGoesOn(ns, depth, rest);
    LoopReads(body, depth + 1, []);
    ParseBody(body, depth + 1, []);
    LoneRows(depth, head);
    assert Print(body, depth + 1) + [] == Print(body, depth + 1);
    LoneDo(depth, Print(body, depth + 1), Plain(body));
    assert Plain(ns) + [] == Plain(ns);
  }

  lemma LoneRows(depth: nat, head: Head)
    ensures Loop([Row(depth, HeadRow(head))], depth) == ([Block(AsParsed(head), [], false)], [])
    ensures Loop([Row(depth, DoRow)], depth) == ([], [])
  {
    assert [Row(depth, HeadRow(head))][1..] == [] && [Row(depth, DoRow)][1..] == [];
    assert Parse([]) == None;
  }

  lemma LoneDo(depth: nat, rows: seq<Row>, nodes: Nodes)
    requires Parse(rows) == Some((nodes, []))
    ensures Loop([Row(depth, DoRow)] + rows, depth) == ([], [])
  {
    hide Parse;
    assert ([Row(depth, DoRow)] + rows)[1..] == rows;
  }

  /** A container without lines takes the next line of its parent instead: the trees that come back
      must have none. */
  lemma EmptyTakesNext(head: Head, line: Line, depth: nat)
    requires line != Note("}") && !SlashedLine(line)
    ensures Parse(Print([Block(head, [], false)] + [Leaf(line)], depth))
         == Some(([Block(AsParsed(head), [Leaf(line)], false)], []))
  {
    var leaf, ns := [Leaf(line)], [Block(head, [], false)] + [Leaf(line)];
    assert ns[1..] == leaf && leaf[1..] == [];
    var rows, t := Print(leaf, depth), Print(ns, depth);
    PrintStep(ns, depth, []);
    assert Behind(ns, depth, []) == rows && t + [] == t && Print([], depth + 1) + rows == rows;
    LoopReads(leaf, depth, []);
    assert rows + [] == rows;
    ParseBody(leaf, depth, []);
    assert Plain(leaf) == leaf by {
      assert Plain(leaf[1..]) == [];
    }
    assert Parse(rows) == Some((leaf, []));
    assert Parse(t[1..]) == Some((leaf, []));
    FirstRow(ns, depth);
    assert Loop(t, depth) == ([Block(AsParsed(head), leaf, false)] + Loop([], depth).0, Loop([], depth).1);
    assert Loop([], depth) == ([], []);
    var block := [Block(AsParsed(head), leaf, false)];
    assert block + [] == block;
  }
}
