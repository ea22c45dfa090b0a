/**
  The colouring driver's text handling: reading a graph (a header line
  "node_count edge_count", then one "x y" line per edge) and writing a
  colouring ("colours flag" followed by the colour of every node).
 */
module ColoringSolver {
  import opened Builtins

  /** What the reader hands to the graph: the node count and the edge list,
      in input order. */
  datatype GraphInput = GraphInput(nodeCount: nat, edges: seq<(nat, nat)>)

  // ---------------------------------------------------------------------------
  // Reading the graph
  // ---------------------------------------------------------------------------

  /** The first two whitespace-separated tokens of a line as naturals, in the
      order Python evaluates them: index the first token, convert it, then
      index the second and convert it. Further tokens are never looked at. */
  function ParsePair(line: string): Result<(nat, nat)>
  {
    var parts := WsSplit(line);
    if |parts| < 1 then Err(IndexError)
    else if Int(parts[0]).Err? then Err(ValueError)
    else if |parts| < 2 then Err(IndexError)
    else if Int(parts[1]).Err? then Err(ValueError)
    else Ok((Int(parts[0]).value, Int(parts[1]).value))
  }

  /** The edges on lines `1` to `m`; the first failing line decides the
      error, and a missing line is an `IndexError`. */
  function EdgesOf(lines: seq<string>, m: nat): Result<seq<(nat, nat)>>
  {
    if m == 0 then Ok([])
    else match EdgesOf(lines, m - 1)
      case Err(e) => Err(e)
      case Ok(edges) =>
        if m >= |lines| then Err(IndexError)
        else match ParsePair(lines[m])
          case Err(e) => Err(e)
          case Ok(edge) => Ok(edges + [edge])
  }

  /** The whole input: the header's first two tokens are the node count and
      the edge count, and exactly that many edge lines follow. */
  function ParseInput(input: string): Result<GraphInput>
  {
    var lines := Split(input, '\n');
    match ParsePair(lines[0])
      case Err(e) => Err(e)
      case Ok((nodeCount, edgeCount)) =>
        match EdgesOf(lines, edgeCount)
          case Err(e) => Err(e)
          case Ok(edges) => Ok(GraphInput(nodeCount, edges))
  }

  /** Reads the header and then `edge_count` edge lines, as the source's loop
      does. */
  method ParseGraph(input: string) returns (r: Result<GraphInput>)
    ensures r == ParseInput(input)
  {
    var lines := Split(input, '\n');
    var header := ParsePair(lines[0]);
    if header.Err? {
      return Err(header.error);
    }
    var (nodeCount, edgeCount) := header.value;
    var edges: seq<(nat, nat)> := [];
    for i := 1 to edgeCount + 1
      invariant EdgesOf(lines, i - 1) == Ok(edges)
    {
      if i >= |lines| {
        EdgeErrorStays(lines, i, edgeCount, IndexError);
        return Err(IndexError);
      }
      var edge := ParsePair(lines[i]);
      if edge.Err? {
        EdgeErrorStays(lines, i, edgeCount, edge.error);
        return Err(edge.error);
      }
      edges := edges + [edge.value];
    }
    return Ok(GraphInput(nodeCount, edges));
  }

  /** Once a line fails, reading more lines keeps its error. */
  lemma {:induction false} EdgeErrorStays(lines: seq<string>, m: nat, total: nat, e: Error)
    requires m <= total && EdgesOf(lines, m) == Err(e)
    ensures EdgesOf(lines, total) == Err(e)
    decreases total - m
  {
    if m < total {
      EdgeErrorStays(lines, m + 1, total, e);
    }
  }

  /** A successful read takes exactly `m` edges, edge `j` from line `j + 1`. */
  lemma {:induction false} EdgesOfLines(lines: seq<string>, m: nat)
    requires |lines| >= 1 && EdgesOf(lines, m).Ok?
    ensures m < |lines| && |EdgesOf(lines, m).value| == m
    ensures forall j :: 0 <= j < m ==> ParsePair(lines[j + 1]) == Ok(EdgesOf(lines, m).value[j])
  {
    if m > 0 {
      EdgesOfLines(lines, m - 1);
    }
  }

  /** Lines after the ones read make no difference. */
  lemma {:induction false} LaterLinesIgnored(lines: seq<string>, more: seq<string>, m: nat)
    requires m < |lines|
    ensures EdgesOf(lines + more, m) == EdgesOf(lines, m)
  {
    if m > 0 {
      LaterLinesIgnored(lines, more, m - 1);
      assert (lines + more)[m] == lines[m];
    }
  }

  /** Appending text after an input that reads successfully changes nothing. */
  lemma TrailingTextIgnored(input: string, rest: string)
    requires ParseInput(input).Ok?
    ensures ParseInput(input + "\n" + rest) == ParseInput(input)
  {
    var lines := Split(input, '\n');
    SplitOnConcat(input, '\n', rest, {'\n'});
    assert input + ['\n'] + rest == input + "\n" + rest;
    var all := Split(input + "\n" + rest, '\n');
    assert all == lines + Split(rest, '\n');
    assert all[0] == lines[0];
    var (_, edgeCount) := ParsePair(lines[0]).value;
    EdgesOfLines(lines, edgeCount);
    LaterLinesIgnored(lines, Split(rest, '\n'), edgeCount);
  }

  /** Two decimals followed by anything after whitespace read as the pair:
      extra tokens are ignored. */
  lemma ExtraTokensIgnored(a: nat, b: nat, c: char, extra: string)
    requires c in Whitespace
    ensures ParsePair(Str(a) + " " + Str(b) + [c] + extra) == Ok((a, b))
  {
    var line := Str(a) + " " + Str(b) + [c] + extra;
    WsSplitConcat(Str(a) + " " + Str(b), c, extra);
    PairTokens(a, b);
    IntStr(a);
    IntStr(b);
  }

  /** Two decimals joined by a space are two tokens. */
  lemma PairTokens(a: nat, b: nat)
    ensures WsSplit(Str(a) + " " + Str(b)) == [Str(a), Str(b)]
    ensures NoneOf(Str(a) + " " + Str(b), {'\n'})
  {
    DecimalNoWhitespace(Str(a));
    DecimalNoWhitespace(Str(b));
    WsSplitJoin([Str(a), Str(b)]);
    assert Join([Str(a), Str(b)], " ") == Str(a) + " " + Str(b);
    assert forall i :: 0 <= i < |Str(a)| ==> IsDigit(Str(a)[i]);
    assert forall i :: 0 <= i < |Str(b)| ==> IsDigit(Str(b)[i]);
  }

  /** The graph as the data files write it: the header, then one line per
      edge. */
  function Render(g: GraphInput): string
  {
    Join([PairLine(g.nodeCount, |g.edges|)] + EdgeLines(g.edges), "\n")
  }

  function PairLine(a: nat, b: nat): string
  {
    Str(a) + " " + Str(b)
  }

  function EdgeLines(edges: seq<(nat, nat)>): (r: seq<string>)
    ensures |r| == |edges|
  {
    seq(|edges|, j requires 0 <= j < |edges| => PairLine(edges[j].0, edges[j].1))
  }

  /** A rendered pair line reads back as the pair. */
  lemma ParsePairLine(a: nat, b: nat)
    ensures ParsePair(PairLine(a, b)) == Ok((a, b))
    ensures NoneOf(PairLine(a, b), {'\n'})
  {
    PairTokens(a, b);
    IntStr(a);
    IntStr(b);
  }

  /** The edge lines of a rendered graph read back as its edges. */
  lemma {:induction false} EdgesOfRender(lines: seq<string>, edges: seq<(nat, nat)>, m: nat)
    requires m <= |edges| && |lines| == |edges| + 1
    requires forall j :: 0 <= j < |edges| ==> lines[j + 1] == PairLine(edges[j].0, edges[j].1)
    ensures EdgesOf(lines, m) == Ok(edges[..m])
  {
    if m > 0 {
      EdgesOfRender(lines, edges, m - 1);
      ParsePairLine(edges[m - 1].0, edges[m - 1].1);
      assert edges[..m - 1] + [edges[m - 1]] == edges[..m];
    }
  }

  /** Reading a rendered graph gives it back. */
  lemma ParseRender(g: GraphInput)
    ensures ParseInput(Render(g)) == Ok(g)
  {
    var lines := [PairLine(g.nodeCount, |g.edges|)] + EdgeLines(g.edges);
    forall j | 0 <= j < |lines| ensures '\n' !in lines[j] {
      if j == 0 {
        ParsePairLine(g.nodeCount, |g.edges|);
      } else {
        ParsePairLine(g.edges[j - 1].0, g.edges[j - 1].1);
      }
    }
    SplitJoin(lines, '\n');
    assert Join(lines, "\n") == Join(lines, ['\n']);
    ParsePairLine(g.nodeCount, |g.edges|);
    EdgesOfRender(lines, g.edges, |g.edges|);
    assert g.edges[..|g.edges|] == g.edges;
  }

  // ---------------------------------------------------------------------------
  // Writing the colouring
  // ---------------------------------------------------------------------------

  /** The colours in node order, as decimals. */
  function Colours(solution: seq<nat>): (r: seq<string>)
    ensures |r| == |solution|
  {
    seq(|solution|, i requires 0 <= i < |solution| => Str(solution[i]))
  }

  /** The answer: one more than the largest colour and the optimality flag on
      the first line, the colours separated by spaces on the second. `max`
      of an empty solution raises `ValueError`. */
  function FormatOutput(solution: seq<nat>, isOptimal: bool): (r: Result<string>)
    ensures r.Err? <==> solution == []
    ensures r.Err? ==> r.error == ValueError
    ensures r.Ok? ==> Split(r.value, '\n') == [Str(SeqMax(solution) + 1) + " " + Flag(isOptimal), Join(Colours(solution), " ")]
  {
    if solution == [] then Err(ValueError)
    else
      var first := Str(SeqMax(solution) + 1) + " " + Flag(isOptimal);
      var second := Join(Colours(solution), " ");
      HeadLine(SeqMax(solution) + 1, isOptimal);
      ReadColours(solution);
      TwoLines(first, second);
      Ok(first + "\n" + second)
  }

  /** A line of space-separated decimals; the empty line holds none. */
  function ReadNumbers(line: string): Option<seq<nat>>
  {
    if line == "" then Some([])
    else
      var fields := Split(line, ' ');
      if forall i :: 0 <= i < |fields| ==> Int(fields[i]).Ok?
      then Some(seq(|fields|, i requires 0 <= i < |fields| => Int(fields[i]).value))
      else None
  }

  /** A reader for the answer format, independent of the writer: the colour
      count, the flag and the colours. */
  function ReadOutput(s: string): Option<(nat, bool, seq<nat>)>
  {
    var lines := Split(s, '\n');
    if |lines| != 2 then None
    else
      var head := Split(lines[0], ' ');
      if |head| != 2 || Int(head[0]).Err? || ReadFlag(head[1]).None? || ReadNumbers(lines[1]).None? then None
      else Some((Int(head[0]).value, ReadFlag(head[1]).value, ReadNumbers(lines[1]).value))
  }

  /** The line of colours reads back as the colours. */
  lemma ReadColours(solution: seq<nat>)
    requires solution != []
    ensures NoneOf(Join(Colours(solution), " "), {'\n'})
    ensures ReadNumbers(Join(Colours(solution), " ")) == Some(solution)
  {
    var parts := Colours(solution);
    forall i | 0 <= i < |parts| ensures ' ' !in parts[i] && '\n' !in parts[i] && Int(parts[i]) == Ok(solution[i]) {
      assert forall j :: 0 <= j < |parts[i]| ==> IsDigit(parts[i][j]);
      IntStr(solution[i]);
    }
    JoinFree(parts, ' ', '\n');
    assert Join(parts, " ") == Join(parts, [' ']);
    SplitJoin(parts, ' ');
    JoinNonEmpty(parts, [' ']);
    assert seq(|parts|, i requires 0 <= i < |parts| => Int(parts[i]).value) == solution;
  }

  /** The answer reads back as the colour count (one more than the largest
      colour), the flag, and the colours in node order. */
  lemma FormatReadBack(solution: seq<nat>, isOptimal: bool)
    requires solution != []
    ensures FormatOutput(solution, isOptimal).Ok?
    ensures ReadOutput(FormatOutput(solution, isOptimal).value) == Some((SeqMax(solution) + 1, isOptimal, solution))
  {
    var count := SeqMax(solution) + 1;
    var first := Str(count) + " " + Flag(isOptimal);
    var second := Join(Colours(solution), " ");
    assert FormatOutput(solution, isOptimal).value == first + "\n" + second;
    HeadLine(count, isOptimal);
    ReadColours(solution);
    TwoLines(first, second);
  }
}
