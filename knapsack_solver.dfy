/**
  The knapsack driver: reads an instance (a header line "count capacity",
  then one "value weight" line per item, blank lines ignored), solves it with
  the dynamic program, and writes "objective flag" followed by the line of
  0/1 decisions.
 */
module KnapsackSolver {
  import opened Builtins
  import opened Knapsack

  /** A parsed instance: the announced item count (read but never used),
      the capacity and the items in input order. */
  datatype Instance = Instance(itemCount: nat, capacity: nat, items: seq<Item>)

  // ---------------------------------------------------------------------------
  // Reading the input
  // ---------------------------------------------------------------------------

  /** One non-blank item line: exactly two fields cut at single spaces, both
      decimal; the item records the position `index` of its line. */
  function ParseItem(index: nat, line: string): Result<Item>
  {
    var fields := Split(line, ' ');
    if |fields| != 2 then Err(ValueError)
    else match (Int(fields[0]), Int(fields[1]))
      case (Ok(value), Ok(weight)) => Ok(Item(index, value, weight))
      case _ => Err(ValueError)
  }

  /** The items of the lines after the header, line by line: a blank line is
      skipped (its position is still counted), any other line must be an
      item line. */
  function ParseLines(lines: seq<string>): Result<seq<Item>>
  {
    if lines == [] then Ok([])
    else match ParseLines(lines[..|lines| - 1])
      case Err(e) => Err(e)
      case Ok(items) =>
        var last := lines[|lines| - 1];
        if last == "" then Ok(items)
        else match ParseItem(|lines| - 1, last)
          case Err(e) => Err(e)
          case Ok(item) => Ok(items + [item])
  }

  /** The whole input: the header must have exactly two fields, the item lines
      are read next, and only then are the two header fields converted. */
  function Inputs(input: string): Result<Instance>
  {
    var lines := Split(input, '\n');
    var header := Split(lines[0], ' ');
    if |header| != 2 then Err(ValueError)
    else match ParseLines(lines[1..])
      case Err(e) => Err(e)
      case Ok(items) =>
        match (Int(header[0]), Int(header[1]))
          case (Ok(count), Ok(capacity)) => Ok(Instance(count, capacity, items))
          case _ => Err(ValueError)
  }

  /** A bad line makes the rest of the input irrelevant: the error stays. */
  lemma {:induction false} ParseErrorStays(lines: seq<string>, j: nat)
    requires j <= |lines| && ParseLines(lines[..j]) == Err(ValueError)
    ensures ParseLines(lines) == Err(ValueError)
    decreases |lines| - j
  {
    if j < |lines| {
      assert lines[..j + 1][..j] == lines[..j];
      ParseErrorStays(lines, j + 1);
    } else {
      assert lines[..j] == lines;
    }
  }

  /** Reads the instance line by line, as the source's loop does. */
  method GetInputs(input: string) returns (r: Result<Instance>)
    ensures r == Inputs(input)
  {
    var lines := Split(input, '\n');
    var header := Split(lines[0], ' ');
    if |header| != 2 {
      return Err(ValueError);
    }
    var rest := lines[1..];
    var items: seq<Item> := [];
    for ix := 0 to |rest|
      invariant ParseLines(rest[..ix]) == Ok(items)
    {
      var line := rest[ix];
      assert rest[..ix + 1][..ix] == rest[..ix];
      if line != "" {
        var fields := Split(line, ' ');
        if |fields| != 2 {
          ParseErrorStays(rest, ix + 1);
          return Err(ValueError);
        }
        var value := Int(fields[0]);
        var weight := Int(fields[1]);
        if value.Err? || weight.Err? {
          ParseErrorStays(rest, ix + 1);
          return Err(ValueError);
        }
        items := items + [Item(ix, value.value, weight.value)];
      }
    }
    assert rest[..|rest|] == rest;
    var count := Int(header[0]);
    var capacity := Int(header[1]);
    if count.Err? || capacity.Err? {
      return Err(ValueError);
    }
    return Ok(Instance(count.value, capacity.value, items));
  }

  /** Every error the reader raises is a `ValueError`. */
  lemma {:induction false} ParseLinesValueError(lines: seq<string>)
    ensures ParseLines(lines).Err? ==> ParseLines(lines).error == ValueError
  {
    if lines != [] {
      ParseLinesValueError(lines[..|lines| - 1]);
    }
  }

  /** The items read are exactly the non-blank lines, in order: each item
      carries the position of its own line, the positions strictly increase,
      and every non-blank line gives an item. */
  lemma {:induction false} ParseLinesIndices(lines: seq<string>)
    requires ParseLines(lines).Ok?
    ensures var items := ParseLines(lines).value;
            && |items| <= |lines|
            && (forall j :: 0 <= j < |items| ==>
                  items[j].index < |lines| && lines[items[j].index] != "" &&
                  ParseItem(items[j].index, lines[items[j].index]) == Ok(items[j]))
            && (forall j, j' :: 0 <= j < j' < |items| ==> items[j].index < items[j'].index)
            && (forall j :: 0 <= j < |lines| && lines[j] != "" ==>
                  exists t :: 0 <= t < |items| && items[t].index == j)
  {
    if lines != [] {
      var prefix := lines[..|lines| - 1];
      ParseLinesIndices(prefix);
      var items := ParseLines(lines).value;
      var before := ParseLines(prefix).value;
      forall j | 0 <= j < |before|
        ensures lines[before[j].index] == prefix[before[j].index]
      {
      }
    }
    NonBlankLinesRead(lines);
  }

  /** Every non-blank line gives an item carrying its position. */
  lemma {:induction false} NonBlankLinesRead(lines: seq<string>)
    requires ParseLines(lines).Ok?
    ensures forall j :: 0 <= j < |lines| && lines[j] != "" ==>
              exists t :: 0 <= t < |ParseLines(lines).value| && ParseLines(lines).value[t].index == j
  {
    if lines != [] {
      var prefix := lines[..|lines| - 1];
      NonBlankLinesRead(prefix);
      var items := ParseLines(lines).value;
      var before := ParseLines(prefix).value;
      assert items[..|before|] == before;
      forall j | 0 <= j < |lines| && lines[j] != ""
        ensures exists t :: 0 <= t < |items| && items[t].index == j
      {
        if j < |prefix| {
          assert prefix[j] == lines[j];
          var t :| 0 <= t < |before| && before[t].index == j;
          assert items[t] == before[t];
        } else {
          assert items[|items| - 1].index == j;
        }
      }
    }
  }

  /** The instance as the data files write it: the header, then one line per
      item. */
  function Render(inst: Instance): string
  {
    Join([Str(inst.itemCount) + " " + Str(inst.capacity)] + ItemLines(inst.items), "\n")
  }

  function ItemLines(items: seq<Item>): (r: seq<string>)
    ensures |r| == |items|
  {
    seq(|items|, j requires 0 <= j < |items| => Str(items[j].value) + " " + Str(items[j].weight))
  }

  /** Two decimals joined by a space split back into themselves. */
  lemma Pair(a: nat, b: nat)
    ensures Split(Str(a) + " " + Str(b), ' ') == [Str(a), Str(b)]
    ensures '\n' !in Str(a) + " " + Str(b)
  {
    var s := Str(a) + " " + Str(b);
    assert Join([Str(a), Str(b)], [' ']) == s;
    assert forall i :: 0 <= i < |Str(a)| ==> IsDigit(Str(a)[i]);
    assert forall i :: 0 <= i < |Str(b)| ==> IsDigit(Str(b)[i]);
    SplitJoin([Str(a), Str(b)], ' ');
  }

  /** Item lines are read back as the items, when each item records its
      position. */
  lemma {:induction false} ParseItemLines(items: seq<Item>)
    requires forall j :: 0 <= j < |items| ==> items[j].index == j
    ensures ParseLines(ItemLines(items)) == Ok(items)
    decreases |items|
  {
    if items != [] {
      var n := |items| - 1;
      var lines := ItemLines(items);
      assert lines[..n] == ItemLines(items[..n]);
      ParseItemLines(items[..n]);
      Pair(items[n].value, items[n].weight);
      IntStr(items[n].value);
      IntStr(items[n].weight);
      assert lines[n] != "";
      assert items[..n] + [items[n]] == items;
    }
  }

  /** Reading a rendered instance gives it back. */
  lemma InputsRender(inst: Instance)
    requires forall j :: 0 <= j < |inst.items| ==> inst.items[j].index == j
    ensures Inputs(Render(inst)) == Ok(inst)
  {
    var lines := [Str(inst.itemCount) + " " + Str(inst.capacity)] + ItemLines(inst.items);
    Pair(inst.itemCount, inst.capacity);
    forall j | 0 <= j < |lines| ensures '\n' !in lines[j] {
      if j > 0 {
        Pair(inst.items[j - 1].value, inst.items[j - 1].weight);
      }
    }
    SplitJoin(lines, '\n');
    assert Join(lines, "\n") == Join(lines, ['\n']);
    assert lines[1..] == ItemLines(inst.items);
    ParseItemLines(inst.items);
    IntStr(inst.itemCount);
    IntStr(inst.capacity);
  }

  /** A trailing newline, as the data files have, changes nothing. */
  lemma TrailingNewline(input: string)
    ensures Inputs(input + "\n") == Inputs(input)
  {
    SplitOnConcat(input, '\n', "", {'\n'});
    assert input + ['\n'] + "" == input + "\n";
    var lines := Split(input, '\n');
    assert Split(input + "\n", '\n') == lines + [""];
    assert (lines + [""])[1..] == lines[1..] + [""];
    assert (lines[1..] + [""])[..|lines[1..]|] == lines[1..];
  }

  // ---------------------------------------------------------------------------
  // Writing the output
  // ---------------------------------------------------------------------------

  /** One "1" or "0" per decision. */
  function Bits(taken: seq<bool>): (r: seq<string>)
    ensures |r| == |taken|
  {
    seq(|taken|, i requires 0 <= i < |taken| => Flag(taken[i]))
  }

  /** The answer: the objective and the optimality flag on the first line,
      the decisions separated by spaces on the second. */
  function Outputs(obj: nat, isOptimal: bool, taken: seq<bool>): (r: string)
    ensures Split(r, '\n') == [Str(obj) + " " + Flag(isOptimal), Join(Bits(taken), " ")]
    ensures Split(Split(r, '\n')[0], ' ') == [Str(obj), Flag(isOptimal)]
  {
    var first := Str(obj) + " " + Flag(isOptimal);
    var second := Join(Bits(taken), " ");
    HeadLine(obj, isOptimal);
    ReadBitsBack(taken);
    TwoLines(first, second);
    first + "\n" + second
  }

  /** Reads a line of decisions; the empty line holds none. */
  function ReadBits(line: string): Option<seq<bool>>
  {
    if line == "" then Some([])
    else
      var fields := Split(line, ' ');
      if forall i :: 0 <= i < |fields| ==> ReadFlag(fields[i]).Some?
      then Some(seq(|fields|, i requires 0 <= i < |fields| => ReadFlag(fields[i]).value))
      else None
  }

  /** A reader for the answer format, independent of the writer. */
  function ReadOutput(s: string): Option<(nat, bool, seq<bool>)>
  {
    var lines := Split(s, '\n');
    if |lines| != 2 then None
    else
      var head := Split(lines[0], ' ');
      if |head| != 2 || Int(head[0]).Err? || ReadFlag(head[1]).None? || ReadBits(lines[1]).None? then None
      else Some((Int(head[0]).value, ReadFlag(head[1]).value, ReadBits(lines[1]).value))
  }

  /** The line of decisions reads back as the decisions. */
  lemma ReadBitsBack(taken: seq<bool>)
    ensures NoneOf(Join(Bits(taken), " "), {'\n'})
    ensures ReadBits(Join(Bits(taken), " ")) == Some(taken)
  {
    var bits := Bits(taken);
    JoinFree(bits, ' ', '\n');
    assert Join(bits, " ") == Join(bits, [' ']);
    if taken != [] {
      SplitJoin(bits, ' ');
      JoinNonEmpty(bits, [' ']);
      assert seq(|bits|, i requires 0 <= i < |bits| => ReadFlag(bits[i]).value) == taken;
    }
  }

  /** The answer reads back as the objective, the flag and the decisions. */
  lemma OutputsReadBack(obj: nat, isOptimal: bool, taken: seq<bool>)
    ensures ReadOutput(Outputs(obj, isOptimal, taken)) == Some((obj, isOptimal, taken))
  {
    var first := Str(obj) + " " + Flag(isOptimal);
    var second := Join(Bits(taken), " ");
    HeadLine(obj, isOptimal);
    ReadBitsBack(taken);
    TwoLines(first, second);
  }

  // ---------------------------------------------------------------------------
  // The driver
  // ---------------------------------------------------------------------------

  /** Reads the instance, solves it with a capacity step of one, and writes
      the answer, always flagged optimal. Errors of the reader and of the
      solver pass through; a successful answer reads back as the table's
      best value, the flag 1 and decisions that reach that value within the
      capacity. */
  method SolveIt(input: string) returns (r: Result<string>)
    ensures Inputs(input).Err? ==> r == Err(ValueError)
    ensures Inputs(input).Ok? && (Inputs(input).value.capacity == 0 || Inputs(input).value.items == []) ==>
              r == Err(UnboundLocalError)
    ensures Inputs(input).Ok? && Inputs(input).value.capacity >= 1 && Inputs(input).value.items != [] ==>
              (r == Err(OverflowError) <==>
                 Cell(Inputs(input).value.items, Inputs(input).value.capacity, |Inputs(input).value.items|) >= 0x1_0000_0000)
    ensures Inputs(input).Ok? && Inputs(input).value.capacity >= 1 && Inputs(input).value.items != [] &&
            Cell(Inputs(input).value.items, Inputs(input).value.capacity, |Inputs(input).value.items|) < 0x1_0000_0000 ==>
              r.Ok?
    ensures r.Ok? ==>
              && Inputs(input).Ok?
              && ReadOutput(r.value).Some?
              && ReadOutput(r.value).value.1
              && Solved(Inputs(input).value.items, Inputs(input).value.capacity,
                        ReadOutput(r.value).value.0, ReadOutput(r.value).value.2)
  {
    var inst := GetInputs(input);
    if inst.Err? {
      ParseLinesValueError(Split(input, '\n')[1..]);
      return Err(inst.error);
    }
    var solution := SolveKnapsack(inst.value.capacity, inst.value.items);
    if solution.Err? {
      return Err(solution.error);
    }
    var (obj, taken) := solution.value;
    OutputsReadBack(obj, true, taken);
    return Ok(Outputs(obj, true, taken));
  }
}
