/**
 * Running a split command line. The loop of `executeWithInput` walks over the
 * flat list of parts with one `lastStatus` variable; section 2.9.3 of the POSIX
 * Shell Command Language describes lists of left-associative AND-OR trees.
 * `FlatLoopIsAndOrLists` proves that both run the same commands in the same order
 * with the same input and end in the same world with the same status.
 *
 * One command is abstract: it maps the world, its text, its input and its
 * background mark to the next world, a status and whether the line stops there.
 */
module AndOr {
  import opened Chain
  import opened Spaces

  datatype Outcome<!W> = Outcome(world: W, status: int, stop: bool)

  type Command<!W> = (W, string, string, bool) -> Outcome<W>

  /** `ran` lists the commands run so far with their inputs. */
  datatype Exec<!W> = Exec(world: W, status: int, executed: bool, stopped: bool, ran: seq<(string, string)>)

  function Input(initial: string, consumes: bool, executed: bool): string {
    if initial != "" && consumes then initial else if !executed then initial else ""
  }

  function RunOne<W>(x: Exec<W>, p: Part, initial: string, consumes: string -> bool, run: Command<W>): Exec<W> {
    if x.stopped then x else
    var command := Trim(p.command);
    var input := Input(initial, consumes(command), x.executed);
    var o := run(x.world, command, input, p.background);
    Exec(o.world, o.status, true, o.stop, x.ran + [(command, input)])
  }

  // ----- the flat loop ------------------------------------------------------------

  predicate ShouldRun(before: string, status: int) {
    (before == "&&" ==> status == 0) && (before == "||" ==> status != 0)
  }

  function FlatRun<W>(x: Exec<W>, parts: seq<Part>, initial: string,
      consumes: string -> bool, run: Command<W>): Exec<W>
  {
    if parts == [] then x
    else
      var y := FlatRun(x, parts[..|parts| - 1], initial, consumes, run);
      var p := parts[|parts| - 1];
      if p.command == "" || !ShouldRun(p.before, y.status) then y else RunOne(y, p, initial, consumes, run)
  }

  method ExecuteParts<W>(world: W, parts: seq<Part>, initial: string, consumes: string -> bool, run: Command<W>)
      returns (result: Exec<W>)
    ensures result == FlatRun(Exec(world, 0, false, false, []), parts, initial, consumes, run)
  {
    hide Trim;
    ghost var start := Exec(world, 0, false, false, []);
    var w, lastStatus, executed := world, 0, false;
    var ran: seq<(string, string)> := [];
    assert parts[..0] == [];
    for i := 0 to |parts|
      invariant FlatRun(start, parts[..i], initial, consumes, run) == Exec(w, lastStatus, executed, false, ran)
    {
      var part := parts[i];
      assert parts[..i + 1][..i] == parts[..i];
      if part.command == "" {
        continue;
      }
      var shouldRun := true;
      match part.before {
        case "&&" => shouldRun := lastStatus == 0;
        case "||" => shouldRun := lastStatus != 0;
        case _ =>
      }
      if !shouldRun {
        continue;
      }
      var command := Trim(part.command);
      var stageInput := "";
      if initial != "" && consumes(command) {
        stageInput := initial;
      } else if !executed {
        stageInput := initial;
      }
      var res := run(w, command, stageInput, part.background);
      w, lastStatus, executed, ran := res.world, res.status, true, ran + [(command, stageInput)];
      if res.stop {
        StoppedStays(Exec(w, lastStatus, executed, true, ran), start, parts, i + 1, initial, consumes, run);
        return Exec(w, lastStatus, executed, true, ran);
      }
    }
    assert parts[..|parts|] == parts;
    return Exec(w, lastStatus, executed, false, ran);
  }

  lemma {:induction false} StoppedStays<W>(y: Exec<W>, x: Exec<W>, parts: seq<Part>, i: nat, initial: string,
      consumes: string -> bool, run: Command<W>)
    requires i <= |parts| && y.stopped && FlatRun(x, parts[..i], initial, consumes, run) == y
    ensures FlatRun(x, parts, initial, consumes, run) == y
    decreases |parts| - i
  {
    if i == |parts| {
      assert parts[..i] == parts;
    } else {
      assert parts[..i + 1][..i] == parts[..i];
      StoppedStays(y, x, parts, i + 1, initial, consumes, run);
    }
  }

  // ----- AND-OR lists -----------------------------------------------------------------

  datatype Tree = First(p: Part) | And(left: Tree, p: Part) | Or(left: Tree, p: Part)

  function EvalTree<W>(x: Exec<W>, t: Tree, initial: string, consumes: string -> bool, run: Command<W>): Exec<W> {
    match t
    case First(p) => RunOne(x, p, initial, consumes, run)
    case And(left, p) =>
      var y := EvalTree(x, left, initial, consumes, run);
      if y.status == 0 then RunOne(y, p, initial, consumes, run) else y
    case Or(left, p) =>
      var y := EvalTree(x, left, initial, consumes, run);
      if y.status == 0 then y else RunOne(y, p, initial, consumes, run)
  }

  /** The trees one after the other. */
  function EvalLists<W>(x: Exec<W>, ts: seq<Tree>, initial: string,
      consumes: string -> bool, run: Command<W>): Exec<W>
  {
    if ts == [] then x
    else EvalTree(EvalLists(x, ts[..|ts| - 1], initial, consumes, run), ts[|ts| - 1], initial, consumes, run)
  }

  function Flatten(t: Tree): seq<Part> {
    match t
    case First(p) => [p]
    case And(left, p) => Flatten(left) + [p]
    case Or(left, p) => Flatten(left) + [p]
  }

  function FlattenAll(ts: seq<Tree>): seq<Part> {
    if ts == [] then [] else FlattenAll(ts[..|ts| - 1]) + Flatten(ts[|ts| - 1])
  }

  /** The parts carry the operators of the tree they sit in. */
  predicate Labelled(t: Tree) {
    t.p.command != "" &&
    match t
    case First(p) => p.before == "" || p.before == ";"
    case And(left, p) => p.before == "&&" && Labelled(left)
    case Or(left, p) => p.before == "||" && Labelled(left)
  }

  /** What the splitter produces: no empty command, and nothing to be conditional on at the front. */
  predicate WellFormed(parts: seq<Part>) {
    && (forall p | p in parts :: p.command != "" && p.before in ["", ";", "&&", "||"])
    && (parts != [] ==> parts[0].before == "")
  }

  function Parse(parts: seq<Part>): (ts: seq<Tree>)
    requires WellFormed(parts)
    ensures parts != [] ==> ts != []
    decreases |parts|
  {
    if parts == [] then [] else
    var n := |parts| - 1;
    var p := parts[n];
    assert WellFormed(parts[..n]);
    var ts := Parse(parts[..n]);
    if p.before == "&&" then ts[|ts| - 1 := And(ts[|ts| - 1], p)]
    else if p.before == "||" then ts[|ts| - 1 := Or(ts[|ts| - 1], p)]
    else ts + [First(p)]
  }

  /** The trees hold exactly the given parts, in order. */
  lemma {:induction false} ParseKeepsParts(parts: seq<Part>)
    requires WellFormed(parts)
    ensures FlattenAll(Parse(parts)) == parts
    decreases |parts|
  {
    hide FlattenAll, Labelled;
    if parts == [] {
      assert FlattenAll([]) == [] by { NoTrees(); }
    } else {
      var n := |parts| - 1;
      var p, ts := parts[n], Parse(parts[..n]);
      assert WellFormed(parts[..n]);
      ParseKeepsParts(parts[..n]);
      assert parts == parts[..n] + [p];
      if p.before == "&&" || p.before == "||" {
        LastGrows(ts, if p.before == "&&" then And(ts[|ts| - 1], p) else Or(ts[|ts| - 1], p), p);
      } else {
        TreeAppended(ts, First(p));
      }
    }
  }

  lemma NoTrees()
    ensures FlattenAll([]) == []
  {}

  lemma TreeAppended(ts: seq<Tree>, t: Tree)
    ensures FlattenAll(ts + [t]) == FlattenAll(ts) + Flatten(t)
  {
    assert (ts + [t])[..|ts|] == ts;
  }

  /** And each part sits under its own operator. */
  lemma {:induction false} ParseKeepsOperators(parts: seq<Part>)
    requires WellFormed(parts)
    ensures forall t | t in Parse(parts) :: Labelled(t)
    decreases |parts|
  {
    if parts != [] {
      var n := |parts| - 1;
      assert WellFormed(parts[..n]) && parts[n] in parts;
      ParseKeepsOperators(parts[..n]);
    }
  }

  lemma LastGrows(ts: seq<Tree>, t: Tree, p: Part)
    requires ts != [] && Flatten(t) == Flatten(ts[|ts| - 1]) + [p]
    ensures FlattenAll(ts[|ts| - 1 := t]) == FlattenAll(ts) + [p]
  {
    var k := |ts| - 1;
    assert ts[k := t][..k] == ts[..k];
    assert FlattenAll(ts[..k]) + (Flatten(ts[k]) + [p]) == FlattenAll(ts[..k]) + Flatten(ts[k]) + [p];
  }

  /** The flat loop over the parts is the evaluation of their AND-OR lists. */
  lemma {:induction false} FlatLoopIsAndOrLists<W>(x: Exec<W>, parts: seq<Part>, initial: string,
      consumes: string -> bool, run: Command<W>)
    requires WellFormed(parts)
    ensures FlatRun(x, parts, initial, consumes, run) == EvalLists(x, Parse(parts), initial, consumes, run)
    decreases |parts|
  {
    hide RunOne;
    if parts != [] {
      var n := |parts| - 1;
      var p, ts := parts[n], Parse(parts[..n]);
      assert WellFormed(parts[..n]);
      assert p in parts;
      FlatLoopIsAndOrLists(x, parts[..n], initial, consumes, run);
      if p.before == "&&" || p.before == "||" {
        var k := |ts| - 1;
        var t := if p.before == "&&" then And(ts[k], p) else Or(ts[k], p);
        assert ts[k := t][..k] == ts[..k];
      } else {
        assert (ts + [First(p)])[..|ts|] == ts;
      }
    }
  }

  // ----- the splitter's output fits -----------------------------------------------------

  predicate Fits(f: Found) {
    && WellFormed(f.out)
    && if f.out == [] then f.before == "" else f.before in ["", ";", "&&", "||"]
  }

  lemma FlushFits(f: Found, piece: string, op: string)
    requires Fits(f) && op in [";", "&", "&&", "||"]
    ensures Fits(CutAt(f, piece, op)) && WellFormed(Flush(f, piece, "").out)
  {
    hide Trim;
  }

  lemma {:induction false} PartsFit(line: string, from: nat, k: nat, f: Found)
    requires from <= k <= |line| && Fits(f)
    ensures WellFormed(Parts(line, from, k, f))
    decreases |line| - k
  {
    hide Flush, CutAt, After, EndWord, Fits, WellFormed;
    if k == |line| {
      FlushFits(f, line[from..], ";");
    } else {
      var op := OperatorAt(line, from, k);
      if op == "" {
        PartsFit(line, from, k + 1, f);
      } else {
        FlushFits(f, line[from..k], op);
        PartsFit(line, k + |op|, k + |op|, CutAt(f, line[from..k], op));
      }
    }
  }

  /** From the text of a line to its meaning. */
  lemma ChainMeansAndOrLists<W>(world: W, line: string, initial: string, consumes: string -> bool, run: Command<W>)
    ensures WellFormed(ChainParts(line))
    ensures var x := Exec(world, 0, false, false, []);
      FlatRun(x, ChainParts(line), initial, consumes, run)
        == EvalLists(x, Parse(ChainParts(line)), initial, consumes, run)
  {
    PartsFit(line, 0, 0, Found([], ""));
    FlatLoopIsAndOrLists(Exec(world, 0, false, false, []), ChainParts(line), initial, consumes, run);
  }

  // ----- one more command ------------------------------------------------------------------

  /**
   * What one more part adds to a run, with the operators written out. It is skipped
   * if the line has been ended, if it is empty, or if its operator and the last
   * status say so; otherwise it runs, trimmed, on the world that the last command
   * left, with the initial input if it is the first to run or wants input.
   */
  lemma OneMorePart<W>(x: Exec<W>, parts: seq<Part>, p: Part, initial: string,
      consumes: string -> bool, run: Command<W>)
    ensures var y := FlatRun(x, parts, initial, consumes, run);
      var command := Trim(p.command);
      var input := if !y.executed || consumes(command) then initial else "";
      var o := run(y.world, command, input, p.background);
      FlatRun(x, parts + [p], initial, consumes, run) ==
        if y.stopped || p.command == "" || (p.before == "&&" && y.status != 0) || (p.before == "||" && y.status == 0)
        then y else Exec(o.world, o.status, true, o.stop, y.ran + [(command, input)])
  {
    hide Trim;
    assert (parts + [p])[..|parts|] == parts;
  }

  /** The first command of a line gets the initial input, and of the others those that want input. */
  lemma {:induction false} InputGoesWhere<W>(world: W, parts: seq<Part>, initial: string,
      consumes: string -> bool, run: Command<W>)
    ensures var r := FlatRun(Exec(world, 0, false, false, []), parts, initial, consumes, run);
      && (r.executed <==> r.ran != [])
      && forall i | 0 <= i < |r.ran| :: r.ran[i].1 == if i == 0 || consumes(r.ran[i].0) then initial else ""
  {
    hide Trim, RunOne, FlatRun;
    if parts == [] {
      NothingRuns(Exec(world, 0, false, false, []), initial, consumes, run);
    } else {
      var n := |parts| - 1;
      InputGoesWhere(world, parts[..n], initial, consumes, run);
      assert parts[..n] + [parts[n]] == parts;
      OneMorePart(Exec(world, 0, false, false, []), parts[..n], parts[n], initial, consumes, run);
    }
  }

  lemma NothingRuns<W>(x: Exec<W>, initial: string, consumes: string -> bool, run: Command<W>)
    ensures FlatRun(x, [], initial, consumes, run) == x
  {}
}
