/**
 * The three pieces composed: filter the source text, index its loops, run it.
 * Also the behaviour of the jumps on a registered program, and the
 * consequence of registering an unmatched `[`.
 */
module Program {
  import opened Wrappers
  import opened Syntax
  import opened CommentFilter
  import opened LoopIndex
  import opened LoopFacts
  import opened Memory
  import opened Machine

  /** On a registered program, `[` on zero leaves the loop and `]` on non-zero re-enters it, past the `[`. */
  lemma JumpTargets(code: seq<byte>, loops: seq<Loop>, m: Machine)
    requires Register(code) == Ok(loops) && Valid(m.tape) && m.pc < |code|
    ensures Step(code, loops, m).Halt? ==> Step(code, loops, m).exit in {Success, LeftOfOrigin, UnknownInstruction}
    ensures code[m.pc] == OPEN && Read(m.tape) == 0 && !Unmatched(code, m.pc) ==>
              exists e: nat :: Matches(code, m.pc, e) && Step(code, loops, m) == Next(m.(pc := e + 1))
    ensures code[m.pc] == OPEN && Read(m.tape) == 0 && Unmatched(code, m.pc) ==>
              Step(code, loops, m) == Next(m.(pc := 1))
    ensures code[m.pc] == CLOSE && Read(m.tape) != 0 ==>
              exists s: nat :: Matches(code, s, m.pc) && Step(code, loops, m) == Next(m.(pc := s + 1))
  {
    if code[m.pc] == OPEN {
      FindByStartSound(code, loops, m.pc);
      if Read(m.tape) == 0 && !Unmatched(code, m.pc) {
        var e := FindByStart(loops, m.pc).value.end;
        assert Step(code, loops, m) == Next(m.(pc := e + 1));
      }
    } else if code[m.pc] == CLOSE {
      FindByEndSound(code, loops, m.pc);
      if Read(m.tape) != 0 {
        var s := FindByEnd(loops, m.pc).value.start;
        assert Step(code, loops, m) == Next(m.(pc := s + 1));
      }
    }
  }

  /** On a registered program no loop lookup fails, and on a filtered one no byte is unknown. */
  lemma RunNeverMisses(code: seq<byte>, loops: seq<Loop>, m: Machine, fuel: nat)
    requires Register(code) == Ok(loops) && Valid(m.tape)
    ensures Run(code, loops, m, fuel).Done? ==> Run(code, loops, m, fuel).exit in {Success, LeftOfOrigin, UnknownInstruction}
    ensures Run(code, loops, m, fuel).Done? && (forall k :: 0 <= k < |code| ==> IsCommand(code[k])) ==>
              Run(code, loops, m, fuel).exit in {Success, LeftOfOrigin}
  {
    var r := Run(code, loops, m, fuel);
    if r.Done? && r.state.pc < |code| {
      JumpTargets(code, loops, r.state);
    }
  }

  /** What a run of the interpreter on a source text reports. */
  datatype Report =
    | Rejected(error: LoopError)                 // the loop index could not be built; nothing ran
    | Finished(exit: Exit, output: seq<byte>)    // the run stopped within the fuel
    | Unfinished(output: seq<byte>)              // the fuel ran out first

  /**
   * Filter the text, build the loop index with the check for unmatched
   * brackets, and run at most `fuel` steps from the initial machine.
   */
  function Execute(text: seq<byte>, input: seq<byte>, fuel: nat): (r: Report)
    ensures r.Rejected? <==> !Balanced(Filter(text))
    ensures r.Finished? ==> r.exit == Success || r.exit == LeftOfOrigin
  {
    var code := Filter(text);
    BuildSound(code);
    match Build(code)
    case Err(e) => Rejected(e)
    case Ok(loops) =>
      RunNeverMisses(code, loops, Initial(input), fuel);
      match Run(code, loops, Initial(input), fuel)
      case Done(e, m) => Finished(e, m.output)
      case OutOfFuel(m) => Unfinished(m.output)
  }

  // ----- An unmatched `[` -----

  /** The program ">[": one move right, then a `[` nothing closes. */
  const SPIN: seq<byte> := [RIGHT, OPEN]

  /** Once at the `[` of SPIN on a zero cell, the machine steps to itself. */
  lemma {:induction false} SpinStaysPut(m: Machine, fuel: nat)
    requires Valid(m.tape) && m.pc == 1 && Read(m.tape) == 0
    ensures Run(SPIN, [Loop(1, 0)], m, fuel) == OutOfFuel(m)
    decreases fuel
  {
    if fuel > 0 {
      assert Step(SPIN, [Loop(1, 0)], m) == Next(m);
      SpinStaysPut(m, fuel - 1);
    }
  }

  /**
   * `register_loops` accepts SPIN, leaving the record of its `[` with end 0;
   * the `[` then jumps to 0 + 1 = 1, itself, and the run never ends.
   */
  lemma UnmatchedOpenSpins(input: seq<byte>, fuel: nat)
    ensures Register(SPIN) == Ok([Loop(1, 0)])
    ensures Run(SPIN, [Loop(1, 0)], Initial(input), fuel).OutOfFuel?
  {
    assert ScanPrefix(SPIN, 1) == Ok(Scan([], []));
    assert Push(Scan([], []), 1) == Scan([Loop(1, 0)], [0]);
    assert ScanPrefix(SPIN, 2) == Ok(Scan([Loop(1, 0)], [0]));
    if fuel > 0 {
      var m := Initial(input);
      var m1 := Step(SPIN, [Loop(1, 0)], m).state;
      assert Step(SPIN, [Loop(1, 0)], m) == Next(m1);
      assert Read(m1.tape) == Get(m1.tape, 1) == 0;
      SpinStaysPut(m1, fuel - 1);
    }
  }

  /** With the check for unmatched brackets, SPIN is rejected before anything runs. */
  lemma UnmatchedOpenRejected(input: seq<byte>, fuel: nat)
    ensures Build(SPIN) == Err(UnmatchedOpen(1))
    ensures Execute(SPIN, input, fuel) == Rejected(UnmatchedOpen(1))
  {
    UnmatchedOpenSpins(input, fuel);
    FilterKeepsCommands(SPIN);
  }

  // ----- Small programs -----

  /** "<": the very first instruction shifts left of 0; the run stops with status 1 and no output. */
  lemma LeadingLeftAborts(input: seq<byte>, fuel: nat)
    requires fuel > 0
    ensures Execute([LEFT], input, fuel) == Finished(LeftOfOrigin, [])
    ensures Status(LeftOfOrigin) == 1
  {
    FilterKeepsCommands([LEFT]);
    assert ScanPrefix([LEFT], 1) == Ok(Scan([], []));
  }

  /** The loop index of "+[-]": one record, the `[` at 1 closed by the `]` at 3. */
  lemma CountDownLoops()
    ensures Build([INC, OPEN, DEC, CLOSE]) == Ok([Loop(1, 3)])
  {
    var code := [INC, OPEN, DEC, CLOSE];
    assert ScanPrefix(code, 1) == Ok(Scan([], []));
    assert Push(Scan([], []), 1) == Scan([Loop(1, 0)], [0]);
    assert ScanPrefix(code, 2) == Ok(Scan([Loop(1, 0)], [0]));
    assert ScanPrefix(code, 3) == Ok(Scan([Loop(1, 0)], [0]));
    assert [Loop(1, 0)][0 := Loop(1, 3)] == [Loop(1, 3)];
    assert Pop(Scan([Loop(1, 0)], [0]), 3) == Scan([Loop(1, 3)], []);
    assert ScanPrefix(code, 4) == Ok(Scan([Loop(1, 3)], []));
  }

  /** "+[-]" run on its index: the loop counts the cell back to zero; five steps end the run, with no output. */
  lemma CountDownRun(input: seq<byte>)
    ensures Run([INC, OPEN, DEC, CLOSE], [Loop(1, 3)], Initial(input), 5).Done?
    ensures Run([INC, OPEN, DEC, CLOSE], [Loop(1, 3)], Initial(input), 5).exit == Success
    ensures Run([INC, OPEN, DEC, CLOSE], [Loop(1, 3)], Initial(input), 5).state.output == []
  {
    var code, loops := [INC, OPEN, DEC, CLOSE], [Loop(1, 3)];
    var m0 := Initial(input);
    var m1 := Step(code, loops, m0).state;
    assert Get(m1.tape, 0) == 1 && m1.pc == 1;
    var m2 := Step(code, loops, m1).state;
    assert m2.pc == 2 && m2.tape == m1.tape;
    var m3 := Step(code, loops, m2).state;
    assert Get(m3.tape, 0) == 0 && m3.pc == 3 && Pos(m3.tape) == 0;
    var m4 := Step(code, loops, m3).state;
    assert m4.pc == 4 && m4.output == [];
    assert Run(code, loops, m4, 1) == Done(Success, m4);
    assert Run(code, loops, m3, 2) == Run(code, loops, m4, 1);
    assert Run(code, loops, m2, 3) == Run(code, loops, m3, 2);
    assert Run(code, loops, m1, 4) == Run(code, loops, m2, 3);
  }

  /** "+[-]" as a source text: it is accepted and finishes within five steps, printing nothing. */
  lemma CountDownTerminates(input: seq<byte>)
    ensures Execute([INC, OPEN, DEC, CLOSE], input, 5) == Finished(Success, [])
  {
    FilterKeepsCommands([INC, OPEN, DEC, CLOSE]);
    CountDownLoops();
    CountDownRun(input);
  }
}
