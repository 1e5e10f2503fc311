/**
 * The tape as the language sees it: one unbounded row of zero-initialised
 * byte cells and a data pointer that must not go below 0. `SpecStep` runs an
 * instruction on that tape; the segmented tape of `Machine.Step` is shown to
 * be an implementation of it, step by step and over whole runs.
 */
module Reference {
  import opened Syntax
  import opened LoopIndex
  import opened Memory
  import opened Machine

  /** A state over the unbounded tape; cells absent from `tape` hold zero. */
  datatype State = State(pc: nat, dp: nat, tape: map<nat, byte>, input: seq<byte>, output: seq<byte>)

  function Cell(s: State, p: nat): byte {
    if p in s.tape then s.tape[p] else 0
  }

  /** Store `v` in the cell under the data pointer. */
  function Store(s: State, v: byte): (r: State)
    ensures Cell(r, s.dp) == v
    ensures forall p :: p != s.dp ==> Cell(r, p) == Cell(s, p)
  {
    s.(tape := s.tape[s.dp := v])
  }

  function SpecStep(code: seq<byte>, loops: seq<Loop>, s: State): Outcome<State> {
    if s.pc >= |code| then Halt(Success, s)
    else
      var c := code[s.pc];
      var next := s.pc + 1;
      var x := Cell(s, s.dp);
      if c == RIGHT then Next(s.(pc := next, dp := s.dp + 1))
      else if c == LEFT then
        if s.dp == 0 then Halt(LeftOfOrigin, s) else Next(s.(pc := next, dp := s.dp - 1))
      else if c == INC then Next(Store(s, (x + 1) % 256).(pc := next))
      else if c == DEC then Next(Store(s, (x - 1) % 256).(pc := next))
      else if c == OUT then Next(s.(pc := next, output := s.output + [x]))
      else if c == IN then
        if s.input == [] then Next(Store(s, EOF_BYTE).(pc := next))
        else Next(Store(s, s.input[0]).(pc := next, input := s.input[1..]))
      else if c == OPEN then
        if x == 0 then
          match FindByStart(loops, s.pc)
          case None => Halt(NoLoopAtStart, s)
          case Some(l) => Next(s.(pc := l.end + 1))
        else Next(s.(pc := next))
      else if c == CLOSE then
        if x != 0 then
          match FindByEnd(loops, s.pc)
          case None => Halt(NoLoopAtEnd, s)
          case Some(l) => Next(s.(pc := l.start + 1))
        else Next(s.(pc := next))
      else Halt(UnknownInstruction, s)
  }

  function SpecRun(code: seq<byte>, loops: seq<Loop>, s: State, fuel: nat): Final<State>
    decreases fuel
  {
    if fuel == 0 then OutOfFuel(s)
    else
      match SpecStep(code, loops, s)
      case Halt(e, s') => Done(e, s')
      case Next(s') => SpecRun(code, loops, s', fuel - 1)
  }

  /** The segmented tape `m` stands for the unbounded tape of `s`: same pointer, same cells, same streams. */
  ghost predicate Abstracts(m: Machine, s: State) {
    && Valid(m.tape)
    && m.pc == s.pc
    && Pos(m.tape) == s.dp
    && m.input == s.input
    && m.output == s.output
    && forall p :: Get(m.tape, p) == Cell(s, p)
  }

  ghost predicate StepsAgree(o: Outcome<Machine>, a: Outcome<State>) {
    && o.Halt? == a.Halt?
    && (o.Halt? ==> o.exit == a.exit)
    && Abstracts(o.state, a.state)
  }

  ghost predicate RunsAgree(r: Final<Machine>, a: Final<State>) {
    && r.Done? == a.Done?
    && (r.Done? ==> r.exit == a.exit)
    && Abstracts(r.state, a.state)
  }

  function InitialState(input: seq<byte>): (s: State)
    ensures Abstracts(Initial(input), s)
  {
    State(0, 0, map[], input, [])
  }

  /** One instruction on the segmented tape does what it does on the unbounded tape. */
  lemma StepRefines(code: seq<byte>, loops: seq<Loop>, m: Machine, s: State)
    requires Abstracts(m, s)
    ensures StepsAgree(Step(code, loops, m), SpecStep(code, loops, s))
  {
    var o := Step(code, loops, m);
    var a := SpecStep(code, loops, s);
    if m.pc < |code| {
      var c := code[m.pc];
      assert Read(m.tape) == Cell(s, s.dp);
      if c == INC || c == DEC || c == IN {
        forall p
          ensures Get(o.state.tape, p) == Cell(a.state, p)
        {
          if p != s.dp {
            assert Get(o.state.tape, p) == Get(m.tape, p);
          }
        }
      }
    }
  }

  /** A bounded run on the segmented tape does what it does on the unbounded tape. */
  lemma {:induction false} RunRefines(code: seq<byte>, loops: seq<Loop>, m: Machine, s: State, fuel: nat)
    requires Abstracts(m, s)
    ensures RunsAgree(Run(code, loops, m, fuel), SpecRun(code, loops, s, fuel))
    decreases fuel
  {
    if fuel > 0 {
      StepRefines(code, loops, m, s);
      var o := Step(code, loops, m);
      if o.Next? {
        RunRefines(code, loops, o.state, SpecStep(code, loops, s).state, fuel - 1);
      }
    }
  }

  /** `simplebf` run on the segmented tape from its initial state agrees with the unbounded tape. */
  lemma InterpreterRefines(code: seq<byte>, loops: seq<Loop>, input: seq<byte>, fuel: nat)
    ensures RunsAgree(Run(code, loops, Initial(input), fuel), SpecRun(code, loops, InitialState(input), fuel))
  {
    RunRefines(code, loops, Initial(input), InitialState(input), fuel);
  }
}
