/**
 * The interpreter loop of `simplebf`: one `Step` per instruction and a
 * fuel-bounded `Run`. The program is the filtered byte sequence; reaching its
 * end is reaching the terminating NUL. `getchar`/`putchar` become the
 * `input` and `output` byte sequences of the machine.
 */
module Machine {
  import opened Wrappers
  import opened Syntax
  import opened LoopIndex
  import opened Memory

  /** How `simplebf` stops. */
  datatype Exit =
    | Success             // the terminator was reached
    | LeftOfOrigin        // `<` at absolute position 0
    | NoLoopAtStart       // `[` on a zero cell whose position starts no record
    | NoLoopAtEnd         // `]` on a non-zero cell whose position ends no record
    | UnknownInstruction  // a byte outside the command alphabet

  /** The value `simplebf` returns for each way of stopping. */
  function Status(e: Exit): (n: int)
    ensures 0 <= n <= 4
    ensures n == 0 <==> e == Success
  {
    match e
    case Success => 0
    case LeftOfOrigin => 1
    case NoLoopAtStart => 2
    case NoLoopAtEnd => 3
    case UnknownInstruction => 4
  }

  /** The value `getchar` returns at end of input, `EOF`, stored into an `unsigned char`. */
  const EOF_BYTE: byte := 255

  datatype Machine = Machine(pc: nat, tape: Tape, input: seq<byte>, output: seq<byte>)

  /** The result of one step: the next state, or the exit and the state the machine stopped in. */
  datatype Outcome<S> = Next(state: S) | Halt(exit: Exit, state: S)

  /** The result of a bounded run. */
  datatype Final<S> = Done(exit: Exit, state: S) | OutOfFuel(state: S)

  function Initial(input: seq<byte>): (m: Machine)
    ensures Valid(m.tape) && m.pc == 0 && Pos(m.tape) == 0 && m.input == input && m.output == []
    ensures forall p :: Get(m.tape, p) == 0
  {
    Machine(0, Init(), input, [])
  }

  /**
   * The `[` and `]` cases of `simplebf`: on a zero cell `[` jumps past the end
   * of the loop record starting at `pc`, on a non-zero cell `]` jumps back past
   * the start of the record ending at `pc`; otherwise execution falls through.
   * A jump whose record is missing stops the machine with exit 2 or 3.
   */
  function Jump(c: byte, loops: seq<Loop>, m: Machine): (o: Outcome<Machine>)
    requires c == OPEN || c == CLOSE
    requires Valid(m.tape)
    ensures o.Halt? ==> o.state == m
    ensures o.Next? ==> o.state == m.(pc := o.state.pc)
    ensures c == OPEN && Read(m.tape) != 0 ==> o == Next(m.(pc := m.pc + 1))
    ensures c == CLOSE && Read(m.tape) == 0 ==> o == Next(m.(pc := m.pc + 1))
    ensures c == OPEN && Read(m.tape) == 0 && FindByStart(loops, m.pc).Some? ==>
              o == Next(m.(pc := FindByStart(loops, m.pc).value.end + 1))
    ensures c == CLOSE && Read(m.tape) != 0 && FindByEnd(loops, m.pc).Some? ==>
              o == Next(m.(pc := FindByEnd(loops, m.pc).value.start + 1))
    ensures o.Halt? && o.exit == NoLoopAtStart <==> c == OPEN && Read(m.tape) == 0 && FindByStart(loops, m.pc).None?
    ensures o.Halt? && o.exit == NoLoopAtEnd <==> c == CLOSE && Read(m.tape) != 0 && FindByEnd(loops, m.pc).None?
    ensures o.Halt? ==> o.exit == NoLoopAtStart || o.exit == NoLoopAtEnd
  {
    if c == OPEN then
      if Read(m.tape) == 0 then
        match FindByStart(loops, m.pc)
        case None => Halt(NoLoopAtStart, m)
        case Some(l) => Next(m.(pc := l.end + 1))
      else Next(m.(pc := m.pc + 1))
    else
      if Read(m.tape) != 0 then
        match FindByEnd(loops, m.pc)
        case None => Halt(NoLoopAtEnd, m)
        case Some(l) => Next(m.(pc := l.start + 1))
      else Next(m.(pc := m.pc + 1))
  }

  /**
   * One iteration of the `for` loop of `simplebf`: execute the instruction at
   * `pc`, then `pc++`. The jumps of `[` and `]` set `pc` to the other end of
   * the loop record before the increment, so execution resumes just after it.
   */
  function Step(code: seq<byte>, loops: seq<Loop>, m: Machine): (o: Outcome<Machine>)
    requires Valid(m.tape)
    ensures o.Next? ==> Valid(o.state.tape)
    ensures o.Halt? ==> o.state == m
    ensures o.Halt? && o.exit == Success <==> m.pc >= |code|
    ensures o.Halt? && o.exit == UnknownInstruction <==> m.pc < |code| && !IsCommand(code[m.pc])
    ensures o.Halt? && o.exit == LeftOfOrigin <==> m.pc < |code| && code[m.pc] == LEFT && Pos(m.tape) == 0
    ensures m.output <= o.state.output && |o.state.output| <= |m.output| + 1
    ensures m.pc < |code| && code[m.pc] == RIGHT ==>
              && o.Next? && o.state.pc == m.pc + 1
              && Pos(o.state.tape) == Pos(m.tape) + 1
              && (forall p :: Get(o.state.tape, p) == Get(m.tape, p))
              && o.state.input == m.input && o.state.output == m.output
    ensures m.pc < |code| && code[m.pc] == LEFT && Pos(m.tape) > 0 ==>
              && o.Next? && o.state.pc == m.pc + 1
              && Pos(o.state.tape) == Pos(m.tape) - 1
              && (forall p :: Get(o.state.tape, p) == Get(m.tape, p))
              && o.state.input == m.input && o.state.output == m.output
    ensures m.pc < |code| && (code[m.pc] == INC || code[m.pc] == DEC || code[m.pc] == IN) ==>
              && o.Next? && o.state.pc == m.pc + 1
              && Pos(o.state.tape) == Pos(m.tape)
              && (forall p :: p != Pos(m.tape) ==> Get(o.state.tape, p) == Get(m.tape, p))
              && o.state.output == m.output
    ensures m.pc < |code| && code[m.pc] == INC ==>
              Get(o.state.tape, Pos(m.tape)) == (Get(m.tape, Pos(m.tape)) + 1) % 256 && o.state.input == m.input
    ensures m.pc < |code| && code[m.pc] == DEC ==>
              Get(o.state.tape, Pos(m.tape)) == (Get(m.tape, Pos(m.tape)) - 1) % 256 && o.state.input == m.input
    ensures m.pc < |code| && code[m.pc] == IN && m.input == [] ==>
              Get(o.state.tape, Pos(m.tape)) == EOF_BYTE && o.state.input == []
    ensures m.pc < |code| && code[m.pc] == IN && m.input != [] ==>
              Get(o.state.tape, Pos(m.tape)) == m.input[0] && o.state.input == m.input[1..]
    ensures m.pc < |code| && code[m.pc] == OUT ==>
              && o.Next? && o.state.pc == m.pc + 1 && o.state.tape == m.tape && o.state.input == m.input
              && o.state.output == m.output + [Get(m.tape, Pos(m.tape))]
    ensures m.pc < |code| && (code[m.pc] == OPEN || code[m.pc] == CLOSE) ==> o == Jump(code[m.pc], loops, m)
    ensures o.Halt? && (o.exit == NoLoopAtStart || o.exit == NoLoopAtEnd) ==>
              m.pc < |code| && (code[m.pc] == OPEN || code[m.pc] == CLOSE)
  {
    if m.pc >= |code| then Halt(Success, m)
    else
      var c := code[m.pc];
      var next := m.pc + 1;
      if c == RIGHT then
        Next(m.(pc := next, tape := Right(m.tape)))
      else if c == LEFT then
        match Left(m.tape)
        case None => Halt(LeftOfOrigin, m)
        case Some(t) => Next(m.(pc := next, tape := t))
      else if c == INC then
        Next(m.(pc := next, tape := Write(m.tape, (Read(m.tape) + 1) % 256)))
      else if c == DEC then
        Next(m.(pc := next, tape := Write(m.tape, (Read(m.tape) - 1) % 256)))
      else if c == OUT then
        Next(m.(pc := next, output := m.output + [Read(m.tape)]))
      else if c == IN then
        if m.input == [] then Next(m.(pc := next, tape := Write(m.tape, EOF_BYTE)))
        else Next(m.(pc := next, tape := Write(m.tape, m.input[0]), input := m.input[1..]))
      else if c == OPEN || c == CLOSE then Jump(c, loops, m)
      else Halt(UnknownInstruction, m)
  }

  /** At most `fuel` steps from `m`. */
  function Run(code: seq<byte>, loops: seq<Loop>, m: Machine, fuel: nat): (r: Final<Machine>)
    requires Valid(m.tape)
    ensures Valid(r.state.tape)
    ensures m.output <= r.state.output
    ensures r.OutOfFuel? && fuel == 0 ==> r.state == m
    ensures r.Done? ==> Step(code, loops, r.state) == Halt(r.exit, r.state)
    ensures r.Done? && r.exit == Success ==> r.state.pc >= |code|
    ensures r.Done? && r.exit == LeftOfOrigin ==> r.state.pc < |code| && code[r.state.pc] == LEFT && Pos(r.state.tape) == 0
    decreases fuel
  {
    if fuel == 0 then OutOfFuel(m)
    else
      match Step(code, loops, m)
      case Halt(e, s) => Done(e, s)
      case Next(s) => Run(code, loops, s, fuel - 1)
  }
}
