/**
 * The loop index: `register_loops`, `push_loop`, `pop_loop`,
 * `find_loop_by_start` and `find_loop_by_end`.
 *
 * One left-to-right pass keeps a stack of the loops whose `[` is still
 * pending. A `[` appends a record (start, 0) to the list of loops and pushes
 * it; a `]` sets the end of the record on top of the stack and pops it. The
 * list keeps the records in the order of their `[`, and the two searches walk
 * it from the front.
 *
 * The stack holds indices into the list, standing for the source's
 * `previous_in_stack` pointers.
 */
module LoopIndex {
  import opened Wrappers
  import opened Syntax

  /** One loop record; `end` stays 0 while the matching `]` has not been seen. */
  datatype Loop = Loop(start: nat, end: nat)

  /** Why a program has no usable loop index. */
  datatype LoopError =
    | UnmatchedClose(pos: nat)  // a `]` met with an empty stack
    | UnmatchedOpen(pos: nat)   // a `[` still on the stack when the text ends

  // ----- Reference: bracket matching by nesting depth -----

  function Delta(c: byte): int {
    if c == OPEN then 1 else if c == CLOSE then -1 else 0
  }

  /** The nesting depth after the first `n` bytes: the count of `[` minus the count of `]`. */
  function Depth(code: seq<byte>, n: nat): int
    requires n <= |code|
  {
    if n == 0 then 0 else Depth(code, n - 1) + Delta(code[n - 1])
  }

  /**
   * The `]` at `e` closes the `[` at `s`: the depth rises above its level
   * before `s` right after the `[` and first comes back to it right after the `]`.
   */
  ghost predicate Matches(code: seq<byte>, s: nat, e: nat) {
    && s < e < |code|
    && code[s] == OPEN
    && code[e] == CLOSE
    && Depth(code, e + 1) == Depth(code, s)
    && forall k :: s < k <= e ==> Depth(code, k) > Depth(code, s)
  }

  /** No `]` closes the `[` at `s`. */
  ghost predicate Unmatched(code: seq<byte>, s: nat) {
    forall e :: !Matches(code, s, e)
  }

  /** Every prefix has at least as many `[` as `]`, and the whole text has as many. */
  ghost predicate Balanced(code: seq<byte>) {
    && (forall n :: 0 <= n <= |code| ==> Depth(code, n) >= 0)
    && Depth(code, |code|) == 0
  }

  /** A `[` has at most one matching `]`. */
  lemma MatchesUniqueEnd(code: seq<byte>, s: nat, e1: nat, e2: nat)
    requires Matches(code, s, e1) && Matches(code, s, e2)
    ensures e1 == e2
  {
  }

  /** Two matched pairs are disjoint or one lies strictly inside the other. */
  lemma MatchesNest(code: seq<byte>, s1: nat, e1: nat, s2: nat, e2: nat)
    requires Matches(code, s1, e1) && Matches(code, s2, e2) && s1 < s2
    ensures e1 < s2 || e2 < e1
  {
  }

  /** A `]` closes at most one `[`. */
  lemma MatchesUniqueStart(code: seq<byte>, s1: nat, s2: nat, e: nat)
    requires Matches(code, s1, e) && Matches(code, s2, e)
    ensures s1 == s2
  {
    if s1 < s2 {
      MatchesNest(code, s1, e, s2, e);
    } else if s2 < s1 {
      MatchesNest(code, s2, e, s1, e);
    }
  }

  // ----- The registration pass -----

  /** The loops registered so far and the stack of pending ones (indices into `loops`, top last). */
  datatype Scan = Scan(loops: seq<Loop>, stack: seq<nat>)

  predicate StackInRange(s: Scan) {
    forall j :: 0 <= j < |s.stack| ==> s.stack[j] < |s.loops|
  }

  /** `push_loop`: append the record (i, 0) to the list and push it. */
  function Push(s: Scan, i: nat): (r: Scan)
    requires StackInRange(s)
    ensures StackInRange(r)
    ensures |r.loops| == |s.loops| + 1 && r.loops[|s.loops|] == Loop(i, 0)
    ensures r.loops[..|s.loops|] == s.loops
    ensures r.stack == s.stack + [|s.loops|]
  {
    Scan(s.loops + [Loop(i, 0)], s.stack + [|s.loops|])
  }

  /** `pop_loop`: set the end of the record on top of the stack to i and pop it. */
  function Pop(s: Scan, i: nat): (r: Scan)
    requires StackInRange(s) && |s.stack| > 0
    ensures StackInRange(r)
    ensures |r.stack| == |s.stack| - 1 && |r.loops| == |s.loops|
    ensures r.stack == s.stack[..|s.stack| - 1]
    ensures r.loops[s.stack[|s.stack| - 1]] == s.loops[s.stack[|s.stack| - 1]].(end := i)
    ensures forall k :: 0 <= k < |s.loops| && k != s.stack[|s.stack| - 1] ==> r.loops[k] == s.loops[k]
  {
    var t := s.stack[|s.stack| - 1];
    Scan(s.loops[t := s.loops[t].(end := i)], s.stack[..|s.stack| - 1])
  }

  /**
   * One iteration of `register_loops` over byte `c` at position `i`. A `]`
   * on an empty stack is where `pop_loop` dereferences a NULL stack top; it
   * is reported as `UnmatchedClose(i)`.
   */
  function Visit(s: Scan, c: byte, i: nat): (r: Result<Scan, LoopError>)
    requires StackInRange(s)
    ensures r.Ok? ==> StackInRange(r.value)
    ensures r.Err? <==> c == CLOSE && |s.stack| == 0
  {
    if c == OPEN then Ok(Push(s, i))
    else if c == CLOSE then
      if |s.stack| == 0 then Err(UnmatchedClose(i)) else Ok(Pop(s, i))
    else Ok(s)
  }

  /** The state of the pass after the first `n` bytes. */
  function ScanPrefix(code: seq<byte>, n: nat): (r: Result<Scan, LoopError>)
    requires n <= |code|
    ensures r.Ok? ==> StackInRange(r.value)
  {
    if n == 0 then Ok(Scan([], []))
    else
      match ScanPrefix(code, n - 1)
      case Err(e) => Err(e)
      case Ok(s) => Visit(s, code[n - 1], n - 1)
  }

  /**
   * `register_loops`: the list of loop records of the program, in the order
   * of their `[`. An unmatched `[` is not rejected: its record keeps end 0.
   */
  function Register(code: seq<byte>): Result<seq<Loop>, LoopError> {
    match ScanPrefix(code, |code|)
    case Err(e) => Err(e)
    case Ok(s) => Ok(s.loops)
  }

  /**
   * The registration pass with the check `register_loops` lacks: a `[` whose
   * record still has end 0 when the text ends is reported as `UnmatchedOpen`.
   * The records with end 0 are found with the same search the interpreter uses.
   */
  function Build(code: seq<byte>): (r: Result<seq<Loop>, LoopError>)
    ensures r.Ok? ==> Register(code) == r && forall k :: 0 <= k < |r.value| ==> r.value[k].end != 0
    ensures r.Err? && r.error.UnmatchedClose? ==> Register(code) == r
  {
    match Register(code)
    case Err(e) => Err(e)
    case Ok(loops) =>
      match FindByEnd(loops, 0)
      case Some(l) => Err(UnmatchedOpen(l.start))
      case None => Ok(loops)
  }

  // ----- The two searches -----

  /** `find_loop_by_start`: the first record in the list whose start is `p`. */
  function FindByStart(loops: seq<Loop>, p: nat): (r: Option<Loop>)
    ensures r.None? <==> forall k :: 0 <= k < |loops| ==> loops[k].start != p
    ensures r.Some? ==> exists k :: 0 <= k < |loops| && loops[k] == r.value && r.value.start == p &&
                                    forall j :: 0 <= j < k ==> loops[j].start != p
  {
    if loops == [] then None
    else if loops[0].start == p then Some(loops[0])
    else
      var r := FindByStart(loops[1..], p);
      if r.Some? then
        var k :| 0 <= k < |loops[1..]| && loops[1..][k] == r.value && r.value.start == p &&
                 forall j :: 0 <= j < k ==> loops[1..][j].start != p;
        assert loops[k + 1] == r.value;
        r
      else r
  }

  /** `find_loop_by_end`: the first record in the list whose end is `p`. */
  function FindByEnd(loops: seq<Loop>, p: nat): (r: Option<Loop>)
    ensures r.None? <==> forall k :: 0 <= k < |loops| ==> loops[k].end != p
    ensures r.Some? ==> exists k :: 0 <= k < |loops| && loops[k] == r.value && r.value.end == p &&
                                    forall j :: 0 <= j < k ==> loops[j].end != p
  {
    if loops == [] then None
    else if loops[0].end == p then Some(loops[0])
    else
      var r := FindByEnd(loops[1..], p);
      if r.Some? then
        var k :| 0 <= k < |loops[1..]| && loops[1..][k] == r.value && r.value.end == p &&
                 forall j :: 0 <= j < k ==> loops[1..][j].end != p;
        assert loops[k + 1] == r.value;
        r
      else r
  }
}
