# simplebf in Dafny

A model of `simplebf`, a small interpreter for the eight-instruction tape
language `><+-.,[]`. The interpreter does three things in order:

1. **Comment filter** (`walk_fd`). It keeps the command bytes of the source text, in order.
2. **Loop index** (`register_loops`, `push_loop`, `pop_loop`,
   `find_loop_by_start`, `find_loop_by_end`). This is one pass with a stack of
   pending `[`. It yields a list of (start, end) records, which the interpreter
   searches from the front.
3. **Interpreter** (`simplebf`). This is a `for` loop over the program with a
   program counter `pc`. The tape is made of blocks of `MSIZE = 30000` cells
   with an offset `mc` in the current block. A new block is allocated,
   zero-filled, the first time `>` leaves the last block.

The model is functional. The program, the input and the output are byte
sequences. The loop records are a `seq<Loop>`, and the stack holds indices into
that sequence. The chain of memory blocks is a `seq<seq<byte>>` together with
the index of the current block. `Step` executes one instruction and `Run`
executes at most `fuel` instructions.

Modules, one per file:

| file | module | models |
|---|---|---|
| wrappers.dfy | `Wrappers` | `Option` (a NULL-or-record search result) and `Result` |
| syntax.dfy | `Syntax` | bytes and the command alphabet `id[8]` |
| filter.dfy | `CommentFilter` | the byte loop of `walk_fd` |
| loops.dfy | `LoopIndex` | registration, the two searches, and a depth-based reference for bracket matching |
| loop_facts.dfy | `LoopFacts` | correctness of the registration against that reference |
| memory.dfy | `Memory` | the segmented tape and `new_memory_block` |
| machine.dfy | `Machine` | the `switch` of `simplebf`, its return codes, and bounded runs |
| reference.dfy | `Reference` | the same machine on one unbounded zero-initialised tape, and the proof that the segmented tape implements it |
| program.dfy | `Program` | the composition filter → index → run, the jump targets, and small programs |

Where the code departs from the usual description of the language, the model
follows the code:

- `,` at end of input stores `(unsigned char)EOF`, which is 255 (`Machine.EOF_BYTE`). It does not store 0.
- `]` on a non-zero cell sets `pc` to the loop's start. The loop's `pc++` then
  resumes at `start + 1`, so the `[` is not checked again. This is observably
  the same as checking it again, because the cell is non-zero.
- `register_loops` does not reject an unmatched `[`; its record keeps
  `end == 0`. The consequence is listed under Findings. `LoopIndex.Build` is
  the pass with that check added, and `Program.Execute` uses it.
- A `]` on an empty stack makes `pop_loop` dereference a NULL pointer
  (simplebf.c:191). The model turns this into the error `UnmatchedClose(i)`.

## Model

| member | source | states |
|---|---|---|
| CommentFilter.Filter | simplebf.c:126-134 | the result contains only command bytes and is no longer than the text |
| CommentFilter.FilterCounts | simplebf.c:126-134 | each command byte occurs in the result as often as in the text; a comment byte never occurs |
| CommentFilter.FilterAppend | simplebf.c:119-135 | filtering a concatenation is the concatenation of the filtered parts, so the order of the kept bytes is the order in the text, and chunked reads give the same program |
| CommentFilter.FilterKeepsCommands | simplebf.c:126-134 | a text made only of commands passes through unchanged |
| CommentFilter.FilterIdempotent | simplebf.c:116-134 | filtering an already filtered program changes nothing |
| CommentFilter.WalkBuffer | simplebf.c:116-134 | the nested loop, which tries each byte against the eight bytes of `id` and copies it on the first hit, computes the same sequence as `Filter` |
| LoopIndex.MatchesUniqueEnd | simplebf.c:170-194 | under the depth-based reference, a `[` has at most one matching `]` |
| LoopIndex.MatchesUniqueStart | simplebf.c:170-194 | under the depth-based reference, a `]` closes at most one `[` |
| LoopIndex.MatchesNest | simplebf.c:170-194 | two matching pairs are disjoint or strictly nested |
| LoopIndex.Push | simplebf.c:170-186 | the list grows by exactly one record, (start, 0), at its end, and its index becomes the new top of the stack; earlier records and stack entries are untouched |
| LoopIndex.Pop | simplebf.c:189-194 | the record on top of the stack gets end `i` and leaves the stack; every other record and the rest of the stack are unchanged |
| LoopIndex.Visit | simplebf.c:153-165 | one iteration of the pass fails exactly on a `]` met with an empty stack, and the stack always points into the list |
| LoopIndex.ScanPrefix | simplebf.c:144-167 | every stack entry of a successful partial pass points to a record of the list |
| LoopIndex.Register | simplebf.c:144-167 | no contract of its own; LoopFacts.RegisterSound states its meaning |
| LoopIndex.Build | simplebf.c:144-167 | the checked pass agrees with `register_loops` when it succeeds, and then no record has end 0 |
| LoopIndex.FindByStart | simplebf.c:196-206 | the search returns nothing exactly when no record starts at the position; otherwise it returns the first record that does |
| LoopIndex.FindByEnd | simplebf.c:207-217 | the search returns nothing exactly when no record ends at the position; otherwise it returns the first record that does |
| LoopFacts.StartKeeps | simplebf.c:148-153 | before the first byte the pass invariant holds with no records and an empty stack |
| LoopFacts.OpenKeeps | simplebf.c:170-186 | a `[` keeps the pass invariant: its record (start, 0) is appended after all earlier ones and becomes the top of the stack, one level deeper |
| LoopFacts.CloseKeeps | simplebf.c:189-194 | a `]` met with a non-empty stack keeps the pass invariant: the top record gets this `]` as its end, which is its matching `]`, and leaves the stack |
| LoopFacts.OtherKeeps | simplebf.c:153-165 | any other byte keeps the pass invariant: records, stack and depth are unchanged |
| LoopFacts.StepKeeps | simplebf.c:153-165 | one more byte through the pass keeps the invariant: one record per `[` in order, the stack holds the pending `[` one per depth level, closed records are matching pairs, and no prefix has more `]` than `[` |
| LoopFacts.ScanSound | simplebf.c:144-194 | a partial pass that succeeds has established the pass invariant for the bytes it has seen |
| LoopFacts.ScanFails | simplebf.c:144-194 | a partial pass fails exactly when some prefix has more `]` than `[` |
| LoopFacts.ScanErrorPosition | simplebf.c:159-163 | a failed partial pass fails with `UnmatchedClose` at the first `]` where the depth goes negative: every shorter prefix has non-negative depth |
| LoopFacts.RegisterSound | simplebf.c:144-194 | `register_loops` fails exactly when some prefix has more `]` than `[`. On success it yields one record per `[`, in order, with start `[`; a record with a non-zero end is a matching pair; a record with end 0 is an unmatched `[`; every `]` ends a record; all records are closed exactly when the whole text is balanced |
| LoopFacts.RecordsNest | simplebf.c:170-194 | two closed records satisfy start < end and are disjoint or strictly nested |
| LoopFacts.FindByStartSound | simplebf.c:196-206 | on a registered program, the search from any `[` finds its own record; the record's end is the matching `]`, or 0 exactly when the `[` is unmatched |
| LoopFacts.FindByEndSound | simplebf.c:207-217 | on a registered program, the search from any `]` finds the record of the `[` it closes |
| LoopFacts.StartEndRoundTrip | simplebf.c:196-217 | from a matched `[`, searching by the found end returns the same record: `find_loop_by_end(find_loop_by_start(s).end).start == s` |
| LoopFacts.EndStartRoundTrip | simplebf.c:196-217 | from a `]`, searching by the found start returns the same record, whose end is that `]` |
| LoopFacts.BalancedAllMatched | simplebf.c:144-194 | in a balanced program registration succeeds and every `[` is matched |
| LoopFacts.BuildSound | simplebf.c:144-194 | the checked pass succeeds exactly on balanced programs, and then every record is a matching pair. Its errors name an unmatched `[` or the `]` where the depth first goes negative |
| Memory.ZeroBlock | simplebf.c:243 | a new block has MSIZE cells, all zero |
| Memory.Init | simplebf.c:271-276 | the initial tape is valid, with the pointer at absolute position 0 and every cell zero |
| Memory.Read | simplebf.c:308-320 | `mem[mc]` is the cell at absolute position `block*MSIZE + mc` |
| Memory.Write | simplebf.c:307-318 | storing into `mem[mc]` changes that cell and no other, and does not move the pointer |
| Memory.Right | simplebf.c:278-293 | `>` moves the absolute position up by exactly one and changes no cell. Blocks visited before keep their contents. A new zero-filled block is added exactly when the pointer leaves the last cell of the last block |
| Memory.Left | simplebf.c:294-306 | `<` fails exactly at absolute position 0; otherwise it moves the absolute position down by exactly one, with the blocks unchanged |
| Machine.Status | simplebf.c:264-343 | the return value of `simplebf` is one of 0 to 4, and it is 0 exactly on reaching the terminator |
| Machine.Initial | simplebf.c:271-276 | the machine starts at `pc = 0`, at tape position 0, with all cells zero, the given input unread and no output |
| Machine.Jump | simplebf.c:319-334 | `[` on a non-zero cell and `]` on a zero cell fall through to the next instruction. `[` on zero goes just past the end of the record the search finds, and `]` on non-zero just past its start. Exit 2 happens exactly when `[` is on zero and no record starts at `pc`; exit 3 exactly when `]` is on non-zero and no record ends at `pc`. Only `pc` ever changes |
| Machine.Step | simplebf.c:276-338 | one instruction. It returns 0 exactly at the terminator, 4 exactly on a non-command byte, and 1 exactly on `<` at position 0; 2 and 3 come only from `[` and `]`, whose step is `Jump`; a halt changes nothing. `>` and `<` move the pointer by one and change no cell. `+` and `-` change only the current cell, modulo 256. `,` stores the next input byte, or 255 at end of input. `.` appends the current cell to the output. The output only grows, by at most one byte |
| Machine.Run | simplebf.c:276-342 | a bounded run keeps the tape valid and only extends the output. A run that stops does so at a state where one more step halts with the same exit: status 0 only with `pc` at the terminator, status 1 only on `<` at position 0 |
| Reference.StepRefines | simplebf.c:276-338 | one step on the segmented tape gives the same exit, `pc`, streams and cell values as the step on one unbounded tape at absolute position `block*MSIZE + mc` |
| Reference.RunRefines | simplebf.c:276-339 | the same agreement holds for bounded runs of any length |
| Reference.InterpreterRefines | simplebf.c:264-343 | from the initial state, the interpreter on the segmented tape agrees with the unbounded-tape machine |
| Program.JumpTargets | simplebf.c:319-334 | on a registered program, `[` on zero resumes just after its matching `]` (or at position 1 when unmatched), and `]` on non-zero resumes just after its matching `[`. A step never returns 2 or 3 |
| Program.RunNeverMisses | simplebf.c:264-343 | a run of a registered program never returns 2 or 3, and if the program holds only commands it never returns 4 |
| Program.Execute | simplebf.c:363-376 | filter, index, run: the text is rejected before anything runs exactly when its filtered program is unbalanced, and a run that stops ends with status 0 or 1 |
| Program.UnmatchedOpenSpins | simplebf.c:170-186 | `register_loops` accepts `>[`; the `[` jumps to itself and no number of steps ends the run |
| Program.UnmatchedOpenRejected | simplebf.c:144-167 | the checked pass rejects `>[`, naming its `[`, and nothing runs |
| Program.LeadingLeftAborts | simplebf.c:294-302 | a leading `<` stops the run with status 1 and no output |
| Program.CountDownLoops | simplebf.c:144-194 | the index of `+[-]` is the single record (1, 3) |
| Program.CountDownRun | simplebf.c:307-334 | `+[-]` runs five steps and reaches the terminator with no output |
| Program.CountDownTerminates | simplebf.c:264-343 | the source text `+[-]` finishes with status 0 and prints nothing |

## Findings

| source | as written | input that shows it | evidently intended | confidence | as-written member | corrected member |
|---|---|---|---|---|---|---|
| simplebf.c:170-186 | `register_loops` accepts a `[` that no `]` closes and leaves its record with `end = 0`. When that `[` meets a zero cell, `pc = l->end` and then `pc++` resume at position 1 | the program `>[`: its `[` at 1 jumps to 0 + 1 = 1, itself, forever | reject the unbalanced program before running it, as the model does for a stray `]` (where the source dereferences NULL) | high; not executed | Program.UnmatchedOpenSpins | LoopIndex.Build |

## Left out

- The file reading in `fill_program_array` and the `read()` chunking of `walk_fd` (simplebf.c:79-109, 119-125, 135) are left out because they are I/O. The program is a plain byte sequence, and its end stands for the NUL terminator. The source never writes that NUL into the buffer, which is sized to the unfiltered file; the model assumes it is there.
- `main` and `usage` (simplebf.c:345-381) are left out because they are the command line. `Program.Execute` composes the three pieces instead, and reports the exit as the `Exit` value that `Machine.Status` maps to 0 to 4.
- `malloc` failures (return code 1 of `simplebf`, NULL from `register_loops`), `free_loops`, `free_memory_blocks` and the `free(mem)` calls are left out because they are memory management with no effect on the language.
- `getchar`, `putchar`, the message "Program attempted to shift left of 0" written to stderr before returning 1 (simplebf.c:299) and the final `fprintf(stderr, "\n")` are left out because they are I/O. Input and output are byte sequences.
- The linked-list and linked-stack pointers are replaced by a sequence and by indices into it. The doubly linked block chain is replaced by a sequence of blocks.
- Non-termination of programs is handled with fuel. `Run` counts steps, and a program that does not stop within `fuel` steps ends in `OutOfFuel`.
- A `pc` beyond the end of the program is treated as the terminator by `Machine.Step`. In the source only a bogus loop record could produce such a `pc`, and reading past the NUL there is undefined.
- A 0 byte inside `code` is not a terminator in the model. `Machine.Step` halts on it with `UnknownInstruction` (4), where the loop test at simplebf.c:276 would stop with 0, and `LoopIndex.ScanPrefix` scans past it, where the loop test at simplebf.c:153 would stop. `CommentFilter.Filter` never emits 0, so `Program.Execute` is unaffected.
- `pc`, `start` and `end` are unbounded naturals. The source's `int` and `unsigned int` would overflow only for programs longer than 2^31 bytes.
- The end-to-end program `++++++++[>++++++++<-]>.` and a run of 30001 `>` are not unfolded step by step, because that is too long to evaluate symbolically. `Memory.Right`, `Machine.Step` and `Reference.RunRefines` state the tape growth and arithmetic they rely on, for all inputs.
