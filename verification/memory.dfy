/**
 * The segmented tape of `simplebf`: a chain of blocks of MSIZE cells each,
 * a current block and an offset `mc` in it. A block is allocated, zero-filled
 * (`new_memory_block`), the first time `>` steps past the end of the last
 * block; `<` from offset 0 of the first block is the shift left of 0.
 *
 * The chain is the sequence `blocks`, first block first; the current block is
 * an index into it. Blocks are only ever appended after the last one.
 */
module Memory {
  import opened Wrappers
  import opened Syntax

  /** Cells per block. */
  const MSIZE: nat := 30000

  /** A freshly allocated block: every cell zero. */
  function ZeroBlock(): (b: seq<byte>)
    ensures |b| == MSIZE
    ensures forall i :: 0 <= i < |b| ==> b[i] == 0
  {
    seq(MSIZE, _ => 0)
  }

  datatype Tape = Tape(blocks: seq<seq<byte>>, cur: nat, mc: nat)

  /** At least one block, each of MSIZE cells, and the current cell inside the chain. */
  predicate Valid(t: Tape) {
    && 0 < |t.blocks|
    && t.cur < |t.blocks|
    && t.mc < MSIZE
    && forall b :: 0 <= b < |t.blocks| ==> |t.blocks[b]| == MSIZE
  }

  /** The absolute position of the data pointer on the unbounded tape. */
  function Pos(t: Tape): nat {
    t.cur * MSIZE + t.mc
  }

  /** The cell at absolute position `p`; cells of blocks not yet allocated read as zero. */
  function Get(t: Tape, p: nat): byte
    requires Valid(t)
  {
    if p / MSIZE < |t.blocks| then t.blocks[p / MSIZE][p % MSIZE] else 0
  }

  /** Block `b`, offset `o` is absolute position `b * MSIZE + o`, and back. */
  lemma Locate(b: nat, o: nat)
    requires o < MSIZE
    ensures (b * MSIZE + o) / MSIZE == b && (b * MSIZE + o) % MSIZE == o
  {
  }

  /** The tape `simplebf` starts with: one zero block, pointer at its first cell. */
  function Init(): (t: Tape)
    ensures Valid(t) && Pos(t) == 0
    ensures forall p :: Get(t, p) == 0
  {
    Tape([ZeroBlock()], 0, 0)
  }

  /** `mem[mc]`: the current cell. */
  function Read(t: Tape): (v: byte)
    requires Valid(t)
    ensures v == Get(t, Pos(t))
  {
    Locate(t.cur, t.mc);
    t.blocks[t.cur][t.mc]
  }

  /** `mem[mc] = v`: only the current cell changes. */
  function Write(t: Tape, v: byte): (r: Tape)
    requires Valid(t)
    ensures Valid(r) && Pos(r) == Pos(t) && |r.blocks| == |t.blocks|
    ensures Get(r, Pos(t)) == v
    ensures forall p :: p != Pos(t) ==> Get(r, p) == Get(t, p)
  {
    Locate(t.cur, t.mc);
    var block: seq<byte> := t.blocks[t.cur][t.mc := v];
    var r := t.(blocks := t.blocks[t.cur := block]);
    assert forall p :: p == (p / MSIZE) * MSIZE + p % MSIZE;
    r
  }

  /**
   * `>`: one cell to the right. Past the last cell of a block the pointer
   * moves to offset 0 of the next block, which is allocated zero-filled when
   * the current block is the last one.
   */
  function Right(t: Tape): (r: Tape)
    requires Valid(t)
    ensures Valid(r) && Pos(r) == Pos(t) + 1
    ensures forall p :: Get(r, p) == Get(t, p)
    ensures |t.blocks| <= |r.blocks| <= |t.blocks| + 1
    ensures r.blocks[..|t.blocks|] == t.blocks
    ensures forall b :: |t.blocks| <= b < |r.blocks| ==> r.blocks[b] == ZeroBlock()
    ensures |r.blocks| == |t.blocks| + 1 <==> t.mc == MSIZE - 1 && t.cur == |t.blocks| - 1
  {
    var mc := t.mc + 1;
    if mc == MSIZE then
      if t.cur + 1 < |t.blocks| then t.(cur := t.cur + 1, mc := 0)
      else Tape(t.blocks + [ZeroBlock()], t.cur + 1, 0)
    else t.(mc := mc)
  }

  /**
   * `<`: one cell to the left. Below offset 0 the pointer moves to the last
   * cell of the previous block; there is none before the first block, and the
   * move fails.
   */
  function Left(t: Tape): (r: Option<Tape>)
    requires Valid(t)
    ensures r.None? <==> Pos(t) == 0
    ensures r.Some? ==> Valid(r.value) && Pos(r.value) == Pos(t) - 1 && r.value.blocks == t.blocks
  {
    var mc: int := t.mc - 1;
    if mc == -1 then
      if t.cur == 0 then None else Some(t.(cur := t.cur - 1, mc := MSIZE - 1))
    else Some(t.(mc := mc))
  }
}
