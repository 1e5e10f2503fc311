/**
 * The comment filter: the byte loop of `walk_fd`. Every byte of the source
 * text that is one of the eight commands is copied, in order; every other
 * byte is a comment and is dropped.
 */
module CommentFilter {
  import opened Syntax

  /** The commands of `text`, in their original order. */
  function Filter(text: seq<byte>): (r: seq<byte>)
    ensures |r| <= |text|
    ensures forall k :: 0 <= k < |r| ==> IsCommand(r[k])
  {
    if text == [] then []
    else
      var prefix, c := text[..|text| - 1], text[|text| - 1];
      assert text == prefix + [c];
      Filter(prefix) + (if IsCommand(c) then [c] else [])
  }

  /** Every command occurs in the result as often as in the text; no comment byte occurs. */
  lemma {:induction false} FilterCounts(text: seq<byte>, c: byte)
    ensures multiset(Filter(text))[c] == if IsCommand(c) then multiset(text)[c] else 0
  {
    if text != [] {
      var prefix, d := text[..|text| - 1], text[|text| - 1];
      assert text == prefix + [d];
      FilterCounts(prefix, c);
    }
  }

  /** Filtering commutes with concatenation: the chunks `read` hands over can be filtered one by one. */
  lemma {:induction false} FilterAppend(a: seq<byte>, b: seq<byte>)
    ensures Filter(a + b) == Filter(a) + Filter(b)
    decreases |b|
  {
    if b != [] {
      var prefix, c := b[..|b| - 1], b[|b| - 1];
      var tail := if IsCommand(c) then [c] else [];
      assert (a + b)[..|a + b| - 1] == a + prefix;
      assert (a + b)[|a + b| - 1] == c;
      assert Filter(a + b) == Filter(a + prefix) + tail;
      assert Filter(b) == Filter(prefix) + tail;
      FilterAppend(a, prefix);
    } else {
      assert a + b == a;
    }
  }

  /** A text that holds only commands passes through unchanged. */
  lemma {:induction false} FilterKeepsCommands(text: seq<byte>)
    requires forall k :: 0 <= k < |text| ==> IsCommand(text[k])
    ensures Filter(text) == text
  {
    if text != [] {
      var prefix := text[..|text| - 1];
      assert text == prefix + [text[|text| - 1]];
      FilterKeepsCommands(prefix);
    }
  }

  /** Loading the same text twice gives the same program, and filtering a program is the identity. */
  lemma FilterIdempotent(text: seq<byte>)
    ensures Filter(Filter(text)) == Filter(text)
  {
    FilterKeepsCommands(Filter(text));
  }

  /**
   * The loop of `walk_fd` over one buffer: for each byte, try the eight
   * command bytes of `ID` in turn and copy the byte on the first hit.
   */
  method WalkBuffer(buf: seq<byte>) returns (out: seq<byte>)
    ensures out == Filter(buf)
  {
    out := [];
    var j := 0;
    while j < |buf|
      invariant 0 <= j <= |buf|
      invariant out == Filter(buf[..j])
    {
      var c := buf[j];
      var i := 0;
      var found := false;
      while i < |ID| && !found
        invariant 0 <= i <= |ID|
        invariant found ==> IsCommand(c)
        invariant !found ==> forall k :: 0 <= k < i ==> ID[k] != c
        decreases |ID| - i, if found then 0 else 1
      {
        if ID[i] == c {
          found := true;
        } else {
          i := i + 1;
        }
      }
      assert buf[..j + 1] == buf[..j] + [c];
      if found {
        out := out + [c];
      }
      j := j + 1;
    }
    assert buf[..j] == buf;
  }
}
