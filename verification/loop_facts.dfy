/**
 * Correctness of the loop index against the depth-based reference
 * `Matches`: every closed record is a matching pair, every `[` has a record,
 * every `]` ends one, and an unmatched `[` is exactly a record whose end stays 0.
 */
module LoopFacts {
  import opened Wrappers
  import opened Syntax
  import opened LoopIndex

  /** The record of a `[` at level `level` whose `]` has not been seen in the first `n` bytes. */
  ghost predicate Pending(code: seq<byte>, n: nat, l: Loop, level: nat)
    requires n <= |code|
  {
    && l.end == 0
    && l.start < n
    && Depth(code, l.start) == level
    && forall m :: l.start < m <= n ==> Depth(code, m) > level
  }

  /** One record per `[` among the first `n` bytes, in the order of the `[`. */
  ghost predicate RecordsOk(code: seq<byte>, n: nat, loops: seq<Loop>)
    requires n <= |code|
  {
    && (forall k :: 0 <= k < |loops| ==> loops[k].start < n && code[loops[k].start] == OPEN)
    && (forall j, k :: 0 <= j < k < |loops| ==> loops[j].start < loops[k].start)
    && (forall p :: 0 <= p < n && code[p] == OPEN ==> exists k :: 0 <= k < |loops| && loops[k].start == p)
  }

  /** The stack holds the pending records, one per open level, and every record with end 0 is on it. */
  ghost predicate StackOk(code: seq<byte>, n: nat, s: Scan)
    requires n <= |code|
  {
    && StackInRange(s)
    && (forall a, b :: 0 <= a < b < |s.stack| ==> s.stack[a] < s.stack[b])
    && |s.stack| == Depth(code, n)
    && (forall j :: 0 <= j < |s.stack| ==> Pending(code, n, s.loops[s.stack[j]], j))
    && (forall k :: 0 <= k < |s.loops| && s.loops[k].end == 0 ==> k in s.stack)
  }

  /** The closed records are matching pairs, and every `]` among the first `n` bytes ends one. */
  ghost predicate ClosedOk(code: seq<byte>, n: nat, loops: seq<Loop>)
    requires n <= |code|
  {
    && (forall k :: 0 <= k < |loops| && loops[k].end != 0 ==>
          loops[k].end < n && Matches(code, loops[k].start, loops[k].end))
    && (forall p :: 0 <= p < n && code[p] == CLOSE ==> exists k :: 0 <= k < |loops| && loops[k].end == p)
  }

  /** No prefix of the first `n` bytes has more `]` than `[`. */
  ghost predicate NoUnderflow(code: seq<byte>, n: nat)
    requires n <= |code|
  {
    forall m :: 0 <= m <= n ==> Depth(code, m) >= 0
  }

  /** What the pass has established after the first `n` bytes. */
  ghost predicate Registered(code: seq<byte>, n: nat, s: Scan)
    requires n <= |code|
  {
    && RecordsOk(code, n, s.loops)
    && StackOk(code, n, s)
    && ClosedOk(code, n, s.loops)
    && NoUnderflow(code, n)
  }

  /** The properties of a loop list that `register_loops` promises about the whole program. */
  ghost predicate IndexOf(code: seq<byte>, loops: seq<Loop>) {
    && (forall k :: 0 <= k < |loops| ==> loops[k].start < |code| && code[loops[k].start] == OPEN)
    && (forall j, k :: 0 <= j < k < |loops| ==> loops[j].start < loops[k].start)
    && (forall p :: 0 <= p < |code| && code[p] == OPEN ==> exists k :: 0 <= k < |loops| && loops[k].start == p)
    && (forall k :: 0 <= k < |loops| && loops[k].end != 0 ==> Matches(code, loops[k].start, loops[k].end))
    && (forall k :: 0 <= k < |loops| && loops[k].end == 0 ==> Unmatched(code, loops[k].start))
    && (forall p :: 0 <= p < |code| && code[p] == CLOSE ==> exists k :: 0 <= k < |loops| && loops[k].end == p)
  }

  // ----- A `[` at position i -----

  lemma PushRecords(code: seq<byte>, i: nat, s: Scan)
    requires i < |code| && code[i] == OPEN && StackInRange(s) && RecordsOk(code, i, s.loops)
    ensures RecordsOk(code, i + 1, Push(s, i).loops)
  {
    var r := Push(s, i);
    var N := |s.loops|;
    forall k | 0 <= k < |r.loops|
      ensures r.loops[k].start < i + 1 && code[r.loops[k].start] == OPEN
    {
      if k < N {
        assert r.loops[k] == s.loops[k];
      }
    }
    forall j, k | 0 <= j < k < |r.loops|
      ensures r.loops[j].start < r.loops[k].start
    {
      assert r.loops[j] == s.loops[j];
      if k < N {
        assert r.loops[k] == s.loops[k];
      }
    }
    forall p | 0 <= p < i + 1 && code[p] == OPEN
      ensures exists k :: 0 <= k < |r.loops| && r.loops[k].start == p
    {
      if p == i {
        assert r.loops[|s.loops|].start == p;
      } else {
        var k :| 0 <= k < |s.loops| && s.loops[k].start == p;
        assert r.loops[k] == s.loops[k];
      }
    }
  }

  lemma PushStack(code: seq<byte>, i: nat, s: Scan)
    requires i < |code| && code[i] == OPEN && StackOk(code, i, s)
    ensures StackOk(code, i + 1, Push(s, i))
  {
    var r := Push(s, i);
    var L := |s.stack|;
    assert Depth(code, i + 1) == Depth(code, i) + 1;
    assert r.stack == s.stack + [|s.loops|];
    forall j | 0 <= j < |r.stack|
      ensures Pending(code, i + 1, r.loops[r.stack[j]], j)
    {
      if j < L {
        assert r.stack[j] == s.stack[j] && r.loops[s.stack[j]] == s.loops[s.stack[j]];
        assert Pending(code, i, s.loops[s.stack[j]], j);
      } else {
        assert r.loops[r.stack[j]] == Loop(i, 0);
      }
    }
    forall k | 0 <= k < |r.loops| && r.loops[k].end == 0
      ensures k in r.stack
    {
      if k < |s.loops| {
        assert s.loops[k] == r.loops[k];
        assert k in s.stack;
      } else {
        assert r.stack[L] == k;
      }
    }
  }

  lemma PushClosed(code: seq<byte>, i: nat, s: Scan)
    requires i < |code| && code[i] == OPEN && StackInRange(s) && ClosedOk(code, i, s.loops)
    ensures ClosedOk(code, i + 1, Push(s, i).loops)
  {
    var r := Push(s, i);
    forall p | 0 <= p < i + 1 && code[p] == CLOSE
      ensures exists k :: 0 <= k < |r.loops| && r.loops[k].end == p
    {
      var k :| 0 <= k < |s.loops| && s.loops[k].end == p;
      assert r.loops[k] == s.loops[k];
    }
  }

  // ----- A `]` at position i, with a non-empty stack -----

  lemma PopRecords(code: seq<byte>, i: nat, s: Scan)
    requires i < |code| && code[i] == CLOSE && StackInRange(s) && |s.stack| > 0 && RecordsOk(code, i, s.loops)
    ensures RecordsOk(code, i + 1, Pop(s, i).loops)
  {
    var r := Pop(s, i);
    forall k | 0 <= k < |r.loops|
      ensures r.loops[k].start == s.loops[k].start
    {
    }
    forall p | 0 <= p < i + 1 && code[p] == OPEN
      ensures exists k :: 0 <= k < |r.loops| && r.loops[k].start == p
    {
      var k :| 0 <= k < |s.loops| && s.loops[k].start == p;
      assert r.loops[k].start == p;
    }
  }

  lemma PopStack(code: seq<byte>, i: nat, s: Scan)
    requires i < |code| && code[i] == CLOSE && StackOk(code, i, s) && |s.stack| > 0
    ensures StackOk(code, i + 1, Pop(s, i))
  {
    var r := Pop(s, i);
    var L := |s.stack|;
    var t := s.stack[L - 1];
    assert Depth(code, i + 1) == Depth(code, i) - 1;
    assert r.stack == s.stack[..L - 1];
    assert Pending(code, i, s.loops[t], L - 1);
    forall j | 0 <= j < |r.stack|
      ensures Pending(code, i + 1, r.loops[r.stack[j]], j)
    {
      assert s.stack[j] < t;
      assert r.loops[s.stack[j]] == s.loops[s.stack[j]];
      assert Pending(code, i, s.loops[s.stack[j]], j);
    }
    forall k | 0 <= k < |r.loops| && r.loops[k].end == 0
      ensures k in r.stack
    {
      assert k != t;
      assert r.loops[k] == s.loops[k];
      assert k in s.stack;
      var a :| 0 <= a < L && s.stack[a] == k;
      assert a < L - 1;
      assert r.stack[a] == k;
    }
  }

  /** A text whose first byte is `]` underflows at once. */
  lemma FirstNotClose(code: seq<byte>, n: nat)
    requires 0 < n <= |code| && NoUnderflow(code, n)
    ensures code[0] != CLOSE
  {
    assert Depth(code, 1) >= 0;
  }

  lemma PopClosed(code: seq<byte>, i: nat, s: Scan)
    requires i < |code| && code[i] == CLOSE && StackOk(code, i, s) && |s.stack| > 0
    requires RecordsOk(code, i, s.loops) && ClosedOk(code, i, s.loops) && NoUnderflow(code, i)
    ensures ClosedOk(code, i + 1, Pop(s, i).loops)
  {
    var r := Pop(s, i);
    var L := |s.stack|;
    var t := s.stack[L - 1];
    var lt := s.loops[t];
    assert Depth(code, i + 1) == Depth(code, i) - 1;
    assert Pending(code, i, lt, L - 1);
    assert r.loops[t] == Loop(lt.start, i);
    assert Matches(code, lt.start, i);
    FirstNotClose(code, i);
    forall k | 0 <= k < |r.loops| && r.loops[k].end != 0
      ensures r.loops[k].end < i + 1 && Matches(code, r.loops[k].start, r.loops[k].end)
    {
      if k != t {
        assert r.loops[k] == s.loops[k];
      }
    }
    forall p | 0 <= p < i + 1 && code[p] == CLOSE
      ensures exists k :: 0 <= k < |r.loops| && r.loops[k].end == p
    {
      if p == i {
        assert r.loops[t].end == p;
      } else {
        var k :| 0 <= k < |s.loops| && s.loops[k].end == p;
        assert p != 0 && k != t;
        assert r.loops[k] == s.loops[k];
      }
    }
  }

  // ----- Any other byte -----

  lemma SkipStack(code: seq<byte>, i: nat, s: Scan)
    requires i < |code| && code[i] != OPEN && code[i] != CLOSE && StackOk(code, i, s)
    ensures StackOk(code, i + 1, s)
  {
    assert Depth(code, i + 1) == Depth(code, i);
    forall j | 0 <= j < |s.stack|
      ensures Pending(code, i + 1, s.loops[s.stack[j]], j)
    {
      assert Pending(code, i, s.loops[s.stack[j]], j);
    }
  }

  /** A `[` keeps the pass registered: its record is pushed as pending. */
  lemma OpenKeeps(code: seq<byte>, i: nat, s: Scan)
    requires i < |code| && code[i] == OPEN && Registered(code, i, s)
    ensures Registered(code, i + 1, Push(s, i))
  {
    PushRecords(code, i, s);
    PushStack(code, i, s);
    PushClosed(code, i, s);
  }

  /** A `]` with a pending loop keeps the pass registered: the innermost record is closed. */
  lemma CloseKeeps(code: seq<byte>, i: nat, s: Scan)
    requires i < |code| && code[i] == CLOSE && |s.stack| > 0 && Registered(code, i, s)
    ensures Registered(code, i + 1, Pop(s, i))
  {
    PopRecords(code, i, s);
    PopStack(code, i, s);
    PopClosed(code, i, s);
  }

  lemma SkipRecords(code: seq<byte>, i: nat, loops: seq<Loop>)
    requires i < |code| && code[i] != OPEN && RecordsOk(code, i, loops)
    ensures RecordsOk(code, i + 1, loops)
  {
    forall p | 0 <= p < i + 1 && code[p] == OPEN
      ensures exists k :: 0 <= k < |loops| && loops[k].start == p
    {
      assert p < i;
    }
  }

  lemma SkipClosed(code: seq<byte>, i: nat, loops: seq<Loop>)
    requires i < |code| && code[i] != CLOSE && ClosedOk(code, i, loops)
    ensures ClosedOk(code, i + 1, loops)
  {
    forall p | 0 <= p < i + 1 && code[p] == CLOSE
      ensures exists k :: 0 <= k < |loops| && loops[k].end == p
    {
      assert p < i;
    }
  }

  /** Any other byte leaves the pass and the depth as they are. */
  lemma OtherKeeps(code: seq<byte>, i: nat, s: Scan)
    requires i < |code| && code[i] != OPEN && code[i] != CLOSE && Registered(code, i, s)
    ensures Registered(code, i + 1, s)
  {
    SkipRecords(code, i, s.loops);
    SkipStack(code, i, s);
    SkipClosed(code, i, s.loops);
    assert Depth(code, i + 1) == Depth(code, i);
  }

  /** Before the first byte nothing is recorded and nothing is pending. */
  lemma StartKeeps(code: seq<byte>)
    ensures Registered(code, 0, Scan([], []))
  {
    assert Depth(code, 0) == 0;
  }

  /** One more byte through the pass keeps the invariant, whichever of the three kinds it is. */
  lemma StepKeeps(code: seq<byte>, i: nat)
    requires i < |code| && ScanPrefix(code, i).Ok? && ScanPrefix(code, i + 1).Ok?
    requires Registered(code, i, ScanPrefix(code, i).value)
    ensures Registered(code, i + 1, ScanPrefix(code, i + 1).value)
  {
    var s := ScanPrefix(code, i).value;
    if code[i] == OPEN {
      assert ScanPrefix(code, i + 1).value == Push(s, i);
      OpenKeeps(code, i, s);
    } else if code[i] == CLOSE {
      assert ScanPrefix(code, i + 1).value == Pop(s, i);
      CloseKeeps(code, i, s);
    } else {
      assert ScanPrefix(code, i + 1).value == s;
      OtherKeeps(code, i, s);
    }
  }

  /** A pass that gets through `n` bytes has established the invariant for them. */
  lemma {:induction false} ScanSound(code: seq<byte>, n: nat)
    requires n <= |code|
    ensures ScanPrefix(code, n).Ok? ==> Registered(code, n, ScanPrefix(code, n).value)
  {
    if n > 0 && ScanPrefix(code, n).Ok? {
      ScanSound(code, n - 1);
      StepKeeps(code, n - 1);
    } else if n == 0 {
      StartKeeps(code);
    }
  }

  /** The pass fails on the first `n` bytes exactly when one of their prefixes has more `]` than `[`. */
  lemma {:induction false} ScanFails(code: seq<byte>, n: nat)
    requires n <= |code|
    ensures ScanPrefix(code, n).Err? <==> exists m :: 0 <= m <= n && Depth(code, m) < 0
  {
    if n == 0 {
      assert Depth(code, 0) == 0;
    } else if ScanPrefix(code, n - 1).Err? {
      ScanFails(code, n - 1);
    } else {
      ScanSound(code, n - 1);
      var s := ScanPrefix(code, n - 1).value;
      if code[n - 1] == CLOSE && |s.stack| == 0 {
        assert ScanPrefix(code, n).Err?;
        assert Depth(code, n) < 0;
      } else {
        assert ScanPrefix(code, n).Ok?;
        ScanSound(code, n);
      }
    }
  }

  /** A failed pass names the first `]` at which the depth goes negative. */
  lemma {:induction false} ScanErrorPosition(code: seq<byte>, n: nat)
    requires n <= |code| && ScanPrefix(code, n).Err?
    ensures var i := ScanPrefix(code, n).error.pos;
            && ScanPrefix(code, n).error == UnmatchedClose(i)
            && i < n && code[i] == CLOSE && Depth(code, i + 1) < 0
            && forall m :: 0 <= m <= i ==> Depth(code, m) >= 0
  {
    if ScanPrefix(code, n - 1).Err? {
      ScanErrorPosition(code, n - 1);
    } else {
      var i := n - 1;
      ScanSound(code, i);
      assert ScanPrefix(code, n).error == UnmatchedClose(i);
      assert Depth(code, i + 1) < 0;
    }
  }

  /** What `register_loops` returns, against the depth-based reference. */
  lemma RegisterSound(code: seq<byte>)
    ensures Register(code).Err? <==> exists m :: 0 <= m <= |code| && Depth(code, m) < 0
    ensures Register(code).Err? ==>
              var i := Register(code).error.pos;
              && Register(code).error == UnmatchedClose(i)
              && i < |code| && code[i] == CLOSE && Depth(code, i + 1) < 0
              && forall m :: 0 <= m <= i ==> Depth(code, m) >= 0
    ensures Register(code).Ok? ==> IndexOf(code, Register(code).value)
    ensures Register(code).Ok? ==>
              (Depth(code, |code|) == 0 <==> forall k :: 0 <= k < |Register(code).value| ==> Register(code).value[k].end != 0)
  {
    ScanSound(code, |code|);
    ScanFails(code, |code|);
    if ScanPrefix(code, |code|).Err? {
      ScanErrorPosition(code, |code|);
    } else {
      var s := ScanPrefix(code, |code|).value;
      var loops := s.loops;
      forall k | 0 <= k < |loops| && loops[k].end == 0
        ensures Unmatched(code, loops[k].start)
      {
        var a :| 0 <= a < |s.stack| && s.stack[a] == k;
        assert Pending(code, |code|, loops[k], a);
      }
      if Depth(code, |code|) != 0 {
        assert Pending(code, |code|, loops[s.stack[0]], 0);
      }
    }
  }

  /** Records of distinct loops never cross: they are disjoint or one lies strictly inside the other. */
  lemma RecordsNest(code: seq<byte>, loops: seq<Loop>, j: nat, k: nat)
    requires Register(code) == Ok(loops)
    requires j < k < |loops| && loops[j].end != 0 && loops[k].end != 0
    ensures loops[j].start < loops[j].end && loops[k].start < loops[k].end
    ensures loops[j].end < loops[k].start || loops[k].end < loops[j].end
  {
    RegisterSound(code);
    MatchesNest(code, loops[j].start, loops[j].end, loops[k].start, loops[k].end);
  }

  /** The search from a `[` always finds its own record; its end is the matching `]`, or 0 when there is none. */
  lemma FindByStartSound(code: seq<byte>, loops: seq<Loop>, s: nat)
    requires Register(code) == Ok(loops)
    requires s < |code| && code[s] == OPEN
    ensures FindByStart(loops, s).Some?
    ensures FindByStart(loops, s).value.start == s
    ensures FindByStart(loops, s).value.end != 0 ==> Matches(code, s, FindByStart(loops, s).value.end)
    ensures FindByStart(loops, s).value.end == 0 <==> Unmatched(code, s)
  {
    RegisterSound(code);
    var k :| 0 <= k < |loops| && loops[k].start == s;
    var l := FindByStart(loops, s).value;
    var k' :| 0 <= k' < |loops| && loops[k'] == l;
  }

  /** The search from a `]` always finds the record of the `[` it closes. */
  lemma FindByEndSound(code: seq<byte>, loops: seq<Loop>, e: nat)
    requires Register(code) == Ok(loops)
    requires e < |code| && code[e] == CLOSE
    ensures FindByEnd(loops, e).Some?
    ensures FindByEnd(loops, e).value.end == e
    ensures Matches(code, FindByEnd(loops, e).value.start, e)
  {
    RegisterSound(code);
    var k :| 0 <= k < |loops| && loops[k].end == e;
    FirstNotClose(code, |code|);
    var l := FindByEnd(loops, e).value;
    var k' :| 0 <= k' < |loops| && loops[k'] == l;
  }

  /** From a matched `[` to its `]` and back: `find_loop_by_end` returns the record `find_loop_by_start` found. */
  lemma StartEndRoundTrip(code: seq<byte>, loops: seq<Loop>, s: nat)
    requires Register(code) == Ok(loops)
    requires s < |code| && code[s] == OPEN && !Unmatched(code, s)
    ensures FindByStart(loops, s).Some?
    ensures FindByEnd(loops, FindByStart(loops, s).value.end) == FindByStart(loops, s)
    ensures FindByStart(loops, s).value.start == s
  {
    RegisterSound(code);
    FindByStartSound(code, loops, s);
    var l := FindByStart(loops, s).value;
    var k :| 0 <= k < |loops| && loops[k] == l;
    FindByEndSound(code, loops, l.end);
    var l2 := FindByEnd(loops, l.end).value;
    var k2 :| 0 <= k2 < |loops| && loops[k2] == l2;
    MatchesUniqueStart(code, s, l2.start, l.end);
  }

  /** From a `]` to its `[` and back: `find_loop_by_start` returns the record `find_loop_by_end` found. */
  lemma EndStartRoundTrip(code: seq<byte>, loops: seq<Loop>, e: nat)
    requires Register(code) == Ok(loops)
    requires e < |code| && code[e] == CLOSE
    ensures FindByEnd(loops, e).Some?
    ensures FindByStart(loops, FindByEnd(loops, e).value.start) == FindByEnd(loops, e)
    ensures FindByEnd(loops, e).value.end == e
  {
    RegisterSound(code);
    FindByEndSound(code, loops, e);
    var l := FindByEnd(loops, e).value;
    var k :| 0 <= k < |loops| && loops[k] == l;
    var l2 := FindByStart(loops, l.start).value;
    var k2 :| 0 <= k2 < |loops| && loops[k2] == l2;
  }

  /** In a balanced program every `[` is matched. */
  lemma BalancedAllMatched(code: seq<byte>, s: nat)
    requires Balanced(code)
    requires s < |code| && code[s] == OPEN
    ensures Register(code).Ok?
    ensures !Unmatched(code, s)
  {
    RegisterSound(code);
    var loops := Register(code).value;
    FindByStartSound(code, loops, s);
    var l := FindByStart(loops, s).value;
    var k :| 0 <= k < |loops| && loops[k] == l;
  }

  /** The checked pass accepts exactly the balanced programs, and then every record is a matching pair. */
  lemma BuildSound(code: seq<byte>)
    ensures Build(code).Ok? <==> Balanced(code)
    ensures Build(code).Ok? ==> IndexOf(code, Build(code).value)
    ensures Build(code).Ok? ==> forall k :: 0 <= k < |Build(code).value| ==>
              Matches(code, Build(code).value[k].start, Build(code).value[k].end)
    ensures Build(code).Err? && Build(code).error.UnmatchedOpen? ==>
              var s := Build(code).error.pos;
              s < |code| && code[s] == OPEN && Unmatched(code, s)
    ensures Build(code).Err? && Build(code).error.UnmatchedClose? ==>
              var i := Build(code).error.pos;
              i < |code| && code[i] == CLOSE && Depth(code, i + 1) < 0
  {
    RegisterSound(code);
    if Register(code).Ok? {
      var loops := Register(code).value;
      if FindByEnd(loops, 0).Some? {
        var l := FindByEnd(loops, 0).value;
        var k :| 0 <= k < |loops| && loops[k] == l;
        assert Depth(code, |code|) != 0;
      } else {
        assert Depth(code, |code|) == 0;
        assert forall m :: 0 <= m <= |code| ==> Depth(code, m) >= 0;
      }
    }
  }
}
