/** `re_match_2`: the backtracking matcher, which rewrites the pattern buffer as it goes. */
module Matcher {
  import opened Allocation
  import opened Bytes
  import opened Opcodes
  import opened Machine
  import opened WellFormed
  import opened Traces
  import opened MatchSpec
  import opened MatchSteps
  import opened IntervalSteps

  /** How a command ends: go on, `goto fail`, or no room for a failure point. */
  datatype Status = Go | Fail | Overflow

  /** The local variables of `re_match_2` for one string; `text` ends where matching has to stop. */
  class Match2 {
    const buffer: array<byte>
    const used: nat
    const text: seq<byte>
    const pos: nat
    const mem: Allocator
    var p: int
    var d: int
    var stack: seq<FailurePoint>
    var bestSet: bool
    var matchEnd: int

    ghost const code: seq<byte>
    ghost const x: set<int>
    ghost var phase: Phase
    ghost var entry: int
    ghost var done: seq<Leaf>

    ghost function Program(): seq<byte>
      requires used <= buffer.Length
      reads buffer
    {
      buffer[..used]
    }

    /** All leaves of the search. */
    ghost function All(): seq<Leaf>
      requires WfProgram(code, x) && Closed(code, x) && pos <= |text|
    {
      assert 0 in x + {|code|};
      Trace(code, x, text, 0, pos)
    }

    /** The program is a variant of the compiled pattern, and the best match so far is recorded. */
    ghost predicate Base()
      reads `done, `bestSet, `matchEnd, buffer
    {
      && used <= buffer.Length && |code| == used && WfProgram(code, x) && Closed(code, x)
      && Variant(Program(), code, x) && pos <= |text| && Recorded(done, |text|, bestSet, matchEnd)
    }

    /** The leaves met so far and those the current state still has to explore are all the leaves. */
    ghost predicate Running()
      reads this, buffer
    {
      Base() && RunsTo(Program(), code, x, text, phase, entry, p, d, stack, done, All())
    }

    ghost predicate Failing()
      reads this, buffer
    {
      && Base() && FailsTo(code, x, text, stack, done, All())
      && |done| > 0 && (|stack| == 0 ==> done[|done| - 1] == Dead)
    }

    /** Progress of a command that does not fail. */
    twostate predicate Advanced()
      reads this
    {
      && done == old(done)
      && (d > old(d) || (d == old(d) && (entry > old(entry) || (entry == old(entry) && Rank(phase) < Rank(old(phase))))))
    }

    ghost method GiveUp()
      requires Base() && FailsTo(code, x, text, stack, done + [Dead], All())
      modifies `done
      ensures Failing() && done == old(done) + [Dead]
    {
      hide WfProgram, Closed, Variant, FailsTo, Trace, Recorded;
      RecordDead(done, |text|, bestSet, matchEnd);
      done := done + [Dead];
    }

    // ---- the program as bytes ----

    /** EXTRACT_NUMBER. */
    function Number(i: int): (n: int)
      requires 0 <= i && i + 1 < used <= buffer.Length
      reads buffer
      ensures n == Extract(Program(), i)
    {
      (buffer[i] as int) + 256 * (if buffer[i + 1] < 128 then buffer[i + 1] as int else buffer[i + 1] as int - 256)
    }

    method StoreNumber(i: int, n: int)
      requires 0 <= i && i + 1 < used <= buffer.Length
      modifies buffer
      ensures Program() == StoreAt(old(Program()), i, n)
      ensures forall j :: used <= j < buffer.Length ==> buffer[j] == old(buffer[j])
    {
      buffer[i] := n % 256;
      buffer[i + 1] := (n / 256) % 256;
      assert Program() == StoreAt(old(Program()), i, n);
    }

    /** PUSH_FAILURE_POINT: there may be no room for it. */
    method PushFailurePoint(point: FailurePoint) returns (ok: bool)
      requires !mem.failed
      modifies `stack, mem
      ensures ok == !mem.failed
      ensures stack == if ok then old(stack) + [point] else old(stack)
    {
      ok := mem.Request();
      if ok {
        stack := stack + [point];
      }
    }

    // ---- commands that match characters ----

    method Exactn() returns (status: Status)
      requires Running() && 0 <= p < used && buffer[p] == EXACTN
      modifies `p, `d, `phase, `entry, `done
      ensures status.Go? ==> Running() && Advanced()
      ensures status.Fail? ==> Failing() && |done| > |old(done)|
      ensures status != Overflow
    {
      hide WfProgram, Closed, Variant, RunsTo, FailsTo, Trace, AfterChar, Recorded;
      ghost var here, from := p, d;
      CharRuns(Program(), code, x, text, phase, entry, p, d, stack, done, All());
      var mcnt := buffer[p + 1];
      ghost var n := mcnt;
      p := p + 2;
      status := Go;
      while mcnt > 0
        invariant 0 <= mcnt <= n && p == here + 2 + (n - mcnt) && d == from + (n - mcnt) && d <= |text|
        invariant text[from..d] == code[here + 2..p]
        invariant status == Go
        modifies `p, `d
      {
        assert p < here + OpLen(code, here);
        if d == |text| || text[d] != buffer[p] {
          status := Fail;
          break;
        }
        assert text[from..d + 1] == text[from..d] + [text[d]] && code[here + 2..p + 1] == code[here + 2..p] + [code[p]];
        d, p, mcnt := d + 1, p + 1, mcnt - 1;
      }
      if status == Go {
        phase, entry := AfterChar(code, phase, entry, here).0, AfterChar(code, phase, entry, here).1;
      } else {
        MismatchAt(code, here, text, from, d);
        GiveUp();
      }
    }

    /** anychar, charset and charset_not. */
    method OneCharacter() returns (status: Status)
      requires Running() && 0 <= p < used && (buffer[p] == ANYCHAR || buffer[p] == CHARSET || buffer[p] == CHARSET_NOT)
      modifies `p, `d, `phase, `entry, `done
      ensures status.Go? ==> Running() && Advanced()
      ensures status.Fail? ==> Failing() && |done| > |old(done)|
      ensures status != Overflow
    {
      hide WfProgram, Closed, Variant, RunsTo, FailsTo, Trace, AfterChar, Recorded, HasBit;
      ghost var here := p;
      CharRuns(Program(), code, x, text, phase, entry, p, d, stack, done, All());
      var op := buffer[p];
      p := p + 1;
      status := Go;
      if d == |text| {
        status := Fail;
      } else if op == ANYCHAR {
        if text[d] == 0 {
          status := Fail;
        }
      } else {
        var c, not := text[d], op == CHARSET_NOT;
        assert here + 2 + c / 8 < here + OpLen(code, here) || c >= 8 * buffer[p] as int;
        if c < 8 * buffer[p] as int && HasBit(buffer[p + 1 + c / 8], (c % 8) as nat) {
          not := !not;
        }
        p := p + 1 + buffer[p];
        if !not {
          status := Fail;
        }
      }
      assert status == Go <==> CharsAt(code, here, text, d);
      if status == Go {
        d := d + 1;
        phase, entry := AfterChar(code, phase, entry, here).0, AfterChar(code, phase, entry, here).1;
      } else {
        GiveUp();
      }
    }

    // ---- commands at entry points ----

    /** start_memory and stop_memory.  What the registers hold does not matter here: whether the group has
        matched something is left open. */
    method Memory()
      requires Running() && 0 <= p < used && (buffer[p] == START_MEMORY || buffer[p] == STOP_MEMORY)
      modifies `p, `phase, `entry
      ensures Running() && Advanced()
    {
      hide WfProgram, Closed, Variant, RunsTo, FailsTo, Trace, Recorded;
      SkipRuns(Program(), code, x, text, phase, entry, p, d, stack, done, All());
      var matchedSomething := *;
      if buffer[p] == STOP_MEMORY && !matchedSomething && p + 3 < used {
        // A jump back to a loop around this group would end the loop here.
        var op, mcnt := buffer[p + 3], 0;
        if op == JUMP_N || op == POP_FAILURE_JUMP || op == MAYBE_POP_JUMP || op == JUMP || op == DUMMY_FAILURE_JUMP {
          mcnt := Number(p + 4);
        }
        assert mcnt >= 0;
      }
      p := p + 3;
      phase, entry := Entry, p;
    }

    method PushDummy() returns (status: Status)
      requires Running() && 0 <= p < used && buffer[p] == PUSH_DUMMY_FAILURE && !mem.failed
      modifies `p, `stack, `phase, `entry, mem
      ensures status.Go? ==> Running() && Advanced()
      ensures status != Fail && status.Overflow? == mem.failed
    {
      hide WfProgram, Closed, Variant, RunsTo, FailsTo, Trace, Recorded;
      DummyRuns(Program(), code, x, text, phase, entry, p, d, stack, done, All());
      var ok := PushFailurePoint(DummyPoint);
      if !ok {
        return Overflow;
      }
      p := p + 1;
      phase, entry := Entry, p;
      return Go;
    }

    method JumpPastAlt()
      requires Running() && 0 <= p < used && buffer[p] == JUMP_PAST_ALT
      modifies `p, `phase, `entry
      ensures Running() && Advanced()
    {
      hide WfProgram, Closed, Variant, RunsTo, FailsTo, Trace, Recorded, Extract;
      GotoRuns(Program(), code, x, text, phase, entry, p, d, stack, done, All());
      p := p + 3 + Number(p + 1);
      phase, entry := Entry, p;
    }

    method OnFailureJump() returns (status: Status)
      requires Running() && 0 <= p < used && buffer[p] == ON_FAILURE_JUMP && !mem.failed
      modifies `p, `stack, `phase, `entry, mem
      ensures status.Go? ==> Running() && Advanced()
      ensures status != Fail && status.Overflow? == mem.failed
    {
      hide WfProgram, Closed, Variant, RunsTo, FailsTo, Trace, Recorded, Extract, IsLoop;
      OnFailureRuns(Program(), code, x, text, phase, entry, p, d, stack, done, All());
      var mcnt := Number(p + 1);
      var ok := PushFailurePoint(Point(p + 3 + mcnt, d));
      if !ok {
        return Overflow;
      }
      phase, entry := if IsLoop(code, p) then Body else Entry, if IsLoop(code, p) then p else p + 3;
      p := p + 3;
      return Go;
    }

    method DummyFailureJump() returns (status: Status)
      requires Running() && 0 <= p < used && buffer[p] == DUMMY_FAILURE_JUMP && !mem.failed
      modifies `p, `stack, `phase, `entry, mem
      ensures status.Go? ==> Running() && Advanced()
      ensures status != Fail && status.Overflow? == mem.failed
    {
      hide WfProgram, Closed, Variant, RunsTo, FailsTo, Trace, Recorded, Extract;
      PlusRuns(Program(), code, x, text, phase, entry, p, d, stack, done, All());
      var ok := PushFailurePoint(DummyPoint);
      if !ok {
        return Overflow;
      }
      phase, entry := Body, p + 3;
      p := p + 3 + Number(p + 1);
      return Go;
    }

    // ---- the end of a loop ----

    /** maybe_pop_jump: look at what follows the loop and rewrite the command for good. */
    method Decide()
      requires Running() && 0 <= p < used && buffer[p] == MAYBE_POP_JUMP
      modifies buffer
      ensures Running() && (buffer[p] == POP_FAILURE_JUMP || buffer[p] == JUMP)
      ensures forall j :: 0 <= j < buffer.Length && j != p ==> buffer[j] == old(buffer[j])
    {
      hide WfProgram, Closed, Variant, RunsTo, FailsTo, Trace, Recorded, Extract, IsLoop, Pops, HasBit;
      ghost var q := entry;
      BackRuns(Program(), code, x, text, phase, entry, p, d, stack, done, All());
      LoopReads(Program(), code, x, q);
      var p2, p1 := p + 3, p + 3 + Number(p + 1);
      while p2 + 2 < used && (buffer[p2] == STOP_MEMORY || buffer[p2] == START_MEMORY)
        invariant p + 3 <= p2 <= used && p2 in x + {|code|} && SkipMemory(code, p2) == After(code, q)
        modifies {}
        decreases used - p2
      {
        SkipAhead(Program(), code, x, p2);
        p2 := p2 + 3;
      }
      var pop := false;
      if p2 < used {
        SkipAhead(Program(), code, x, p2);
      }
      if p2 == used {
        pop := true;
      } else if buffer[p2] == EXACTN {
        var c := buffer[p2 + 2];
        if buffer[p1 + 3] == EXACTN {
          pop := buffer[p1 + 5] != c;
        } else if buffer[p1 + 3] == CHARSET || buffer[p1 + 3] == CHARSET_NOT {
          var not := buffer[p1 + 3] == CHARSET_NOT;
          assert c < (buffer[p1 + 4] as int * 8) % 256 ==> c / 8 < buffer[p1 + 4];
          if c < (buffer[p1 + 4] as int * 8) % 256 && HasBit(buffer[p1 + 5 + c / 8], (c % 8) as nat) {
            not := !not;
          }
          pop := !not;
        }
      }
      PopsReads(code, q, p2);
      assert pop == Pops(code, q);
      DecideRuns(Program(), code, x, q);
      ghost var before := Program();
      buffer[p] := if pop then POP_FAILURE_JUMP else JUMP;
      assert Program() == before[p := Decided(code, q)];
      RunsAnywhere(before, Program(), code, x, text, q, p, d, stack, done, All());
    }

    /** pop_failure_jump and jump. */
    method LoopJump()
      requires Running() && 0 <= p < used && (buffer[p] == POP_FAILURE_JUMP || buffer[p] == JUMP)
      modifies `p, `stack, `phase, `entry
      ensures Running() && Advanced()
    {
      hide WfProgram, Closed, Variant, RunsTo, FailsTo, Trace, Recorded, Extract, IsLoop, Pops;
      BackRuns(Program(), code, x, text, phase, entry, p, d, stack, done, All());
      if buffer[p] == POP_FAILURE_JUMP {
        stack := stack[..|stack| - 1];
      }
      p := p + 3 + Number(p + 1);
      phase := Entry;
    }

    // ---- intervals ----

    method SetNumberAt()
      requires Running() && 0 <= p < used && buffer[p] == SET_NUMBER_AT
      modifies `p, `phase, buffer
      ensures Running() && Advanced()
      ensures forall j :: used <= j < buffer.Length ==> buffer[j] == old(buffer[j])
    {
      hide WfProgram, Closed, Variant, RunsTo, FailsTo, Trace, Recorded, Extract, StoreAt;
      SetRuns(Program(), code, x, text, phase, entry, p, d, stack, done, All());
      var i, mcnt := p + 3 + Number(p + 1), Number(p + 3);
      StoreNumber(i, mcnt);
      p := p + 5;
      phase := NextSet(phase, code, entry);
    }

    method SucceedN() returns (status: Status)
      requires Running() && 0 <= p < used && buffer[p] == SUCCEED_N && !mem.failed
      modifies `p, `stack, `phase, buffer, mem
      ensures status.Go? ==> Running() && Advanced()
      ensures status != Fail && Base() && status.Overflow? == mem.failed
      ensures forall j :: used <= j < buffer.Length ==> buffer[j] == old(buffer[j])
    {
      hide WfProgram, Closed, Variant, RunsTo, FailsTo, Trace, Recorded, Extract, StoreAt;
      SucceedRuns(Program(), code, x, text, phase, entry, p, d, stack, done, All());
      var mcnt := Number(p + 3);
      if mcnt > 0 {
        StoreNumber(p + 3, mcnt - 1);
        p := p + 5;
        phase := Taking(phase.k);
      } else {
        ghost var before := Program();
        buffer[p + 3] := NO_OP;
        buffer[p + 4] := NO_OP;
        assert Program() == before;
        var ok := PushFailurePoint(Point(p + 3 + Number(p + 1), d));
        if !ok {
          return Overflow;
        }
        p := p + 3;
        phase := NoOps(phase.k, false);
      }
      return Go;
    }

    method NoOp()
      requires Running() && 0 <= p < used && buffer[p] == NO_OP
      modifies `p, `phase
      ensures Running() && Advanced()
    {
      hide WfProgram, Closed, Variant, RunsTo, FailsTo, Trace, Recorded;
      NoOpRuns(Program(), code, x, text, phase, entry, p, d, stack, done, All());
      p := p + 1;
      phase := if phase.last then Taking(phase.k) else NoOps(phase.k, true);
    }

    method JumpN()
      requires Running() && 0 <= p < used && buffer[p] == JUMP_N
      modifies `p, `phase, `entry, buffer
      ensures Running() && Advanced()
      ensures forall j :: used <= j < buffer.Length ==> buffer[j] == old(buffer[j])
    {
      hide WfProgram, Closed, Variant, RunsTo, FailsTo, Trace, Recorded, Extract, StoreAt;
      JumpNRuns(Program(), code, x, text, phase, entry, p, d, stack, done, All());
      var mcnt := Number(p + 3);
      if mcnt != 0 {
        var to := p + 3 + Number(p + 1);
        StoreNumber(p + 3, mcnt - 1);
        p := to;
        phase := Counting(phase.k);
      } else {
        p := p + 5;
        phase, entry := Entry, p;
      }
    }

    // ---- failing ----

    /** `fail`: take failure points from the stack until one can be resumed. */
    method Backtrack() returns (resumed: bool)
      requires Failing()
      modifies `p, `d, `stack, `phase, `entry, `done
      ensures resumed ==> Running()
      ensures !resumed ==> Failing() && |stack| == 0
      ensures |done| >= |old(done)|
    {
      hide WfProgram, Closed, Variant, RunsTo, FailsTo, Trace, Recorded, Extract;
      while |stack| > 0
        invariant Failing() && |done| >= |old(done)|
        decreases |stack|
      {
        PopRuns(Program(), code, x, text, stack, done, All());
        var point := stack[|stack| - 1];
        stack := stack[..|stack| - 1];
        if point.DummyPoint? {
          GiveUp();
        } else {
          p, d := point.p, point.d;
          phase, entry := Entry, p;
          // A failure point at a jump back to a loop would be dropped; none is pushed here.
          assert p != used ==> buffer[p] != JUMP_N && buffer[p] != MAYBE_POP_JUMP && buffer[p] != POP_FAILURE_JUMP && buffer[p] != JUMP;
          return true;
        }
      }
      return false;
    }

    // ---- the whole match ----

    constructor (buffer: array<byte>, used: nat, text: seq<byte>, pos: nat, mem: Allocator, ghost code: seq<byte>, ghost x: set<int>)
      requires used <= buffer.Length && |code| == used && WfProgram(code, x) && Closed(code, x)
      requires Variant(buffer[..used], code, x) && pos <= |text|
      ensures this.buffer == buffer && this.used == used && this.text == text && this.pos == pos
      ensures this.mem == mem && this.code == code && this.x == x && done == [] && Running()
    {
      hide WfProgram, Closed, Variant, Trace;
      this.buffer, this.used, this.text, this.pos, this.mem, this.code, this.x := buffer, used, text, pos, mem, code, x;
      p, d, stack, bestSet, matchEnd := 0, pos, [], false, -1;
      phase, entry, done := Entry, 0, [];
      new;
      StartRuns(Program(), code, x, text, pos);
    }

    /** The pattern has been matched: return the end of the match, or look for a longer one. */
    method AtEnd() returns (accepted: bool)
      requires Running() && p == used
      modifies `d, `bestSet, `matchEnd, `done
      ensures Base()
      ensures accepted ==> Outcome(All(), |text|) == d >= 0
      ensures !accepted ==> Failing() && |done| > |old(done)|
    {
      hide WfProgram, Closed, Variant, RunsTo, FailsTo, Trace, Recorded, Outcome, StackTrace;
      EndRuns(Program(), code, x, text, phase, entry, p, d, stack, done, All());
      if d == |text| {
        FullOutcome(All(), done, StackTrace(code, x, text, stack), |text|);
        return true;
      }
      if |stack| > 0 {
        RecordEnd(done, |text|, bestSet, matchEnd, d);
        if !bestSet || d > matchEnd {
          bestSet, matchEnd := true, d;
        }
        done := done + [End(d)];
        return false;
      }
      LastOutcome(done, |text|, bestSet, matchEnd, d);
      assert StackTrace(code, x, text, stack) == [] by { NoStack(code, x, text, stack); }
      assert done + [End(d)] + [] == done + [End(d)];
      if bestSet {
        d := matchEnd;
      }
      return true;
    }

    /** Run the commands of the pattern from the start.  -1: no match, -2: no room for failure points, otherwise
        the length of the match. */
    method Search() returns (r: int)
      requires Running() && !mem.failed
      modifies this, buffer, mem
      ensures Base()
      ensures r == if mem.failed then -2 else if Outcome(All(), |text|) == -1 then -1 else Outcome(All(), |text|) - pos
      ensures forall j :: used <= j < buffer.Length ==> buffer[j] == old(buffer[j])
    {
      hide WfProgram, Closed, Variant, RunsTo, FailsTo, Trace, Recorded, Outcome, StackTrace, Rank;
      while true
        invariant Running() && !mem.failed
        invariant forall j :: used <= j < buffer.Length ==> buffer[j] == old(buffer[j])
        decreases |All()| - |done|, |text| - d, used - entry, Rank(phase)
      {
        RunsBounds(Program(), code, x, text, phase, entry, p, d, stack, done, All());
        EntryBounds(code, x, entry);
        var status := Go;
        if p == used {
          var accepted := AtEnd();
          if accepted {
            return d - pos;
          }
          status := Fail;
        } else {
          status := Command();
        }
        if status == Overflow {
          return -2;
        }
        if status == Fail {
          var resumed := Backtrack();
          if !resumed {
            DeadOutcome(done, |text|, bestSet, matchEnd);
            assert StackTrace(code, x, text, stack) == [] by { NoStack(code, x, text, stack); }
            AllDone(code, x, text, stack, done, All());
            return if bestSet then matchEnd - pos else -1;
          }
        }
      }
    }

    /** One command of the pattern. */
    method Command() returns (status: Status)
      requires Running() && p != used && !mem.failed
      modifies this, buffer, mem
      ensures Base() && status.Overflow? == mem.failed
      ensures status.Go? ==> Running() && Advanced()
      ensures status.Fail? ==> Failing() && |done| > |old(done)|
      ensures forall j :: used <= j < buffer.Length ==> buffer[j] == old(buffer[j])
    {
      hide WfProgram, Closed, Variant, RunsTo, FailsTo, Trace, Recorded, Rank;
      OpcodeKnown(Program(), code, x, text, phase, entry, p, d, stack, done, All());
      var op := buffer[p];
      status := Go;
      if op == NO_OP { NoOp(); }
      else if op == EXACTN { status := Exactn(); }
      else if op == ANYCHAR || op == CHARSET || op == CHARSET_NOT { status := OneCharacter(); }
      else if op == START_MEMORY || op == STOP_MEMORY { Memory(); }
      else if op == JUMP_PAST_ALT { JumpPastAlt(); }
      else if op == ON_FAILURE_JUMP { status := OnFailureJump(); }
      else if op == MAYBE_POP_JUMP { Decide(); LoopJump(); }
      else if op == POP_FAILURE_JUMP || op == JUMP { LoopJump(); }
      else if op == DUMMY_FAILURE_JUMP { status := DummyFailureJump(); }
      else if op == PUSH_DUMMY_FAILURE { status := PushDummy(); }
      else if op == SUCCEED_N { status := SucceedN(); }
      else if op == JUMP_N { JumpN(); }
      else { SetNumberAt(); }
    }
  }

  /** The record of the best match belongs to the leaves met so far. */
  predicate Recorded(done: seq<Leaf>, full: int, bestSet: bool, matchEnd: int) {
    && (forall k :: 0 <= k < |done| && done[k].End? ==> 0 <= done[k].e <= full)
    && !Reaches(done, full)
    && bestSet == (Best(done) >= 0) && (bestSet ==> matchEnd == Best(done))
  }

  lemma RecordDead(done: seq<Leaf>, full: int, bestSet: bool, matchEnd: int)
    requires Recorded(done, full, bestSet, matchEnd)
    ensures Recorded(done + [Dead], full, bestSet, matchEnd)
  {
    ReachesAppend(done, [Dead], full);
    assert (done + [Dead])[..|done|] == done;
  }

  lemma MismatchAt(code: seq<byte>, p: int, t: seq<byte>, from: int, d: int)
    requires Fits(code, p) && code[p] == EXACTN && 0 <= from <= d <= |t| && d < from + code[p + 1]
    requires d == |t| || t[d] != code[p + 2 + (d - from)]
    ensures !CharsAt(code, p, t, from)
  {
    var n := code[p + 1];
    if from + n <= |t| {
      assert t[from..from + n][d - from] == t[d];
      assert code[p + 2..p + 2 + n][d - from] == code[p + 2 + (d - from)];
    }
  }

  /** What the look-ahead of a maybe_pop_jump reads of its loop. */
  lemma LoopReads(buf: seq<byte>, code: seq<byte>, x: set<int>, q: int)
    requires Closed(code, x) && Variant(buf, code, x) && q in x && IsLoop(code, q)
    ensures |buf| == |code| && 0 <= q && q + 4 <= LoopEnd(code, q) && LoopEnd(code, q) + 3 <= |code|
    ensures LoopEnd(code, q) == q + 3 + OpLen(code, q + 3) && OneChar(code, q + 3)
    ensures forall i :: q + 3 <= i < LoopEnd(code, q) ==> buf[i] == code[i]
    ensures LoopEnd(code, q) + 3 in x + {|code|}
  {
    hide Closed, Variant, Extract, Pops;
    LoopBytes(buf, code, x, q);
    LoopExit(code, x, q);
    VariantLength(buf, code, x);
  }

  /** The decision, once the look-ahead has come to `p2`. */
  lemma PopsReads(code: seq<byte>, q: int, p2: int)
    requires IsLoop(code, q) && 0 <= p2 <= |code| && SkipMemory(code, p2) == After(code, q)
    requires !(p2 + 2 < |code| && (code[p2] == STOP_MEMORY || code[p2] == START_MEMORY))
    ensures p2 == |code| ==> Pops(code, q)
    ensures p2 < |code| && code[p2] != EXACTN ==> !Pops(code, q)
    ensures p2 + 2 < |code| && code[p2] == EXACTN ==> Pops(code, q) == ExactPops(code, q, code[p2 + 2])
  {
    hide IsLoop, ExactPops;
  }

  /** A state at the end of a loop does not depend on what the jump there is. */
  lemma RunsAnywhere(a: seq<byte>, b: seq<byte>, code: seq<byte>, x: set<int>, t: seq<byte>, entry: int, p: int, d: int,
                     stack: seq<FailurePoint>, done: seq<Leaf>, all: seq<Leaf>)
    requires RunsTo(a, code, x, t, LoopBack, entry, p, d, stack, done, all) && |b| == |a|
    ensures RunsTo(b, code, x, t, LoopBack, entry, p, d, stack, done, all)
  {
    hide Closed, Trace, StackTrace, Pops, IsLoop, StackOk;
  }

  lemma StartRuns(buf: seq<byte>, code: seq<byte>, x: set<int>, t: seq<byte>, pos: nat)
    requires WfProgram(code, x) && Closed(code, x) && Variant(buf, code, x) && pos <= |t|
    ensures 0 in x + {|code|}
    ensures RunsTo(buf, code, x, t, Entry, 0, 0, pos, [], [], Trace(code, x, t, 0, pos))
    ensures Recorded([], |t|, false, -1)
  {
    hide Closed, Variant, Trace, WfAt, Span;
    VariantLength(buf, code, x);
    assert Trace(code, x, t, 0, pos) + [] == Trace(code, x, t, 0, pos);
  }

  lemma OpcodeKnown(buf: seq<byte>, code: seq<byte>, x: set<int>, t: seq<byte>, phase: Phase, entry: int, p: int, d: int,
                    stack: seq<FailurePoint>, done: seq<Leaf>, all: seq<Leaf>)
    requires RunsTo(buf, code, x, t, phase, entry, p, d, stack, done, all) && Variant(buf, code, x) && p != |code|
    ensures 0 <= p < |buf| && Expected(phase, buf[p])
  {
    hide Closed, Variant, Rest, Expected;
    VariantLength(buf, code, x);
    PhaseOp(buf, code, x, phase, entry, p);
  }

  lemma EntryBounds(code: seq<byte>, x: set<int>, p: int)
    requires WfProgram(code, x) && p in x + {|code|}
    ensures p <= |code|
  {
    hide WfAt, Span;
  }

  lemma EndRuns(buf: seq<byte>, code: seq<byte>, x: set<int>, t: seq<byte>, phase: Phase, entry: int, p: int, d: int,
                stack: seq<FailurePoint>, done: seq<Leaf>, all: seq<Leaf>)
    requires RunsTo(buf, code, x, t, phase, entry, p, d, stack, done, all) && p == |code|
    ensures Closed(code, x) && StackOk(x, |code|, |t|, stack) && 0 <= d <= |t|
    ensures all == done + [End(d)] + StackTrace(code, x, t, stack)
    ensures FailsTo(code, x, t, stack, done + [End(d)], all)
  {
    hide Closed, StackTrace, StackOk;
    EndPhase(buf, code, x, phase, entry, p);
    assert Trace(code, x, t, p, d) == [End(d)];
    assert done + ([End(d)] + StackTrace(code, x, t, stack)) == done + [End(d)] + StackTrace(code, x, t, stack);
  }

  lemma EndPhase(buf: seq<byte>, code: seq<byte>, x: set<int>, phase: Phase, entry: int, p: int)
    requires |buf| == |code| && Placed(buf, code, x, phase, entry, p) && p == |code|
    ensures phase.Entry?
  {
    hide Extract;
    if !phase.Entry? && !phase.Body? && !phase.LoopBack? {
      CounterBounds(code, entry);
    }
  }

  lemma NoStack(code: seq<byte>, x: set<int>, t: seq<byte>, stack: seq<FailurePoint>)
    requires Closed(code, x) && StackOk(x, |code|, |t|, stack) && |stack| == 0
    ensures StackTrace(code, x, t, stack) == []
  {}

  lemma AllDone(code: seq<byte>, x: set<int>, t: seq<byte>, stack: seq<FailurePoint>, done: seq<Leaf>, all: seq<Leaf>)
    requires FailsTo(code, x, t, stack, done, all) && |stack| == 0
    ensures all == done
  {}

  // ---- the outcome, from the record ----

  lemma FullOutcome(all: seq<Leaf>, done: seq<Leaf>, rest: seq<Leaf>, full: int)
    requires all == done + [End(full)] + rest
    ensures Outcome(all, full) == full
  {
    assert all[|done|] == End(full);
  }

  lemma LastOutcome(done: seq<Leaf>, full: int, bestSet: bool, matchEnd: int, d: int)
    requires Recorded(done, full, bestSet, matchEnd) && 0 <= d < full
    ensures Outcome(done + [End(d)], full) == (if bestSet then matchEnd else d) >= 0
  {
    LastLeaf(done + [End(d)], full);
    assert (done + [End(d)])[..|done|] == done;
  }

  lemma DeadOutcome(done: seq<Leaf>, full: int, bestSet: bool, matchEnd: int)
    requires Recorded(done, full, bestSet, matchEnd) && |done| > 0 && done[|done| - 1] == Dead
    ensures Outcome(done, full) == if bestSet then matchEnd else -1
    ensures bestSet ==> matchEnd >= 0
  {
    BestIs(done);
    BestIs(done[..|done| - 1]);
  }

  lemma RecordEnd(done: seq<Leaf>, full: int, bestSet: bool, matchEnd: int, d: int)
    requires Recorded(done, full, bestSet, matchEnd) && 0 <= d < full
    ensures Recorded(done + [End(d)], full, true, if !bestSet || d > matchEnd then d else matchEnd)
  {
    LastLeaf(done + [End(d)], full);
    assert (done + [End(d)])[..|done|] == done;
    BestIs(done);
  }
}
