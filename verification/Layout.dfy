/** What the buffer of an unfinished `regex_compile` holds: finished commands, and three bytes left open
    behind every alternative whose jump is still to be stored. */
module Layout {
  import opened Bytes
  import opened Opcodes
  import opened Regex
  import opened Code
  import opened Reading

  /** `s` with `x` put in at `at`. */
  function Inserted(s: seq<byte>, at: int, x: seq<byte>): (r: seq<byte>)
    ensures 0 <= at <= |s| ==> |r| == |s| + |x|
  {
    if 0 <= at <= |s| then s[..at] + x + s[at..] else s
  }

  /** `s` with the three bytes at `at` overwritten; nothing happens for a null pointer. */
  function Patched(s: seq<byte>, at: int, x: seq<byte>): (r: seq<byte>)
    ensures |x| == 3 ==> |r| == |s|
  {
    if 0 <= at && at + 3 <= |s| then s[..at] + x + s[at + 3..] else s
  }

  /** Finished alternatives up to the bytes left open behind the last one. */
  function OpenHead(done: seq<Branch>, g: nat): seq<byte>
    requires |done| > 0
  {
    var c := CodeBranch(done[0].nodes, g);
    if |done| == 1 then Op1(ON_FAILURE_JUMP, |c| + 3) + c
    else
      var h := g + GroupsBranch(done[0].nodes);
      AltCode(c, |CodeBranch(done[1].nodes, h)| + 3) + OpenHead(done[1..], h)
  }

  function OpenAlts(done: seq<Branch>, g: nat, hole: seq<byte>): seq<byte> {
    if |done| == 0 then [] else OpenHead(done, g) + hole
  }

  function LevelCode(done: seq<Branch>, branch: seq<Node>, g: nat, hole: seq<byte>): seq<byte> {
    OpenAlts(done, g, hole) + CodeBranch(branch, g + GroupsAlts(done))
  }

  /** The start_memory of a group; the number of groups inside it is not known yet. */
  function StartBytes(n: nat): seq<byte> {
    if n <= MAX_REGNUM then [START_MEMORY, n, 0] else []
  }

  function StackCode(stack: seq<Frame>, holes: seq<seq<byte>>): seq<byte>
    requires |holes| == |stack|
  {
    var n := |stack|;
    if n == 0 then []
    else
      StackCode(stack[..n - 1], holes[..n - 1]) +
      LevelCode(stack[n - 1].done, stack[n - 1].branch, Base(stack[..n - 1]), holes[n - 1]) + StartBytes(Base(stack))
  }

  /** `compile_stack_elt_t`. */
  datatype Saved = Saved(begaltOffset: int, fixupAltJump: int, laststartOffset: int, innerGroupOffset: int, regnum: nat)

  /** The values saved for a group that opens inside `frame`. */
  predicate SavedOk(s: Saved, stack: seq<Frame>, holes: seq<seq<byte>>, frame: Frame, hole: seq<byte>)
    requires |holes| == |stack|
  {
    var at, g := |StackCode(stack, holes)|, Base(stack);
    && s.begaltOffset == at + |OpenAlts(frame.done, g, hole)|
    && s.fixupAltJump == (if |frame.done| == 0 then 0 else at + |OpenHead(frame.done, g)| + 1)
    && s.laststartOffset == at + |LevelCode(frame.done, frame.branch, g, hole)|
    && s.regnum == g + LevelGroups(frame.done, frame.branch) + 1
    && (s.regnum <= MAX_REGNUM ==> s.innerGroupOffset == s.laststartOffset + 2)
  }

  predicate SavedAllOk(saved: seq<Saved>, stack: seq<Frame>, holes: seq<seq<byte>>)
    requires |holes| == |stack|
  {
    var n := |stack|;
    |saved| == n &&
    (n == 0 ||
     (&& |holes[n - 1]| == 3 && SavedOk(saved[n - 1], stack[..n - 1], holes[..n - 1], stack[n - 1], holes[n - 1])
      && SavedAllOk(saved[..n - 1], stack[..n - 1], holes[..n - 1])))
  }

  /** The bytes left open, for the open groups and for the innermost level. */
  datatype Holes = Holes(outer: seq<seq<byte>>, inner: seq<byte>)

  /** The local variables of `regex_compile` that point into the buffer; -1 for a null pointer. */
  datatype Pointers = Pointers(laststart: int, begalt: int, fixup: int, pending: int, regnum: nat, saved: seq<Saved>)

  /** The last command is an `exactn` that may take more characters. */
  predicate EndsExact(branch: seq<Node>) {
    |branch| > 0 && branch[|branch| - 1].Exact?
  }

  predicate PendingOk(code: seq<byte>, branch: seq<Node>, laststart: int, begalt: int, pending: int) {
    && 0 <= begalt && (EndsExact(branch) ==> pending == laststart + 1 && 1 <= |branch[|branch| - 1].lits| <= 255)
    && (!EndsExact(branch) ==> pending == -1 || (begalt <= pending < |code| && pending + code[pending] + 1 < |code|))
    && (!HasLast(branch) ==> pending == -1)
  }

  /** The buffer and the pointers agree with what has been read. */
  predicate Laid(code: seq<byte>, rd: Reader, holes: Holes, v: Pointers) {
    && |holes.outer| == |rd.stack| && |holes.inner| == 3
    && SavedAllOk(v.saved, rd.stack, holes.outer)
    && v.regnum == Opened(rd)
    && LevelLaid(code, StackCode(rd.stack, holes.outer), Base(rd.stack), rd.done, rd.branch, holes.inner, v)
  }

  /** The innermost level. */
  predicate LevelLaid(code: seq<byte>, outer: seq<byte>, g: nat, done: seq<Branch>, branch: seq<Node>, hole: seq<byte>, v: Pointers) {
    && code == outer + LevelCode(done, branch, g, hole)
    && v.begalt == |outer| + |OpenAlts(done, g, hole)|
    && v.fixup == (if |done| == 0 then -1 else |outer| + |OpenHead(done, g)|)
    && v.laststart == (if HasLast(branch) then v.begalt + |CodeBranch(branch[..|branch| - 1], g + GroupsAlts(done))| else -1)
    && PendingOk(code, branch, v.laststart, v.begalt, v.pending)
  }

  // ---- numbering of groups ----

  lemma {:induction false} GroupsAltsSnoc(done: seq<Branch>, b: Branch)
    ensures GroupsAlts(done + [b]) == GroupsAlts(done) + GroupsBranch(b.nodes)
  {
    if |done| == 0 {
      assert done + [b] == [b];
    } else {
      GroupsAltsSnoc(done[1..], b);
      assert (done + [b])[1..] == done[1..] + [b];
    }
  }

  lemma GroupsBranchSnoc(b: seq<Node>, n: Node)
    ensures GroupsBranch(b + [n]) == GroupsBranch(b) + Groups(n)
  {
    assert (b + [n])[..|b|] == b;
  }

  lemma CodeBranchSnoc(b: seq<Node>, n: Node, g: nat)
    ensures CodeBranch(b + [n], g) == CodeBranch(b, g) + CodeNode(n, g + GroupsBranch(b))
  {
    hide CodeNode, GroupsBranch;
    assert (b + [n])[..|b|] == b;
  }

  // ---- alternatives ----

  lemma OpenHeadUnfold(done: seq<Branch>, g: nat)
    requires |done| > 1
    ensures var c, h := CodeBranch(done[0].nodes, g), g + GroupsBranch(done[0].nodes);
            OpenHead(done, g) == AltCode(c, |CodeBranch(done[1].nodes, h)| + 3) + OpenHead(done[1..], h)
  {
    hide CodeBranch, GroupsBranch, AltCode;
  }

  lemma OpenHeadOne(done: seq<Branch>, g: nat)
    requires |done| == 1
    ensures var c := CodeBranch(done[0].nodes, g); OpenHead(done, g) == Op1(ON_FAILURE_JUMP, |c| + 3) + c
  {
    hide CodeBranch;
  }

  lemma GroupsAltsUnfold(done: seq<Branch>)
    requires |done| > 0
    ensures GroupsAlts(done) == GroupsBranch(done[0].nodes) + GroupsAlts(done[1..])
  {}

  lemma AppendAssoc(a: seq<byte>, b: seq<byte>, c: seq<byte>, d: seq<byte>, e: seq<byte>)
    ensures a + (b + c + d + e) == (a + b) + c + d + e
  {}

  /** One more alternative is finished: the jump behind the one before it now leads behind the new one. */
  lemma {:induction false} OpenHeadSnoc(done: seq<Branch>, b: Branch, g: nat)
    requires |done| > 0
    ensures var c := CodeBranch(b.nodes, g + GroupsAlts(done));
            OpenHead(done + [b], g) ==
            OpenHead(done, g) + Op1(JUMP_PAST_ALT, |c| + 3) + Op1(ON_FAILURE_JUMP, |c| + 3) + c
    decreases |done|
  {
    hide CodeBranch, GroupsBranch, Op1, OpenHead, GroupsAlts;
    var all, h := done + [b], g + GroupsBranch(done[0].nodes);
    var first := CodeBranch(done[0].nodes, g);
    var c := CodeBranch(b.nodes, g + GroupsAlts(done));
    GroupsAltsUnfold(done);
    OpenHeadUnfold(all, g);
    assert all[1..] == done[1..] + [b];
    if |done| == 1 {
      assert all[1..] == [b];
      OpenHeadOne(all[1..], h);
      OpenHeadOne(done, g);
      NoGroups(done[1..]);
    } else {
      OpenHeadSnoc(done[1..], b, h);
      OpenHeadUnfold(done, g);
      assert all[1] == done[1];
      AppendAssoc(AltCode(first, |CodeBranch(done[1].nodes, h)| + 3), OpenHead(done[1..], h), Op1(JUMP_PAST_ALT, |c| + 3),
                  Op1(ON_FAILURE_JUMP, |c| + 3), c);
    }
  }

  lemma NoGroups(done: seq<Branch>)
    requires |done| == 0
    ensures GroupsAlts(done) == 0
  {}

  lemma CodeAltsUnfold(alts: seq<Branch>, g: nat)
    requires |alts| > 1
    ensures var c, h := CodeBranch(alts[0].nodes, g), g + GroupsBranch(alts[0].nodes);
            CodeAlts(alts, g) == AltCode(c, |CodeBranch(alts[1].nodes, h)| + if |alts| > 2 then 3 else 0) + CodeAlts(alts[1..], h)
  {
    hide CodeBranch, GroupsBranch, AltCode;
  }

  lemma CodeAltsOne(b: Branch, g: nat)
    ensures CodeAlts([b], g) == CodeBranch(b.nodes, g)
  {
    hide CodeBranch;
  }

  /** The last alternative is finished: the jump before it leads to its end. */
  lemma {:induction false} CloseAlts(done: seq<Branch>, b: Branch, g: nat)
    requires |done| > 0
    ensures var c := CodeBranch(b.nodes, g + GroupsAlts(done));
            CodeAlts(done + [b], g) == OpenHead(done, g) + Op1(JUMP_PAST_ALT, |c|) + c
    decreases |done|
  {
    hide CodeBranch, GroupsBranch, Op1, OpenHead, GroupsAlts, CodeAlts;
    var all, h := done + [b], g + GroupsBranch(done[0].nodes);
    var first := CodeBranch(done[0].nodes, g);
    var c := CodeBranch(b.nodes, g + GroupsAlts(done));
    GroupsAltsUnfold(done);
    CodeAltsUnfold(all, g);
    assert all[1..] == done[1..] + [b];
    if |done| == 1 {
      assert all[1..] == [b];
      CodeAltsOne(b, h);
      OpenHeadOne(done, g);
      NoGroups(done[1..]);
    } else {
      CloseAlts(done[1..], b, h);
      OpenHeadUnfold(done, g);
      assert all[1] == done[1];
      AppendAssoc(AltCode(first, |CodeBranch(done[1].nodes, h)| + 3), OpenHead(done[1..], h), Op1(JUMP_PAST_ALT, |c|), c, []);
    }
  }

  /** The bytes of all alternatives when the last one ends and its jump, if any, is stored. */
  function Filled(done: seq<Branch>, branch: seq<Node>, g: nat): seq<byte> {
    LevelCode(done, branch, g, Op1(JUMP_PAST_ALT, |CodeBranch(branch, g + GroupsAlts(done))|))
  }

  lemma FilledIs(done: seq<Branch>, branch: seq<Node>, g: nat)
    ensures Filled(done, branch, g) == CodeAlts(done + [Branch(branch)], g)
  {
    hide CodeBranch, GroupsBranch, Op1, OpenHead, CodeAlts;
    var b := Branch(branch);
    if |done| == 0 {
      assert done + [b] == [b];
      CodeAltsOne(b, g);
      NoGroups(done);
    } else {
      CloseAlts(done, b, g);
    }
  }

  // ---- steps inside a level ----

  /** An `exactn` at the end of the buffer: its count byte tells where it ends. */
  lemma ExactAtEnd(code: seq<byte>, outer: seq<byte>, g: nat, done: seq<Branch>, branch: seq<Node>, hole: seq<byte>, v: Pointers)
    requires LevelLaid(code, outer, g, done, branch, hole, v) && EndsExact(branch)
    ensures 0 <= v.pending < |code| && v.pending + code[v.pending] + 1 == |code|
    ensures code[v.pending] == |branch[|branch| - 1].lits|
  {
    hide OpenAlts, OpenHead, GroupsAlts, GroupsBranch;
    var n := branch[|branch| - 1];
    var h := g + GroupsAlts(done);
    var init := branch[..|branch| - 1];
    CodeBranchSnoc(init, n, h);
    assert branch == init + [n];
    var front := outer + OpenAlts(done, g, hole) + CodeBranch(init, h);
    assert code == front + CodeNode(n, h + GroupsBranch(init));
    assert code[v.pending] == CodeNode(n, h + GroupsBranch(init))[1];
  }

  predicate Plain(n: Node) {
    n.Exact? || n.AnyChar? || n.CharSet? || n.Stray?
  }

  lemma PlainCode(n: Node, g: nat)
    requires Plain(n)
    ensures CodeNode(n, g) == CodeNode(n, 0) && |CodeNode(n, g)| > 0 && Groups(n) == 0
  {}

  /** A command is added at the end. */
  lemma LevelPush(code: seq<byte>, outer: seq<byte>, g: nat, done: seq<Branch>, branch: seq<Node>, hole: seq<byte>, v: Pointers, n: Node)
    requires LevelLaid(code, outer, g, done, branch, hole, v)
    requires Plain(n) && (n.Exact? ==> |n.lits| == 1)
    ensures LevelLaid(code + CodeNode(n, 0), outer, g, done, branch + [n], hole,
                      v.(laststart := |code|, pending := if n.Exact? then |code| + 1 else v.pending))
  {
    hide CodeNode, OpenAlts, OpenHead, GroupsAlts, GroupsBranch, Groups, CodeBranch, PendingOk, LevelCode;
    PlainCode(n, g + GroupsAlts(done) + GroupsBranch(branch));
    LevelCodeSnoc(done, branch, g, hole, n);
    LevelEnd(done, branch, g, hole);
    PushPending(code, outer, g, done, branch, hole, v, n);
    assert (branch + [n])[..|branch|] == branch;
    assert code + CodeNode(n, 0) == outer + (LevelCode(done, branch, g, hole) + CodeNode(n, 0));
  }

  lemma LevelCodeSnoc(done: seq<Branch>, branch: seq<Node>, g: nat, hole: seq<byte>, n: Node)
    ensures LevelCode(done, branch + [n], g, hole) ==
            LevelCode(done, branch, g, hole) + CodeNode(n, g + GroupsAlts(done) + GroupsBranch(branch))
  {
    hide CodeNode, OpenAlts, GroupsAlts, GroupsBranch, CodeBranch;
    CodeBranchSnoc(branch, n, g + GroupsAlts(done));
  }

  lemma LevelEnd(done: seq<Branch>, branch: seq<Node>, g: nat, hole: seq<byte>)
    ensures |LevelCode(done, branch, g, hole)| == |OpenAlts(done, g, hole)| + |CodeBranch(branch, g + GroupsAlts(done))|
  {
    hide OpenAlts, GroupsAlts, CodeBranch;
  }

  lemma PushPending(code: seq<byte>, outer: seq<byte>, g: nat, done: seq<Branch>, branch: seq<Node>, hole: seq<byte>, v: Pointers, n: Node)
    requires LevelLaid(code, outer, g, done, branch, hole, v)
    requires Plain(n) && (n.Exact? ==> |n.lits| == 1)
    ensures PendingOk(code + CodeNode(n, 0), branch + [n], |code|, v.begalt, if n.Exact? then |code| + 1 else v.pending)
  {
    hide CodeNode, OpenAlts, OpenHead, GroupsAlts, GroupsBranch, Groups, CodeBranch, LevelCode;
    PlainCode(n, 0);
    if EndsExact(branch) {
      ExactAtEnd(code, outer, g, done, branch, hole, v);
    }
    assert forall k :: 0 <= k < |code| ==> (code + CodeNode(n, 0))[k] == code[k];
  }

  /** A run of operators is skipped. */
  lemma LevelSkip(code: seq<byte>, outer: seq<byte>, g: nat, done: seq<Branch>, branch: seq<Node>, hole: seq<byte>, v: Pointers, ops: seq<RepeatOp>)
    requires LevelLaid(code, outer, g, done, branch, hole, v) && !HasLast(branch)
    ensures LevelLaid(code, outer, g, done, branch + [Skipped(ops)], hole, v)
  {
    hide OpenAlts, OpenHead, GroupsAlts, GroupsBranch, CodeBranch;
    var h := g + GroupsAlts(done);
    CodeBranchSnoc(branch, Skipped(ops), h);
    assert CodeNode(Skipped(ops), h + GroupsBranch(branch)) == [];
    assert CodeBranch(branch + [Skipped(ops)], h) == CodeBranch(branch, h);
  }

  /** Where the last expression lies. */
  lemma LastAt(code: seq<byte>, outer: seq<byte>, g: nat, done: seq<Branch>, branch: seq<Node>, hole: seq<byte>, v: Pointers)
    requires LevelLaid(code, outer, g, done, branch, hole, v) && HasLast(branch)
    ensures var h := g + GroupsAlts(done) + GroupsBranch(branch[..|branch| - 1]);
            && 0 <= v.begalt <= v.laststart <= |code| && code[v.laststart..] == CodeNode(branch[|branch| - 1], h)
            && code[..v.laststart] == outer + OpenAlts(done, g, hole) + CodeBranch(branch[..|branch| - 1], g + GroupsAlts(done))
  {
    hide CodeNode, OpenAlts, OpenHead, GroupsAlts, GroupsBranch, CodeBranch, PendingOk;
    var h := g + GroupsAlts(done);
    var init, n := branch[..|branch| - 1], branch[|branch| - 1];
    assert branch == init + [n];
    CodeBranchSnoc(init, n, h);
    assert code == (outer + OpenAlts(done, g, hole) + CodeBranch(init, h)) + CodeNode(n, h + GroupsBranch(init));
  }

  /** The last expression is replaced by one with the same number of groups. */
  lemma LevelReplace(code: seq<byte>, outer: seq<byte>, g: nat, done: seq<Branch>, branch: seq<Node>, hole: seq<byte>, v: Pointers,
                     n: Node, pending: int)
    requires LevelLaid(code, outer, g, done, branch, hole, v) && HasLast(branch) && !n.Skipped?
    requires if n.Exact? then pending == v.laststart + 1 && 1 <= |n.lits| <= 255 else pending == -1
    ensures v.laststart <= |code|
    ensures var h := g + GroupsAlts(done) + GroupsBranch(branch[..|branch| - 1]);
            LevelLaid(code[..v.laststart] + CodeNode(n, h), outer, g, done, branch[..|branch| - 1] + [n], hole, v.(pending := pending))
  {
    hide CodeNode, OpenAlts, OpenHead, GroupsAlts, GroupsBranch, CodeBranch, PendingOk;
    LastAt(code, outer, g, done, branch, hole, v);
    var h := g + GroupsAlts(done);
    var init := branch[..|branch| - 1];
    CodeBranchSnoc(init, n, h);
    assert (init + [n])[..|init|] == init;
    ReplacePending(code[..v.laststart] + CodeNode(n, h + GroupsBranch(init)), init, n, v.laststart, v.begalt, pending);
    assert code[..v.laststart] + CodeNode(n, h + GroupsBranch(init)) ==
           outer + (OpenAlts(done, g, hole) + (CodeBranch(init, h) + CodeNode(n, h + GroupsBranch(init))));
  }

  lemma ReplacePending(code: seq<byte>, init: seq<Node>, n: Node, laststart: int, begalt: int, pending: int)
    requires 0 <= begalt && !n.Skipped? && if n.Exact? then pending == laststart + 1 && 1 <= |n.lits| <= 255 else pending == -1
    ensures PendingOk(code, init + [n], laststart, begalt, pending)
  {}

  /** A further character in the `exactn` at the end. */
  lemma JoinCode(lits: seq<Literal>, lit: Literal, g: nat)
    requires 1 <= |lits| < 255
    ensures var c := CodeNode(Exact(lits), g);
            |c| == |lits| + 2 && c[1] == |lits| && CodeNode(Exact(lits + [lit]), g) == c[1 := c[1] + 1] + [lit.c]
  {
    var c := CodeNode(Exact(lits), g);
    assert Chars(lits + [lit]) == Chars(lits) + [lit.c];
  }

  // ---- the alternatives of a level ----

  /** The open bytes come last: filling them in changes nothing else. */
  lemma FillHole(code: seq<byte>, outer: seq<byte>, g: nat, done: seq<Branch>, branch: seq<Node>, hole: seq<byte>, v: Pointers, jump: seq<byte>)
    requires LevelLaid(code, outer, g, done, branch, hole, v) && |hole| == 3 == |jump| && |done| > 0
    ensures 0 <= v.fixup && v.fixup + 3 == v.begalt <= |code|
    ensures code[..v.fixup] + jump + code[v.fixup + 3..] == outer + LevelCode(done, branch, g, jump)
    ensures |code| == v.begalt + |CodeBranch(branch, g + GroupsAlts(done))|
  {
    hide CodeBranch, OpenHead, GroupsAlts;
    var rest := CodeBranch(branch, g + GroupsAlts(done));
    assert code == outer + OpenHead(done, g) + hole + rest;
    assert code[..v.fixup] == outer + OpenHead(done, g);
    assert code[v.fixup + 3..] == rest;
  }

  /** Another alternative: a choice goes in before the one just finished and three bytes stay open behind it. */
  lemma AlternativeCode(done: seq<Branch>, branch: seq<Node>, g: nat, next: seq<byte>)
    ensures var c := CodeBranch(branch, g + GroupsAlts(done));
            OpenAlts(done + [Branch(branch)], g, next) ==
            OpenAlts(done, g, Op1(JUMP_PAST_ALT, |c| + 3)) + Op1(ON_FAILURE_JUMP, |c| + 3) + c + next
  {
    hide CodeBranch, Op1, OpenHead, GroupsAlts;
    var b := Branch(branch);
    if |done| == 0 {
      assert done + [b] == [b];
      OpenHeadOne([b], g);
      NoGroups(done);
    } else {
      OpenHeadSnoc(done, b, g);
    }
  }

  lemma LevelAlternative(outer: seq<byte>, g: nat, done: seq<Branch>, branch: seq<Node>, next: seq<byte>, v: Pointers, code: seq<byte>)
    requires |next| == 3
    requires var c := CodeBranch(branch, g + GroupsAlts(done));
             code == outer + OpenAlts(done, g, Op1(JUMP_PAST_ALT, |c| + 3)) + Op1(ON_FAILURE_JUMP, |c| + 3) + c + next
    ensures LevelLaid(code, outer, g, done + [Branch(branch)], [], next, v.(laststart := -1, begalt := |code|, fixup := |code| - 3, pending := -1))
  {
    hide CodeBranch, Op1, OpenHead, GroupsAlts;
    AlternativeCode(done, branch, g, next);
    NoCode(g + GroupsAlts(done + [Branch(branch)]));
    assert code == outer + OpenAlts(done + [Branch(branch)], g, next);
    assert OpenAlts(done + [Branch(branch)], g, next) == OpenHead(done + [Branch(branch)], g) + next;
  }

  lemma NoCode(g: nat)
    ensures CodeBranch([], g) == []
  {}

  // ---- groups ----

  lemma LevelOpen(outer: seq<byte>, g: nat, hole: seq<byte>, v: Pointers)
    requires v.laststart == -1 && v.begalt == |outer| && v.fixup == -1 && v.pending == -1
    ensures LevelLaid(outer, outer, g, [], [], hole, v)
  {
    NoCode(g);
    NoGroups([]);
  }

  /** The code of a group in terms of what was laid out for it. */
  lemma GroupCode(done: seq<Branch>, branch: seq<Node>, r: nat)
    requires r > 0
    ensures var alts := done + [Branch(branch)];
            var nested := (GroupsAlts(alts) % 256) as byte;
            CodeNode(Group(alts), r - 1) ==
            StartBytes(r)[..if r <= MAX_REGNUM then 2 else 0] + (if r <= MAX_REGNUM then [nested] else []) +
            Filled(done, branch, r) + (if |done| > 0 then [PUSH_DUMMY_FAILURE] else []) +
            (if r <= MAX_REGNUM then [STOP_MEMORY, r, nested] else [])
  {
    hide CodeAlts, GroupsAlts;
    hide Filled;
    FilledIs(done, branch, r);
    var alts := done + [Branch(branch)];
    var nested := (GroupsAlts(alts) % 256) as byte;
    var inner := CodeAlts(alts, r) + if |done| > 0 then [PUSH_DUMMY_FAILURE] else [];
    assert CodeNode(Group(alts), r - 1) == CodeGroup(alts, r - 1);
  }

  // ---- the whole layout ----

  lemma OpenedPush(rd: Reader, n: Node)
    ensures Opened(Push(rd, n)) == Opened(rd) + Groups(n)
  {
    GroupsBranchSnoc(rd.branch, n);
  }

  lemma OpenedReplace(rd: Reader, n: Node)
    requires |rd.branch| > 0 && Groups(n) == Groups(rd.branch[|rd.branch| - 1])
    ensures Opened(ReplaceLast(rd, n)) == Opened(rd)
  {
    GroupsBranchSnoc(rd.branch[..|rd.branch| - 1], n);
  }

  lemma LaidPush(code: seq<byte>, rd: Reader, holes: Holes, v: Pointers, n: Node)
    requires Laid(code, rd, holes, v)
    requires Plain(n) && (n.Exact? ==> |n.lits| == 1)
    ensures Laid(code + CodeNode(n, 0), Push(rd, n), holes,
                 v.(laststart := |code|, pending := if n.Exact? then |code| + 1 else v.pending))
  {
    hide LevelLaid, Opened, CodeNode, SavedAllOk, Groups, StackCode;
    LevelPush(code, StackCode(rd.stack, holes.outer), Base(rd.stack), rd.done, rd.branch, holes.inner, v, n);
    PlainCode(n, 0);
    OpenedPush(rd, n);
  }

  lemma LaidSkip(code: seq<byte>, rd: Reader, holes: Holes, v: Pointers, ops: seq<RepeatOp>)
    requires Laid(code, rd, holes, v) && !HasLast(rd.branch)
    ensures Laid(code, Push(rd, Skipped(ops)), holes, v)
  {
    hide LevelLaid, Opened, CodeNode, SavedAllOk, StackCode, HasLast;
    LevelSkip(code, StackCode(rd.stack, holes.outer), Base(rd.stack), rd.done, rd.branch, holes.inner, v, ops);
    OpenedPush(rd, Skipped(ops));
  }

  /** The number of groups before the last expression. */
  function Before(rd: Reader): nat
    requires |rd.branch| > 0
  {
    Base(rd.stack) + GroupsAlts(rd.done) + GroupsBranch(rd.branch[..|rd.branch| - 1])
  }

  lemma LaidLast(code: seq<byte>, rd: Reader, holes: Holes, v: Pointers)
    requires Laid(code, rd, holes, v)
    ensures HasLast(rd.branch) <==> v.laststart != -1
    ensures HasLast(rd.branch) ==>
            0 <= v.laststart <= |code| && code[v.laststart..] == CodeNode(rd.branch[|rd.branch| - 1], Before(rd))
  {
    hide SavedAllOk, CodeNode, CodeBranch, LevelCode, OpenAlts, OpenHead, PendingOk, Opened, StackCode, GroupsAlts, GroupsBranch;
    if HasLast(rd.branch) {
      LastAt(code, StackCode(rd.stack, holes.outer), Base(rd.stack), rd.done, rd.branch, holes.inner, v);
    }
  }

  lemma LaidReplace(code: seq<byte>, rd: Reader, holes: Holes, v: Pointers, n: Node, pending: int)
    requires Laid(code, rd, holes, v) && HasLast(rd.branch) && !n.Skipped?
    requires Groups(n) == Groups(rd.branch[|rd.branch| - 1])
    requires if n.Exact? then pending == v.laststart + 1 && 1 <= |n.lits| <= 255 else pending == -1
    ensures 0 <= v.laststart <= |code|
    ensures Laid(code[..v.laststart] + CodeNode(n, Before(rd)), ReplaceLast(rd, n), holes, v.(pending := pending))
  {
    hide LevelLaid, Opened, CodeNode, SavedAllOk, Groups, StackCode;
    LaidLast(code, rd, holes, v);
    LevelReplace(code, StackCode(rd.stack, holes.outer), Base(rd.stack), rd.done, rd.branch, holes.inner, v, n, pending);
    OpenedReplace(rd, n);
  }

  /** An interval with nothing before it. */
  lemma LaidCountedNone(code: seq<byte>, rd: Reader, holes: Holes, v: Pointers, lower: seq<byte>, upper: UpperBound)
    requires Laid(code, rd, holes, v) && !HasLast(rd.branch)
    ensures var n := Interval(Skipped([]), lower, upper);
            && CodeNode(n, 0) == IntervalCode([], LowerOf(n), UpperOf(n))
            && Laid(code + CodeNode(n, 0), Push(rd, n), holes, v.(laststart := |code|, pending := -1))
  {
    hide Opened, SavedAllOk, StackCode, IntervalCode, LowerOf, UpperOf, LevelCode, OpenAlts, OpenHead;
    var n := Interval(Skipped([]), lower, upper);
    var outer, g := StackCode(rd.stack, holes.outer), Base(rd.stack);
    OpenedPush(rd, n);
    LevelCounted(code, outer, g, rd.done, rd.branch, holes.inner, v, n);
  }

  lemma LevelCounted(code: seq<byte>, outer: seq<byte>, g: nat, done: seq<Branch>, branch: seq<Node>, hole: seq<byte>, v: Pointers, n: Node)
    requires LevelLaid(code, outer, g, done, branch, hole, v) && n.Interval? && n.operand == Skipped([])
    ensures CodeNode(n, 0) == IntervalCode([], LowerOf(n), UpperOf(n)) && Groups(n) == 0
    ensures LevelLaid(code + CodeNode(n, 0), outer, g, done, branch + [n], hole, v.(laststart := |code|, pending := -1))
  {
    hide OpenAlts, OpenHead, GroupsAlts, GroupsBranch, CodeBranch, IntervalCode, LowerOf, UpperOf;
    var h := g + GroupsAlts(done);
    CodeBranchSnoc(branch, n, h);
    assert CodeNode(n, h + GroupsBranch(branch)) == CodeNode(n, 0);
    assert (branch + [n])[..|branch|] == branch;
    assert code + CodeNode(n, 0) == outer + (OpenAlts(done, g, hole) + (CodeBranch(branch, h) + CodeNode(n, 0)));
  }

  /** Storing the jump behind the last finished alternative. */
  lemma LaidFill(code: seq<byte>, rd: Reader, holes: Holes, v: Pointers, jump: seq<byte>)
    requires Laid(code, rd, holes, v) && |jump| == 3
    ensures v.fixup == -1 <==> |rd.done| == 0
    ensures |rd.done| > 0 ==> 0 <= v.fixup && v.fixup + 3 == v.begalt <= |code|
    ensures 0 <= v.begalt <= |code| && |code| == v.begalt + |CodeBranch(rd.branch, Base(rd.stack) + GroupsAlts(rd.done))|
    ensures Laid(Patched(code, v.fixup, jump), rd, if |rd.done| > 0 then holes.(inner := jump) else holes, v)
  {
    hide SavedAllOk, CodeBranch, OpenHead, OpenAlts, LevelCode, StackCode, Opened, Base, GroupsAlts, PendingOk, LevelLaid;
    var outer, g := StackCode(rd.stack, holes.outer), Base(rd.stack);
    LevelPointers(code, outer, g, rd.done, rd.branch, holes.inner, v);
    if |rd.done| > 0 {
      LevelFill(code, outer, g, rd.done, rd.branch, holes.inner, v, jump);
    }
  }

  lemma LevelPointers(code: seq<byte>, outer: seq<byte>, g: nat, done: seq<Branch>, branch: seq<Node>, hole: seq<byte>, v: Pointers)
    requires LevelLaid(code, outer, g, done, branch, hole, v) && |hole| == 3
    ensures v.fixup == -1 <==> |done| == 0
    ensures |done| > 0 ==> 0 <= v.fixup && v.fixup + 3 == v.begalt <= |code|
    ensures 0 <= v.begalt <= |code| && |code| == v.begalt + |CodeBranch(branch, g + GroupsAlts(done))|
  {
    hide CodeBranch, OpenHead, GroupsAlts, PendingOk;
  }

  lemma LevelFill(code: seq<byte>, outer: seq<byte>, g: nat, done: seq<Branch>, branch: seq<Node>, hole: seq<byte>, v: Pointers, jump: seq<byte>)
    requires LevelLaid(code, outer, g, done, branch, hole, v) && |hole| == 3 == |jump| && |done| > 0
    requires 0 <= v.fixup && v.fixup + 3 == v.begalt <= |code|
    ensures LevelLaid(code[..v.fixup] + jump + code[v.fixup + 3..], outer, g, done, branch, jump, v)
  {
    hide CodeBranch, OpenHead, GroupsAlts, PendingOk;
    FillHole(code, outer, g, done, branch, hole, v, jump);
    FillPending(code, outer, g, done, branch, hole, v, jump);
  }

  lemma FillPending(code: seq<byte>, outer: seq<byte>, g: nat, done: seq<Branch>, branch: seq<Node>, hole: seq<byte>, v: Pointers, jump: seq<byte>)
    requires LevelLaid(code, outer, g, done, branch, hole, v) && |hole| == 3 == |jump| && |done| > 0
    requires 0 <= v.fixup && v.fixup + 3 == v.begalt <= |code|
    ensures PendingOk(code[..v.fixup] + jump + code[v.fixup + 3..], branch, v.laststart, v.begalt, v.pending)
  {
    var code' := code[..v.fixup] + jump + code[v.fixup + 3..];
    assert |code'| == |code| && forall k :: v.begalt <= k < |code| ==> code'[k] == code[k];
    if EndsExact(branch) {
      ExactAtEnd(code, outer, g, done, branch, hole, v);
    }
  }

  /** Another alternative, once the jump of the last one is stored and a choice is in front of the one just finished. */
  lemma LaidAlternative(rd: Reader, holes: Holes, v: Pointers, next: seq<byte>, was: seq<byte>, code: seq<byte>)
    requires Laid(was, rd, holes, v) && |next| == 3
    requires var c := CodeBranch(rd.branch, Base(rd.stack) + GroupsAlts(rd.done));
             && (|rd.done| > 0 ==> holes.inner == Op1(JUMP_PAST_ALT, |c| + 3))
             && v.begalt <= |was|
             && code == Inserted(was, v.begalt, Op1(ON_FAILURE_JUMP, |c| + 3)) + next
    ensures Laid(code, Alternative(rd), holes.(inner := next),
                 v.(laststart := -1, begalt := |code|, fixup := |code| - 3, pending := -1))
  {
    hide SavedAllOk, CodeBranch, OpenHead, StackCode, Op1, GroupsAlts, PendingOk, GroupsBranch;
    var outer, g := StackCode(rd.stack, holes.outer), Base(rd.stack);
    var c := CodeBranch(rd.branch, g + GroupsAlts(rd.done));
    assert was[..v.begalt] == outer + OpenAlts(rd.done, g, holes.inner) && was[v.begalt..] == c;
    GroupsAltsSnoc(rd.done, Branch(rd.branch));
    assert GroupsBranch([]) == 0 by { NoBranchGroups(); }
    LevelAlternative(outer, g, rd.done, rd.branch, next, v, code);
  }

  lemma NoBranchGroups()
    ensures GroupsBranch([]) == 0
  {}

  // ---- opening and closing groups ----

  /** Where the code of the innermost level starts and ends. */
  lemma LaidOpen(code: seq<byte>, rd: Reader, holes: Holes, v: Pointers, inner: int, hole: seq<byte>)
    requires Laid(code, rd, holes, v) && |hole| == 3
    requires v.regnum + 1 <= MAX_REGNUM ==> inner == |code| + 2
    ensures var code' := code + StartBytes(v.regnum + 1);
            var s := Saved(v.begalt, v.fixup + 1, |code|, inner, v.regnum + 1);
            Laid(code', Opening(rd), Holes(holes.outer + [holes.inner], hole),
                 Pointers(-1, |code'|, -1, -1, v.regnum + 1, v.saved + [s]))
  {
    hide CodeBranch, OpenHead, GroupsAlts, PendingOk, GroupsBranch;
    var code' := code + StartBytes(v.regnum + 1);
    var s := Saved(v.begalt, v.fixup + 1, |code|, inner, v.regnum + 1);
    var frame, n := Frame(rd.done, rd.branch), |rd.stack|;
    var stack, outer := rd.stack + [frame], holes.outer + [holes.inner];
    assert stack[..n] == rd.stack && outer[..n] == holes.outer && (v.saved + [s])[..n] == v.saved;
    assert SavedOk(s, rd.stack, holes.outer, frame, holes.inner);
    assert SavedAllOk(v.saved + [s], stack, outer);
    assert Base(stack) == v.regnum + 1;
    assert StackCode(stack, outer) == code';
    var v' := Pointers(-1, |code'|, -1, -1, v.regnum + 1, v.saved + [s]);
    LevelOpen(code', Base(stack), hole, v');
    NoBranchGroups();
    NoGroups([]);
  }

  /** What is left when the innermost level is closed. */
  function Popped(v: Pointers): Pointers
    requires |v.saved| > 0
  {
    var s := v.saved[|v.saved| - 1];
    Pointers(s.laststartOffset, s.begaltOffset, s.fixupAltJump - 1, -1, v.regnum, v.saved[..|v.saved| - 1])
  }

  /** The buffer after a closing bracket: the count of inner groups is filled in and the stop_memory added. */
  function ClosedCode(code: seq<byte>, done: seq<Branch>, v: Pointers): seq<byte>
    requires |v.saved| > 0
  {
    var s := v.saved[|v.saved| - 1];
    var nested := ((v.regnum - s.regnum) % 256) as byte;
    var code1 := code + if |done| > 0 then [PUSH_DUMMY_FAILURE] else [];
    if s.regnum <= MAX_REGNUM && 0 <= s.innerGroupOffset < |code1| then
      code1[s.innerGroupOffset := nested] + [STOP_MEMORY, s.regnum, nested]
    else code1
  }

  lemma OpenedClosed(rd: Reader)
    requires |rd.stack| > 0
    ensures Opened(Closing(rd)) == Opened(rd)
    ensures Opened(rd) - Base(rd.stack) == GroupsAlts(rd.done + [Branch(rd.branch)])
  {
    hide GroupsAlts;
    var frame := rd.stack[|rd.stack| - 1];
    GroupsAltsSnoc(rd.done, Branch(rd.branch));
    GroupsBranchSnoc(frame.branch, Group(rd.done + [Branch(rd.branch)]));
  }

  /** The bytes of a group, from those laid out for it. */
  lemma CloseGroup(front: seq<byte>, done: seq<Branch>, branch: seq<Node>, r: nat, v: Pointers)
    requires r > 0 && |v.saved| > 0
    requires var s := v.saved[|v.saved| - 1];
             s.regnum == r && (r <= MAX_REGNUM ==> s.innerGroupOffset == |front| + 2)
    requires v.regnum - r == GroupsAlts(done + [Branch(branch)])
    ensures ClosedCode(front + StartBytes(r) + Filled(done, branch, r), done, v) ==
            front + CodeNode(Group(done + [Branch(branch)]), r - 1)
  {
    hide Filled, CodeNode, GroupsAlts;
    GroupCode(done, branch, r);
    var nested := ((v.regnum - r) % 256) as byte;
    var fill, dummy := Filled(done, branch, r), if |done| > 0 then [PUSH_DUMMY_FAILURE] else [];
    if r <= MAX_REGNUM {
      CloseBytes(front, r, nested, fill, dummy);
    } else {
      assert front + [] + fill + dummy == front + ([] + [] + fill + dummy + []);
    }
  }

  lemma CloseBytes(front: seq<byte>, r: byte, nested: byte, fill: seq<byte>, dummy: seq<byte>)
    ensures var start := [START_MEMORY, r, 0];
            var code := front + start + fill + dummy;
            code[|front| + 2 := nested] + [STOP_MEMORY, r, nested] ==
            front + (start[..2] + [nested] + fill + dummy + [STOP_MEMORY, r, nested])
  {
    var code := front + [START_MEMORY, r, 0] + fill + dummy;
    assert code == front + [START_MEMORY, r] + [0] + (fill + dummy);
    assert code[|front| + 2 := nested] == front + [START_MEMORY, r] + [nested] + (fill + dummy);
  }

  lemma LaidClose(code: seq<byte>, rd: Reader, holes: Holes, v: Pointers)
    requires Laid(code, rd, holes, v) && |rd.stack| > 0
    requires |rd.done| > 0 ==> holes.inner == Op1(JUMP_PAST_ALT, |CodeBranch(rd.branch, Base(rd.stack) + GroupsAlts(rd.done))|)
    ensures |v.saved| == |rd.stack|
    ensures var s := v.saved[|v.saved| - 1]; s.regnum <= v.regnum && (s.regnum <= MAX_REGNUM ==> 0 <= s.innerGroupOffset < |code|)
    ensures Laid(ClosedCode(code, rd.done, v), Closing(rd), Holes(holes.outer[..|rd.stack| - 1], holes.outer[|rd.stack| - 1]), Popped(v))
  {
    hide Laid, CodeBranch, OpenHead, OpenAlts, GroupsAlts, GroupsBranch, CodeNode, ClosedCode, Op1, StackCode, LevelCode, LevelLaid,
      SavedAllOk, Base, Opened, Closing, StartBytes, Filled;
    var n := |rd.stack|;
    LaidTop(code, rd, holes, v);
    var frame, s, below := rd.stack[n - 1], v.saved[n - 1], rd.stack[..n - 1];
    var r, hole := Base(rd.stack), holes.outer[n - 1];
    var at := StackCode(below, holes.outer[..n - 1]);
    var front := at + LevelCode(frame.done, frame.branch, Base(below), hole);
    OpenedClosed(rd);
    FilledLevel(rd.done, rd.branch, r, holes.inner);
    CloseGroup(front, rd.done, rd.branch, r, v);
    GroupPushed(at, Base(below), frame, hole, Group(rd.done + [Branch(rd.branch)]), Popped(v));
    InnerInside(front, r, Filled(rd.done, rd.branch, r));
    LaidBelow(code, rd, holes, v);
  }

  /** The innermost group and the level around it. */
  lemma LaidTop(code: seq<byte>, rd: Reader, holes: Holes, v: Pointers)
    requires Laid(code, rd, holes, v) && |rd.stack| > 0
    ensures |v.saved| == |rd.stack| == |holes.outer| && v.regnum == Opened(rd)
    ensures var n := |rd.stack|;
            var frame, below, outer, hole := rd.stack[n - 1], rd.stack[..n - 1], holes.outer[..n - 1], holes.outer[n - 1];
            && |hole| == 3 && SavedOk(v.saved[n - 1], below, outer, frame, hole) && SavedAllOk(v.saved[..n - 1], below, outer)
            && code == StackCode(below, outer) + LevelCode(frame.done, frame.branch, Base(below), hole) + StartBytes(Base(rd.stack)) +
                       LevelCode(rd.done, rd.branch, Base(rd.stack), holes.inner)
            && Base(rd.stack) == Base(below) + LevelGroups(frame.done, frame.branch) + 1
  {
    hide CodeBranch, OpenHead, OpenAlts, LevelCode, GroupsAlts, GroupsBranch, SavedOk, PendingOk, Opened, StartBytes, LevelGroups;
  }

  lemma FilledLevel(done: seq<Branch>, branch: seq<Node>, r: nat, hole: seq<byte>)
    requires |done| > 0 ==> hole == Op1(JUMP_PAST_ALT, |CodeBranch(branch, r + GroupsAlts(done))|)
    ensures LevelCode(done, branch, r, hole) == Filled(done, branch, r)
  {
    hide CodeBranch, OpenHead, GroupsAlts, Op1;
  }

  /** The level around a group that has been closed. */
  lemma LaidBelow(code: seq<byte>, rd: Reader, holes: Holes, v: Pointers)
    requires |rd.stack| > 0 && |v.saved| == |rd.stack| == |holes.outer| && v.regnum == Opened(Closing(rd))
    requires var n := |rd.stack|;
             var frame, below, outer, hole := rd.stack[n - 1], rd.stack[..n - 1], holes.outer[..n - 1], holes.outer[n - 1];
             && |hole| == 3 && SavedAllOk(v.saved[..n - 1], below, outer)
             && LevelLaid(ClosedCode(code, rd.done, v), StackCode(below, outer), Base(below), frame.done,
                          frame.branch + [Group(rd.done + [Branch(rd.branch)])], hole, Popped(v))
    ensures Laid(ClosedCode(code, rd.done, v), Closing(rd), Holes(holes.outer[..|rd.stack| - 1], holes.outer[|rd.stack| - 1]), Popped(v))
  {
    hide ClosedCode, StackCode, Base, LevelLaid, SavedAllOk, Opened;
  }

  lemma InnerInside(front: seq<byte>, r: nat, rest: seq<byte>)
    ensures r <= MAX_REGNUM ==> |front| + 2 < |front + StartBytes(r) + rest|
  {}

  lemma GroupPushed(at: seq<byte>, g: nat, frame: Frame, hole: seq<byte>, n: Node, v: Pointers)
    requires n.Group? && v.pending == -1
    requires v.begalt == |at| + |OpenAlts(frame.done, g, hole)|
    requires v.fixup == if |frame.done| == 0 then -1 else |at| + |OpenHead(frame.done, g)|
    requires v.laststart == |at| + |LevelCode(frame.done, frame.branch, g, hole)|
    ensures LevelLaid(at + LevelCode(frame.done, frame.branch, g, hole) + CodeNode(n, g + LevelGroups(frame.done, frame.branch)),
                      at, g, frame.done, frame.branch + [n], hole, v)
  {
    hide CodeBranch, OpenHead, OpenAlts, GroupsAlts, GroupsBranch, CodeNode;
    var h := g + GroupsAlts(frame.done);
    CodeBranchSnoc(frame.branch, n, h);
    assert (frame.branch + [n])[..|frame.branch|] == frame.branch;
    assert at + LevelCode(frame.done, frame.branch, g, hole) + CodeNode(n, h + GroupsBranch(frame.branch)) ==
           at + (OpenAlts(frame.done, g, hole) + (CodeBranch(frame.branch, h) + CodeNode(n, h + GroupsBranch(frame.branch))));
  }

  /** The end of the pattern: all jumps are stored and the buffer holds the code of the whole expression. */
  lemma LaidAll(code: seq<byte>, rd: Reader, holes: Holes, v: Pointers)
    requires Laid(code, rd, holes, v) && |rd.stack| == 0
    requires |rd.done| > 0 ==> holes.inner == Op1(JUMP_PAST_ALT, |CodeBranch(rd.branch, GroupsAlts(rd.done))|)
    ensures code == CodeAlts(rd.done + [Branch(rd.branch)], 0)
  {
    hide CodeAlts, CodeBranch, Op1;
    FilledIs(rd.done, rd.branch, 0);
  }
}
