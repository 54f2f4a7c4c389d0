/** The reader takes what is written for what was meant: expressions of the user's notation and the strings of the
    expression that `regex_compile` reads. */
module NotationRead {
  import opened Bytes
  import opened Regex
  import opened Reading
  import opened Notation
  import opened Wrappers

  /** `text` stands at `p`. */
  predicate Stands(pattern: seq<byte>, p: nat, text: seq<byte>) {
    p + |text| <= |pattern| && pattern[p..p + |text|] == text
  }

  lemma StandsAt(pattern: seq<byte>, p: nat, text: seq<byte>, k: nat)
    requires Stands(pattern, p, text) && k < |text|
    ensures pattern[p + k] == text[k]
  {
    assert pattern[p..p + |text|][k] == pattern[p + k];
  }

  lemma StandsIn(pattern: seq<byte>, p: nat, text: seq<byte>)
    requires Stands(pattern, p, text)
    ensures p + |text| <= |pattern|
  {}

  lemma StandBoth(pattern: seq<byte>, p: nat, a: seq<byte>, b: seq<byte>)
    ensures Stands(pattern, p, a + b) <==> Stands(pattern, p, a) && Stands(pattern, p + |a|, b)
  {
    if Stands(pattern, p, a + b) {
      assert pattern[p..p + |a|] == (a + b)[..|a|] == a;
      assert pattern[p + |a|..p + |a| + |b|] == (a + b)[|a|..] == b;
    }
    if Stands(pattern, p, a) && Stands(pattern, p + |a|, b) {
      assert pattern[p..p + |a + b|] == pattern[p..p + |a|] + pattern[p + |a|..p + |a| + |b|];
    }
  }

  // ---- intervals ----

  lemma {:induction false} DecNumber(m: nat)
    ensures |Dec(m)| > 0 && Number(Dec(m)) == m && forall k :: 0 <= k < |Dec(m)| ==> IsDigit(Dec(m)[k])
  {
    var front := if m < 10 then [] else Dec(m / 10);
    assert Dec(m)[..|front|] == front;
    if m >= 10 {
      DecNumber(m / 10);
    }
    assert Number(front) == m / 10;
  }

  lemma {:induction false} DigitsRead(pattern: seq<byte>, p: nat, digits: seq<byte>)
    requires Stands(pattern, p, digits) && (forall k :: 0 <= k < |digits| ==> IsDigit(digits[k])) && !IsDigit(Peek(pattern, p + |digits|))
    ensures ReadDigits(pattern, p) == digits
    decreases |digits|
  {
    if |digits| > 0 {
      StandsAt(pattern, p, digits, 0);
      assert digits == [digits[0]] + digits[1..];
      StandBoth(pattern, p, [digits[0]], digits[1..]);
      DigitsRead(pattern, p + 1, digits[1..]);
    }
  }

  lemma NoDigits()
    ensures !IsDigit(COMMA) && !IsDigit(RBRACE)
  {}

  predicate IsInterval(p: Post) { p.Exactly? || p.AtLeast? || p.Between? }

  function LowerDigits(p: Post): seq<byte>
    requires IsInterval(p)
  {
    Dec(p.m)
  }

  function UpperDigits(p: Post): UpperBound
    requires IsInterval(p)
  {
    match p
    case Exactly(_) => Same
    case AtLeast(_) => Unlimited
    case Between(_, n) => AtMost(Dec(n))
  }

  lemma BoundsAllow(p: Post, n: Node, k: nat)
    requires IsInterval(p)
    ensures var node := Interval(n, LowerDigits(p), UpperDigits(p)); LowerOf(node) <= k <= UpperOf(node) <==> Allows(p, k)
    ensures BoundsOk(LowerDigits(p), UpperDigits(p)) <==> PostFits(p)
  {
    hide Number;
    DecNumber(p.m);
    if p.Between? {
      DecNumber(p.n);
    }
  }

  /** The text of an interval in pieces: brace, digits, the rest up to the closing brace. */
  function UpperWritten(p: Post): seq<byte>
    requires IsInterval(p)
  {
    match p
    case Exactly(_) => [Ascii('}')]
    case AtLeast(_) => [Ascii(','), Ascii('}')]
    case Between(_, n) => [Ascii(',')] + Dec(n) + [Ascii('}')]
  }

  lemma Grouped(a: seq<byte>, b: seq<byte>, c: seq<byte>, d: seq<byte>, e: seq<byte>)
    ensures a + b + c + d + e == a + (b + (c + d + e)) && a + (b + c) == a + b + c
  {}

  lemma PostParts(post: Post)
    requires IsInterval(post)
    ensures PostWritten(post) == [LBRACE] + (Dec(post.m) + UpperWritten(post))
  {
    hide Dec;
    match post
    case Exactly(m) => Grouped([LBRACE], Dec(m), [RBRACE], [], []);
    case AtLeast(m) => Grouped([LBRACE], Dec(m), [COMMA, RBRACE], [], []);
    case Between(m, n) => Grouped([LBRACE], Dec(m), [COMMA], Dec(n), [RBRACE]);
  }

  lemma IntervalParts(pattern: seq<byte>, p: nat, post: Post)
    requires IsInterval(post) && Stands(pattern, p, PostWritten(post))
    ensures |PostWritten(post)| == 1 + |Dec(post.m)| + |UpperWritten(post)|
    ensures p < |pattern| && pattern[p] == LBRACE
    ensures Stands(pattern, p + 1, Dec(post.m)) && Stands(pattern, p + 1 + |Dec(post.m)|, UpperWritten(post))
  {
    hide Dec, PostWritten, UpperWritten, Stands;
    var d, u := Dec(post.m), UpperWritten(post);
    PostParts(post);
    StandBoth(pattern, p, [LBRACE], d + u);
    StandBoth(pattern, p + 1, d, u);
    StandsAt(pattern, p, [LBRACE], 0);
    StandsIn(pattern, p, [LBRACE]);
  }

  /** Behind the digits of the lower bound. */
  lemma UpperRead(pattern: seq<byte>, q: nat, post: Post)
    requires IsInterval(post) && Stands(pattern, q, UpperWritten(post))
    ensures var u := UpperWritten(post);
            && q < |pattern| && q + |u| <= |pattern| && pattern[q] == u[0] && pattern[q + |u| - 1] == RBRACE
            && (post.Exactly? ==> |u| == 1)
            && (!post.Exactly? ==>
                  var upper := ReadDigits(pattern, q + 1);
                  u[0] == COMMA && upper == (if post.AtLeast? then [] else Dec(post.n)) && |u| == 2 + |upper|)
  {
    hide Dec, Number, ReadDigits;
    var u := UpperWritten(post);
    StandsAt(pattern, q, u, 0);
    StandsAt(pattern, q, u, |u| - 1);
    if post.AtLeast? {
      DigitsRead(pattern, q + 1, []);
    } else if post.Between? {
      DecNumber(post.n);
      assert u == [COMMA] + (Dec(post.n) + [RBRACE]);
      StandBoth(pattern, q, [COMMA], Dec(post.n) + [RBRACE]);
      StandBoth(pattern, q + 1, Dec(post.n), [RBRACE]);
      DigitsRead(pattern, q + 1, Dec(post.n));
    }
  }

  lemma NoComma(pattern: seq<byte>, p: nat, d: seq<byte>)
    requires p <= |pattern| && ReadDigits(pattern, p) == d && |d| > 0 && p + |d| < |pattern| && pattern[p + |d|] == RBRACE
    ensures ReadBraces(pattern, p) == if BoundsOk(d, Same) then Some(Braces(d, Same, p + |d| + 1)) else None
  {
    hide ReadDigits, BoundsOk;
  }

  lemma WithComma(pattern: seq<byte>, p: nat, d: seq<byte>, n: seq<byte>)
    requires p <= |pattern| && ReadDigits(pattern, p) == d && |d| > 0 && p + |d| + 1 + |n| < |pattern| && pattern[p + |d|] == COMMA
    requires ReadDigits(pattern, p + |d| + 1) == n && pattern[p + |d| + 1 + |n|] == RBRACE
    ensures var upper := if |n| == 0 then Unlimited else AtMost(n);
            ReadBraces(pattern, p) == if BoundsOk(d, upper) then Some(Braces(d, upper, p + |d| + |n| + 2)) else None
  {
    hide ReadDigits, BoundsOk;
  }

  /** An interval is read with the bounds that were written; one whose bounds are wrong is not an interval. */
  lemma BracesRead(pattern: seq<byte>, p: nat, post: Post)
    requires IsInterval(post) && Stands(pattern, p, PostWritten(post))
    ensures p < |pattern| && pattern[p] == LBRACE
    ensures ReadBraces(pattern, p + 1) ==
            if PostFits(post) then Some(Braces(LowerDigits(post), UpperDigits(post), p + |PostWritten(post)|)) else None
  {
    hide Dec, Number, BoundsOk, ReadDigits, PostWritten, Stands, PostFits, IsDigit, ReadBraces;
    IntervalParts(pattern, p, post);
    var d := Dec(post.m);
    DecNumber(post.m);
    NoDigits();
    UpperRead(pattern, p + 1 + |d|, post);
    DigitsRead(pattern, p + 1, d);
    BoundsAllow(post, Skipped([]), 0);
    match post
    case Exactly(_) => NoComma(pattern, p + 1, d);
    case AtLeast(_) => WithComma(pattern, p + 1, d, []);
    case Between(_, n) =>
      DecNumber(n);
      WithComma(pattern, p + 1, d, Dec(n));
  }

  // ---- runs of operators ----

  predicate IsRun(p: Post) { p.Many? || p.Most? || p.Maybe? }

  function OpFor(p: Post): RepeatOp { if p.Many? then Star else if p.Most? then Plus else Quest }

  /** The operators at the front of `ps`, up to an interval. */
  function Run(ps: seq<Post>): (ops: seq<RepeatOp>)
    ensures |ops| <= |ps|
  {
    if |ps| == 0 || !IsRun(ps[0]) then [] else [OpFor(ps[0])] + Run(ps[1..])
  }

  lemma {:induction false} RunRead(pattern: seq<byte>, p: nat, ps: seq<Post>)
    requires Stands(pattern, p, PostsWritten(ps)) && !IsOp(Peek(pattern, p + |PostsWritten(ps)|))
    ensures var ops := Run(ps);
            && ReadOps(pattern, p) == ops && |PostsWritten(ps)| == |ops| + |PostsWritten(ps[|ops|..])|
            && Stands(pattern, p + |ops|, PostsWritten(ps[|ops|..]))
    decreases |ps|
  {
    hide PostWritten, Stands;
    if |ps| > 0 {
      StandBoth(pattern, p, PostWritten(ps[0]), PostsWritten(ps[1..]));
      FirstOfPost(pattern, p, ps[0]);
      if IsRun(ps[0]) {
        RunRead(pattern, p + 1, ps[1..]);
        var rest := Run(ps[1..]);
        assert ps[1..][|rest|..] == ps[|rest| + 1..];
      } else {
        assert ps[0..] == ps;
      }
    } else {
      assert ps[0..] == ps && PostsWritten(ps) == [];
      StandsIn(pattern, p, []);
    }
  }

  lemma FirstOfPost(pattern: seq<byte>, p: nat, post: Post)
    requires Stands(pattern, p, PostWritten(post))
    ensures p < |pattern|
    ensures IsRun(post) ==> |PostWritten(post)| == 1 && IsOp(pattern[p]) && OpOf(pattern[p]) == OpFor(post)
    ensures !IsRun(post) ==> pattern[p] == LBRACE
  {
    if IsRun(post) {
      StandsAt(pattern, p, PostWritten(post), 0);
    } else {
      IntervalParts(pattern, p, post);
    }
  }

  // ---- what operators and intervals mean ----

  /** A node with the strings of an operand and what stands behind it. */
  ghost predicate Means(n: Node, a: Atom, ps: seq<Post>) {
    forall t, i, j :: Lang(n, t, i, j) <==> PostsHave(a, ps, t, i, j)
  }

  lemma {:induction false} HaveBounds(a: Atom, ps: seq<Post>, t: seq<byte>, i: int, j: int)
    requires PostsHave(a, ps, t, i, j)
    ensures 0 <= i <= j <= |t|
    decreases |ps|, 0
  {
    if |ps| > 0 {
      var init, last := ps[..|ps| - 1], ps[|ps| - 1];
      var k: nat :| Allows(last, k) && Copies(a, init, k, t, i, j);
      CopiesBounds(a, init, k, t, i, j);
    }
  }

  lemma {:induction false} CopiesBounds(a: Atom, ps: seq<Post>, k: nat, t: seq<byte>, i: int, j: int)
    requires Copies(a, ps, k, t, i, j)
    ensures 0 <= i <= j <= |t|
    decreases |ps|, k + 1
  {
    if k > 0 {
      var m :| PostsHave(a, ps, t, i, m) && Copies(a, ps, k - 1, t, m, j);
      HaveBounds(a, ps, t, i, m);
      CopiesBounds(a, ps, k - 1, t, m, j);
    }
  }

  function PostsFor(ops: seq<RepeatOp>): (ps: seq<Post>)
    ensures |ps| == |ops|
  {
    if |ops| == 0 then []
    else PostsFor(ops[..|ops| - 1]) + [match ops[|ops| - 1] case Star => Many case Plus => Most case Quest => Maybe]
  }

  lemma {:induction false} OpsMean(n: Node, a: Atom, done: seq<Post>, ops: seq<RepeatOp>, t: seq<byte>, i: int, j: int)
    requires Means(n, a, done)
    ensures LangOps(n, ops, t, i, j) <==> PostsHave(a, done + PostsFor(ops), t, i, j)
    decreases |ops|, 0
  {
    if |ops| == 0 {
      assert done + PostsFor(ops) == done;
    } else {
      var rest, op := ops[..|ops| - 1], ops[|ops| - 1];
      var init := done + PostsFor(rest);
      assert ops == rest + [op];
      if op == Quest {
        assert done + PostsFor(ops) == init + [Maybe];
        MaybeMeans(a, init, t, i, j);
        OpsMean(n, a, done, rest, t, i, j);
      } else {
        var last := if op == Star then Many else Most;
        var all := done + PostsFor(ops);
        assert all == init + [last] && all[..|all| - 1] == init;
        forall k: nat
          ensures Power(n, rest, k, t, i, j) <==> Copies(a, init, k, t, i, j)
        {
          CopiesMean(n, a, done, rest, k, t, i, j);
        }
        LoopMeans(n, a, ops, all, t, i, j);
      }
    }
  }

  lemma LoopCount(n: Node, ops: seq<RepeatOp>, t: seq<byte>, i: int, j: int) returns (k: nat)
    requires |ops| > 0 && ops[|ops| - 1] != Quest && LangOps(n, ops, t, i, j)
    ensures (ops[|ops| - 1] == Plus ==> k >= 1) && Power(n, ops[..|ops| - 1], k, t, i, j)
  {
    var rest := ops[..|ops| - 1];
    match ops[|ops| - 1]
    case Star => k :| Power(n, rest, k, t, i, j);
    case Plus => k :| k >= 1 && Power(n, rest, k, t, i, j);
  }

  lemma LoopMeans(n: Node, a: Atom, ops: seq<RepeatOp>, all: seq<Post>, t: seq<byte>, i: int, j: int)
    requires |ops| > 0 && |all| > 0 && ops[|ops| - 1] != Quest && all[|all| - 1] == (if ops[|ops| - 1] == Star then Many else Most)
    requires var rest, init := ops[..|ops| - 1], all[..|all| - 1]; forall k: nat :: Power(n, rest, k, t, i, j) <==> Copies(a, init, k, t, i, j)
    ensures LangOps(n, ops, t, i, j) <==> PostsHave(a, all, t, i, j)
  {
    var rest, init, last := ops[..|ops| - 1], all[..|all| - 1], all[|all| - 1];
    if LangOps(n, ops, t, i, j) {
      var k := LoopCount(n, ops, t, i, j);
      assert Allows(last, k) && Copies(a, init, k, t, i, j);
    }
    if PostsHave(a, all, t, i, j) {
      var k: nat :| Allows(last, k) && Copies(a, init, k, t, i, j);
      assert Power(n, rest, k, t, i, j);
    }
  }

  lemma FirstCopy(a: Atom, ps: seq<Post>, k: nat, t: seq<byte>, i: int, j: int) returns (m: int)
    requires k > 0 && Copies(a, ps, k, t, i, j)
    ensures PostsHave(a, ps, t, i, m) && Copies(a, ps, k - 1, t, m, j)
  {
    m :| PostsHave(a, ps, t, i, m) && Copies(a, ps, k - 1, t, m, j);
  }

  lemma OneCopy(a: Atom, ps: seq<Post>, t: seq<byte>, i: int, j: int)
    ensures Copies(a, ps, 1, t, i, j) <==> PostsHave(a, ps, t, i, j)
  {
    if Copies(a, ps, 1, t, i, j) {
      var m := FirstCopy(a, ps, 1, t, i, j);
    }
    if PostsHave(a, ps, t, i, j) {
      HaveBounds(a, ps, t, i, j);
      assert Copies(a, ps, 0, t, j, j);
    }
  }

  lemma MaybeMeans(a: Atom, ps: seq<Post>, t: seq<byte>, i: int, j: int)
    ensures PostsHave(a, ps + [Maybe], t, i, j) <==> 0 <= i == j <= |t| || PostsHave(a, ps, t, i, j)
  {
    var all := ps + [Maybe];
    assert all[..|all| - 1] == ps;
    OneCopy(a, ps, t, i, j);
    assert Copies(a, ps, 0, t, i, j) <==> 0 <= i == j <= |t|;
    assert Allows(Maybe, 0) && Allows(Maybe, 1);
    if PostsHave(a, all, t, i, j) {
      var k: nat :| Allows(Maybe, k) && Copies(a, ps, k, t, i, j);
      assert k == 0 || k == 1;
    }
  }

  lemma {:induction false} CopiesMean(n: Node, a: Atom, done: seq<Post>, ops: seq<RepeatOp>, k: nat, t: seq<byte>, i: int, j: int)
    requires Means(n, a, done)
    ensures Power(n, ops, k, t, i, j) <==> Copies(a, done + PostsFor(ops), k, t, i, j)
    decreases |ops|, k + 1
  {
    if k > 0 {
      forall m
        ensures LangOps(n, ops, t, i, m) <==> PostsHave(a, done + PostsFor(ops), t, i, m)
        ensures Power(n, ops, k - 1, t, m, j) <==> Copies(a, done + PostsFor(ops), k - 1, t, m, j)
      {
        OpsMean(n, a, done, ops, t, i, m);
        CopiesMean(n, a, done, ops, k - 1, t, m, j);
      }
    }
  }

  lemma RunMeans(n: Node, a: Atom, done: seq<Post>, ops: seq<RepeatOp>)
    requires Means(n, a, done)
    ensures Means(Repeat(n, ops), a, done + PostsFor(ops))
  {
    hide PostsFor;
    forall t, i, j
      ensures Lang(Repeat(n, ops), t, i, j) <==> PostsHave(a, done + PostsFor(ops), t, i, j)
    {
      OpsMean(n, a, done, ops, t, i, j);
      if PostsHave(a, done + PostsFor(ops), t, i, j) {
        HaveBounds(a, done + PostsFor(ops), t, i, j);
      }
    }
  }

  lemma IntervalMeans(n: Node, a: Atom, done: seq<Post>, post: Post)
    requires Means(n, a, done) && IsInterval(post)
    ensures Means(Interval(n, LowerDigits(post), UpperDigits(post)), a, done + [post])
  {
    hide Dec, Number, LowerOf, UpperOf, Allows;
    var node, all := Interval(n, LowerDigits(post), UpperDigits(post)), done + [post];
    assert all[..|all| - 1] == done;
    forall t, i, j
      ensures Lang(node, t, i, j) <==> PostsHave(a, all, t, i, j)
    {
      forall k: nat
        ensures LowerOf(node) <= k <= UpperOf(node) <==> Allows(post, k)
        ensures Power(n, [], k, t, i, j) <==> Copies(a, done, k, t, i, j)
      {
        BoundsAllow(post, n, k);
        CopiesMean(n, a, done, [], k, t, i, j);
        assert done + PostsFor([]) == done;
      }
      if PostsHave(a, all, t, i, j) {
        HaveBounds(a, all, t, i, j);
      }
    }
  }

  // ---- everything behind an operand ----

  lemma {:induction false} RunPosts(ps: seq<Post>, k: nat)
    requires k <= |Run(ps)|
    ensures PostsFor(Run(ps)[..k]) == ps[..k]
    decreases k
  {
    if k > 0 {
      RunPosts(ps, k - 1);
      var ops := Run(ps)[..k];
      assert ops[..|ops| - 1] == Run(ps)[..k - 1];
      RunAt(ps, k - 1);
      assert ps[..k] == ps[..k - 1] + [ps[k - 1]];
    }
  }

  lemma {:induction false} RunAt(ps: seq<Post>, k: nat)
    requires k < |Run(ps)|
    ensures IsRun(ps[k]) && Run(ps)[k] == OpFor(ps[k])
  {
    if k > 0 {
      RunAt(ps[1..], k - 1);
    }
  }

  /** One turn of the reader. */
  lemma Turn(pattern: seq<byte>, p: nat, rd: Reader, rd': Reader, p': nat)
    requires p < |pattern| && ReadNext(pattern, p, rd) == Go(rd', p')
    ensures p < p' <= |pattern| && ReadFrom(pattern, p, rd) == ReadFrom(pattern, p', rd')
  {
    hide ReadNext;
  }

  lemma RunTurn(pattern: seq<byte>, p: nat, rd: Reader, n: Node)
    requires p < |pattern| && IsOp(pattern[p]) && !n.Skipped?
    ensures var ops := ReadOps(pattern, p);
            p + |ops| <= |pattern| && ReadFrom(pattern, p, Push(rd, n)) == ReadFrom(pattern, p + |ops|, Push(rd, Repeat(n, ops)))
  {
    hide ReadFrom;
    var ops, full := ReadOps(pattern, p), Push(rd, n);
    assert full.branch[..|full.branch| - 1] == rd.branch;
    Turn(pattern, p, full, Push(rd, Repeat(n, ops)), p + |ops|);
  }

  lemma BracesTurn(pattern: seq<byte>, p: nat, rd: Reader, n: Node)
    requires p < |pattern| && pattern[p] == LBRACE && ReadBraces(pattern, p + 1).Some? && !n.Skipped?
    ensures var b := ReadBraces(pattern, p + 1).value;
            ReadFrom(pattern, p, Push(rd, n)) == ReadFrom(pattern, b.p, Push(rd, Interval(n, b.lower, b.upper)))
  {
    hide ReadFrom, ReadBraces;
    var b, full := ReadBraces(pattern, p + 1).value, Push(rd, n);
    assert full.branch[..|full.branch| - 1] == rd.branch;
    Turn(pattern, p, full, Push(rd, Interval(n, b.lower, b.upper)), b.p);
  }

  predicate AllFitting(ps: seq<Post>) {
    forall k :: 0 <= k < |ps| ==> PostFits(ps[k])
  }

  lemma NoPosts(ps: seq<Post>)
    requires |ps| == 0
    ensures PostsWritten(ps) == []
  {}

  /** A whole run of operators, or one interval. */
  lemma PostStep(pattern: seq<byte>, p: nat, rd: Reader, n: Node, a: Atom, done: seq<Post>, ps: seq<Post>) returns (next: Node, k: nat, q: nat)
    requires Stands(pattern, p, PostsWritten(ps)) && AllFitting(ps) && !IsOp(Peek(pattern, p + |PostsWritten(ps)|)) && |ps| > 0
    requires Means(n, a, done) && !n.Skipped?
    ensures !next.Skipped? && 0 < k <= |ps| && Means(next, a, done + ps[..k])
    ensures Stands(pattern, q, PostsWritten(ps[k..])) && q + |PostsWritten(ps[k..])| == p + |PostsWritten(ps)|
    ensures p <= |pattern| && q <= |pattern| && ReadFrom(pattern, p, Push(rd, n)) == ReadFrom(pattern, q, Push(rd, next))
  {
    hide ReadFrom, Means, PostWritten, PostsWritten, Stands, ReadOps, ReadBraces, PostFits, Push, Dec, LowerDigits, UpperDigits, IsOp;
    FirstPost(pattern, p, ps);
    if IsRun(ps[0]) {
      RunRead(pattern, p, ps);
      var ops := Run(ps);
      RunTurn(pattern, p, rd, n);
      RunMeans(n, a, done, ops);
      RunPosts(ps, |ops|);
      assert ops[..|ops|] == ops && |ops| > 0;
      next, k, q := Repeat(n, ops), |ops|, p + |ops|;
    } else {
      BracesRead(pattern, p, ps[0]);
      BracesTurn(pattern, p, rd, n);
      IntervalMeans(n, a, done, ps[0]);
      next, k, q := Interval(n, LowerDigits(ps[0]), UpperDigits(ps[0])), 1, p + |PostWritten(ps[0])|;
      assert ps[..1] == [ps[0]];
    }
  }

  lemma {:induction false} PostsRead(pattern: seq<byte>, p: nat, rd: Reader, n: Node, a: Atom, done: seq<Post>, ps: seq<Post>) returns (last: Node)
    requires Stands(pattern, p, PostsWritten(ps)) && AllFitting(ps) && !IsOp(Peek(pattern, p + |PostsWritten(ps)|))
    requires Means(n, a, done) && !n.Skipped?
    ensures !last.Skipped? && Means(last, a, done + ps) && (ps == [] ==> last == n)
    ensures var e := p + |PostsWritten(ps)|; e <= |pattern| && ReadFrom(pattern, p, Push(rd, n)) == ReadFrom(pattern, e, Push(rd, last))
    decreases |ps|
  {
    hide ReadFrom, Means, PostsWritten, Stands, PostFits, Push, IsOp;
    if |ps| == 0 {
      assert done + ps == done;
      NoPosts(ps);
      StandsIn(pattern, p, []);
      last := n;
    } else {
      var next, k, q := PostStep(pattern, p, rd, n, a, done, ps);
      last := PostsRead(pattern, q, rd, next, a, done + ps[..k], ps[k..]);
      assert done + ps[..k] + ps[k..] == done + ps;
      StandsIn(pattern, q, PostsWritten(ps[k..]));
    }
  }

  lemma FirstPost(pattern: seq<byte>, p: nat, ps: seq<Post>)
    requires |ps| > 0 && Stands(pattern, p, PostsWritten(ps))
    ensures Stands(pattern, p, PostWritten(ps[0])) && Stands(pattern, p + |PostWritten(ps[0])|, PostsWritten(ps[1..]))
    ensures PostsWritten(ps) == PostWritten(ps[0]) + PostsWritten(ps[1..])
    ensures p < |pattern| && (IsRun(ps[0]) <==> IsOp(pattern[p])) && (!IsRun(ps[0]) <==> pattern[p] == LBRACE)
  {
    hide PostWritten, Stands;
    StandBoth(pattern, p, PostWritten(ps[0]), PostsWritten(ps[1..]));
    FirstOfPost(pattern, p, ps[0]);
  }

  // ---- lists in brackets ----

  function ItemOf(p: Part): SetItem {
    match p
    case Single(c) => One(c)
    case Span(lo, hi) => Range(lo, hi)
    case InName(name) => Class(name)
  }

  function ItemsOf(ps: seq<Part>): (items: seq<SetItem>)
    ensures |items| == |ps| && forall k :: 0 <= k < |ps| ==> items[k] == ItemOf(ps[k])
  {
    if |ps| == 0 then [] else [ItemOf(ps[0])] + ItemsOf(ps[1..])
  }

  /** What stands behind the parts of a list. */
  function ListEnd(hyphen: bool): seq<byte> {
    (if hyphen then [Ascii('-')] else []) + [Ascii(']')]
  }

  lemma SmallLetters(name: seq<byte>, s: string)
    requires Named(name, s) && forall k :: 0 <= k < |s| ==> 'a' <= s[k] <= 'z'
    ensures |name| == |s| && forall k :: 0 <= k < |name| ==> name[k] != COLON && name[k] != RBRACKET
  {}

  lemma NameLetters(name: seq<byte>)
    requires IsCharClass(name)
    ensures |name| <= CLASS_MAX && forall k :: 0 <= k < |name| ==> name[k] != COLON && name[k] != RBRACKET
  {
    hide Named;
    if Named(name, "alpha") { SmallLetters(name, "alpha"); }
    else if Named(name, "upper") { SmallLetters(name, "upper"); }
    else if Named(name, "lower") { SmallLetters(name, "lower"); }
    else if Named(name, "digit") { SmallLetters(name, "digit"); }
    else if Named(name, "alnum") { SmallLetters(name, "alnum"); }
    else if Named(name, "xdigit") { SmallLetters(name, "xdigit"); }
    else if Named(name, "space") { SmallLetters(name, "space"); }
    else if Named(name, "print") { SmallLetters(name, "print"); }
    else if Named(name, "punct") { SmallLetters(name, "punct"); }
    else if Named(name, "graph") { SmallLetters(name, "graph"); }
    else if Named(name, "cntrl") { SmallLetters(name, "cntrl"); }
    else { SmallLetters(name, "blank"); }
  }

  lemma {:induction false} NameRead(pattern: seq<byte>, p: nat, name: seq<byte>, room: nat)
    requires Stands(pattern, p, name + [COLON]) && p + |name| + 1 < |pattern| && |name| <= room
    requires forall k :: 0 <= k < |name| ==> name[k] != COLON && name[k] != RBRACKET
    ensures ClassName(pattern, p, room) == name
    decreases |name|
  {
    StandsAt(pattern, p, name + [COLON], 0);
    if |name| > 0 {
      assert name + [COLON] == [name[0]] + (name[1..] + [COLON]);
      StandBoth(pattern, p, [name[0]], name[1..] + [COLON]);
      NameRead(pattern, p + 1, name[1..], room - 1);
    }
  }

  /** A class in a list that goes on behind it. */
  lemma ClassRead(pattern: seq<byte>, p: nat, name: seq<byte>)
    requires IsCharClass(name) && Stands(pattern, p, PartWritten(InName(name))) && p + |name| + 4 < |pattern|
    ensures pattern[p] == LBRACKET && pattern[p + 1] == COLON && ReadClass(pattern, p + 2) == ClassAt(name, p + |name| + 4)
  {
    hide IsCharClass, Stands, ClassName;
    var text := PartWritten(InName(name));
    assert text == [LBRACKET, COLON] + (name + [COLON] + [RBRACKET]);
    StandsAt(pattern, p, text, 0);
    StandsAt(pattern, p, text, 1);
    StandsAt(pattern, p, text, |name| + 2);
    StandsAt(pattern, p, text, |name| + 3);
    StandBoth(pattern, p, [LBRACKET, COLON], name + [COLON] + [RBRACKET]);
    StandBoth(pattern, p + 2, name + [COLON], [RBRACKET]);
    NameLetters(name);
    NameRead(pattern, p + 2, name, CLASS_MAX);
  }

  /** One part; `had` says whether a class counts as the last thing before it. */
  lemma PartRead(pattern: seq<byte>, p: nat, part: Part, had: bool) returns (had': bool)
    requires Stands(pattern, p, PartWritten(part)) && p + |PartWritten(part)| < |pattern|
    requires PartFits(part) || part == Single(RBRACKET)
    requires part.Single? ==> (pattern[p + 1] == MINUS ==> Peek(pattern, p + 2) == RBRACKET)
    requires part == Single(LBRACKET) ==> pattern[p + 1] != COLON
    ensures p < |pattern| && pattern[p] == FirstOf(part)
    ensures NextItems(pattern, p, had) == ItemsRead([ItemOf(part)], p + |PartWritten(part)|, had')
  {
    hide IsCharClass, Stands, ReadClass;
    StandsAt(pattern, p, PartWritten(part), 0);
    match part
    case Single(c) =>
      had' := false;
    case Span(lo, hi) =>
      StandsAt(pattern, p, PartWritten(part), 1);
      StandsAt(pattern, p, PartWritten(part), 2);
      had' := had;
    case InName(name) =>
      ClassRead(pattern, p, name);
      had' := true;
  }

  /** The first character behind some parts. */
  lemma NextInList(pattern: seq<byte>, q: nat, ps: seq<Part>, hyphen: bool)
    requires Stands(pattern, q, PartsWritten(ps) + ListEnd(hyphen))
    ensures q < |pattern| && pattern[q] == (if |ps| > 0 then FirstOf(ps[0]) else if hyphen then MINUS else RBRACKET)
    ensures |ps| == 0 && hyphen ==> Peek(pattern, q + 1) == RBRACKET
  {
    hide Stands, PartWritten;
    var text := PartsWritten(ps) + ListEnd(hyphen);
    if |ps| > 0 {
      PartStarts(ps[0]);
      assert text[0] == PartWritten(ps[0])[0];
    } else {
      assert text == ListEnd(hyphen);
      if hyphen {
        StandsAt(pattern, q, text, 1);
      }
    }
    StandsAt(pattern, q, text, 0);
    StandsIn(pattern, q, text);
  }

  lemma PartStarts(p: Part)
    ensures |PartWritten(p)| > 0 && PartWritten(p)[0] == FirstOf(p)
  {}

  /** The parts that may stand at `p`, where a list that starts at `first` goes on. */
  predicate PartsFit(ps: seq<Part>, leading: bool) {
    && (forall k :: 0 <= k < |ps| ==> PartFits(ps[k]) || (leading && k == 0 && ps[k] == Single(RBRACKET)))
    && (forall k :: 0 <= k < |ps| - 1 ==> ps[k] == Single(LBRACKET) ==> FirstOf(ps[k + 1]) != COLON)
  }

  lemma {:induction false} PartsRead(pattern: seq<byte>, first: nat, p: nat, items: seq<SetItem>, had: bool, ps: seq<Part>, hyphen: bool)
    requires first <= p && Stands(pattern, p, PartsWritten(ps) + ListEnd(hyphen)) && PartsFit(ps, p == first)
    requires |ps| == 0 && !hyphen ==> p > first
    ensures ReadItems(pattern, first, p, items, had) ==
            Items(items + ItemsOf(ps) + (if hyphen then [One(MINUS)] else []), p + |PartsWritten(ps)| + |ListEnd(hyphen)|)
    decreases |ps|
  {
    hide Stands, NextItems, PartWritten, PartFits, ReadItems;
    NextInList(pattern, p, ps, hyphen);
    if |ps| == 0 {
      assert PartsWritten(ps) + ListEnd(hyphen) == ListEnd(hyphen);
      EndRead(pattern, first, p, items, had, hyphen);
      assert items + ItemsOf(ps) == items;
    } else {
      var q := p + |PartWritten(ps[0])|;
      assert PartsWritten(ps) + ListEnd(hyphen) == PartWritten(ps[0]) + (PartsWritten(ps[1..]) + ListEnd(hyphen));
      StandBoth(pattern, p, PartWritten(ps[0]), PartsWritten(ps[1..]) + ListEnd(hyphen));
      var had' := PartTurn(pattern, first, p, items, had, ps, hyphen);
      assert PartsFit(ps[1..], false);
      PartsRead(pattern, first, q, items + [ItemOf(ps[0])], had', ps[1..], hyphen);
      assert items + [ItemOf(ps[0])] + ItemsOf(ps[1..]) == items + ItemsOf(ps);
    }
  }

  lemma PartTurn(pattern: seq<byte>, first: nat, p: nat, items: seq<SetItem>, had: bool, ps: seq<Part>, hyphen: bool) returns (had': bool)
    requires first <= p && |ps| > 0 && Stands(pattern, p, PartWritten(ps[0])) && PartsFit(ps, p == first)
    requires Stands(pattern, p + |PartWritten(ps[0])|, PartsWritten(ps[1..]) + ListEnd(hyphen))
    ensures |PartWritten(ps[0])| > 0
    ensures ReadItems(pattern, first, p, items, had) == ReadItems(pattern, first, p + |PartWritten(ps[0])|, items + [ItemOf(ps[0])], had')
  {
    hide Stands, NextItems, PartsWritten, ListEnd, IsCharClass;
    var q := p + |PartWritten(ps[0])|;
    NextInList(pattern, q, ps[1..], hyphen);
    assert |ps| > 1 ==> PartFits(ps[1]) && ps[1..][0] == ps[1];
    had' := PartRead(pattern, p, ps[0], had);
  }

  /** A last hyphen and the closing bracket. */
  lemma EndRead(pattern: seq<byte>, first: nat, p: nat, items: seq<SetItem>, had: bool, hyphen: bool)
    requires first <= p && Stands(pattern, p, ListEnd(hyphen)) && (!hyphen ==> p > first)
    ensures ReadItems(pattern, first, p, items, had) ==
            Items(items + (if hyphen then [One(MINUS)] else []), p + |ListEnd(hyphen)|)
  {
    hide ReadClass;
    StandsAt(pattern, p, ListEnd(hyphen), 0);
    if hyphen {
      StandsAt(pattern, p, ListEnd(hyphen), 1);
      assert NextItems(pattern, p, had) == ItemsRead([One(MINUS)], p + 1, false);
      assert ReadItems(pattern, first, p + 1, items + [One(MINUS)], false) == Items(items + [One(MINUS)], p + 2);
    } else {
      assert items + [] == items;
    }
  }

  /** All parts of a list, the leading bracket included. */
  function PartsOf(a: Atom): seq<Part>
    requires a.List?
  {
    (if a.close then [Single(RBRACKET)] else []) + a.parts
  }

  lemma ItemsMean(ps: seq<Part>, c: byte)
    ensures InItems(ItemsOf(ps), c) <==> exists k :: 0 <= k < |ps| && InPart(ps[k], c)
  {
    hide InClass;
    var items := ItemsOf(ps);
    assert forall k :: 0 <= k < |ps| ==> (InItem(items[k], c) <==> InPart(ps[k], c));
  }

  lemma InBoth(a: seq<SetItem>, b: seq<SetItem>, c: byte)
    ensures InItems(a + b, c) <==> InItems(a, c) || InItems(b, c)
  {
    hide InItem;
    var all := a + b;
    if k :| 0 <= k < |b| && InItem(b[k], c) {
      assert all[|a| + k] == b[k];
    }
    if k :| 0 <= k < |a| && InItem(a[k], c) {
      assert all[k] == a[k];
    }
  }

  lemma InOne(x: byte, c: byte)
    ensures InItems([One(x)], c) <==> x == c
    ensures !InItems([], c)
  {
    if x == c {
      assert InItem([One(x)][0], c);
    }
  }

  lemma ListItems(a: Atom, c: byte)
    requires a.List?
    ensures InItems(ItemsOf(PartsOf(a)) + (if a.hyphen then [One(MINUS)] else []), c) <==> InList(a, c)
  {
    hide InItems, InPart, ItemsOf;
    var ps := PartsOf(a);
    InBoth(ItemsOf(ps), if a.hyphen then [One(MINUS)] else [], c);
    InOne(MINUS, c);
    ItemsMean(ps, c);
    ItemsMean(a.parts, c);
    if a.close {
      CloseFirst(a.parts, c);
    } else {
      assert ps == a.parts;
    }
  }

  lemma CloseFirst(ps: seq<Part>, c: byte)
    ensures InItems(ItemsOf([Single(RBRACKET)] + ps), c) <==> c == RBRACKET || InItems(ItemsOf(ps), c)
  {
    hide InItems;
    var all := [Single(RBRACKET)] + ps;
    assert all[1..] == ps;
    assert ItemsOf(all) == [One(RBRACKET)] + ItemsOf(ps);
    InBoth([One(RBRACKET)], ItemsOf(ps), c);
    InOne(RBRACKET, c);
  }

  function ListNode(a: Atom): Node
    requires a.List?
  {
    CharSet(a.negated, ItemsOf(PartsOf(a)) + (if a.hyphen then [One(MINUS)] else []))
  }

  lemma SixParts(a: seq<byte>, b: seq<byte>, c: seq<byte>, d: seq<byte>, e: seq<byte>, f: seq<byte>)
    ensures a + b + c + d + e + f == a + b + ((c + d) + (e + f))
  {}

  lemma ListWritten(a: Atom)
    requires a.List?
    ensures AtomWritten(a) == [LBRACKET] + (if a.negated then [CARET] else []) + (PartsWritten(PartsOf(a)) + ListEnd(a.hyphen))
  {
    hide PartsWritten;
    var close := if a.close then [RBRACKET] else [];
    CloseWritten(a);
    SixParts([LBRACKET], if a.negated then [CARET] else [], close, PartsWritten(a.parts), if a.hyphen then [MINUS] else [], [RBRACKET]);
  }

  lemma CloseWritten(a: Atom)
    requires a.List?
    ensures PartsWritten(PartsOf(a)) == (if a.close then [RBRACKET] else []) + PartsWritten(a.parts)
  {
    var ps := PartsOf(a);
    if a.close {
      assert ps[0] == Single(RBRACKET) && ps[1..] == a.parts;
    } else {
      assert ps == a.parts;
    }
  }

  lemma ListParts(a: Atom)
    requires a.List? && ListFits(a)
    ensures var ps := PartsOf(a);
            && PartsFit(ps, true) && (|ps| == 0 ==> a.hyphen)
            && (!a.negated && |ps| > 0 ==> FirstOf(ps[0]) != CARET)
  {
    hide PartFits;
    var ps, d := PartsOf(a), if a.close then 1 else 0;
    assert forall k :: d <= k < |ps| ==> ps[k] == a.parts[k - d];
    forall k | 0 <= k < |ps| - 1 && ps[k] == Single(LBRACKET)
      ensures FirstOf(ps[k + 1]) != COLON
    {
      assert ps[k + 1] == a.parts[k + 1 - d] && ps[k] == a.parts[k - d];
    }
  }

  /** A list is read with just its characters. */
  lemma ListRead(pattern: seq<byte>, p: nat, rd: Reader, a: Atom)
    requires a.List? && ListFits(a) && Stands(pattern, p, AtomWritten(a))
    ensures p < |pattern| && pattern[p] == LBRACKET && NextBracket(pattern, p + 1, rd) == Go(Push(rd, ListNode(a)), p + |AtomWritten(a)|)
  {
    hide Stands, ListFits, PartsFit, ReadItems, AtomWritten, PartsWritten, ListEnd, ItemsOf, PartsOf, FirstOf;
    ListWritten(a);
    ListParts(a);
    var ps, neg := PartsOf(a), if a.negated then [CARET] else [];
    var rest := PartsWritten(ps) + ListEnd(a.hyphen);
    assert AtomWritten(a) == [LBRACKET] + (neg + rest);
    StandBoth(pattern, p, [LBRACKET], neg + rest);
    StandsAt(pattern, p, [LBRACKET], 0);
    StandBoth(pattern, p + 1, neg, rest);
    var first := p + 1 + |neg|;
    NextInList(pattern, first, ps, a.hyphen);
    if a.negated {
      StandsAt(pattern, p + 1, neg, 0);
    }
    PartsRead(pattern, first, first, [], false, ps, a.hyphen);
    assert [] + ItemsOf(ps) == ItemsOf(ps);
  }

  lemma ListMeans(a: Atom)
    requires a.List?
    ensures Means(ListNode(a), a, [])
  {
    hide InItems, InList, ItemsOf;
    forall t, i, j
      ensures Lang(ListNode(a), t, i, j) <==> PostsHave(a, [], t, i, j)
    {
      if 0 <= i < |t| {
        ListItems(a, t[i]);
      }
    }
  }

  // ---- operands and pieces ----

  lemma CharMeans(a: Atom, lit: Literal)
    requires (a.Char? || a.Quoted?) && lit.c == a.c
    ensures Means(Exact([lit]), a, [])
  {
    forall t, i, j
      ensures Lang(Exact([lit]), t, i, j) <==> PostsHave(a, [], t, i, j)
    {
      OneLonger(lit, t, i, j);
      assert PostsHave(a, [], t, i, j) <==> AtomHas(a, t, i, j);
    }
  }

  lemma AnyMeans()
    ensures Means(AnyChar, Any, [])
  {
    forall t, i, j
      ensures Lang(AnyChar, t, i, j) <==> PostsHave(Any, [], t, i, j)
    {}
  }

  /** The strings of a branch with a piece behind it. */
  ghost predicate After(b: seq<Node>, piece: Piece, t: seq<byte>, i: int, j: int) {
    exists m :: LangBranch(b, t, i, m) && PostsHave(piece.atom, piece.posts, t, m, j)
  }

  ghost predicate Follows(b': seq<Node>, b: seq<Node>, piece: Piece) {
    forall t, i, j :: LangBranch(b', t, i, j) <==> After(b, piece, t, i, j)
  }

  lemma BranchSnoc(b: seq<Node>, n: Node, t: seq<byte>, i: int, j: int)
    ensures LangBranch(b + [n], t, i, j) <==> exists m :: LangBranch(b, t, i, m) && Lang(n, t, m, j)
  {
    hide Lang;
    var all := b + [n];
    assert all[..|all| - 1] == b && all[|all| - 1] == n;
    if LangBranch(all, t, i, j) {
      var m := BranchLast(all, t, i, j);
    }
    if m :| LangBranch(b, t, i, m) && Lang(n, t, m, j) {
      assert LangBranch(all[..|all| - 1], t, i, m) && Lang(all[|all| - 1], t, m, j);
    }
  }

  lemma BranchLast(b: seq<Node>, t: seq<byte>, i: int, j: int) returns (m: int)
    requires |b| > 0 && LangBranch(b, t, i, j)
    ensures LangBranch(b[..|b| - 1], t, i, m) && Lang(b[|b| - 1], t, m, j)
  {
    hide Lang;
    m :| LangBranch(b[..|b| - 1], t, i, m) && Lang(b[|b| - 1], t, m, j);
  }

  lemma PushFollows(b: seq<Node>, n: Node, piece: Piece)
    requires Means(n, piece.atom, piece.posts)
    ensures Follows(b + [n], b, piece)
  {
    hide Lang, LangBranch, PostsHave;
    forall t, i, j
      ensures LangBranch(b + [n], t, i, j) <==> After(b, piece, t, i, j)
    {
      BranchSnoc(b, n, t, i, j);
      if m :| LangBranch(b, t, i, m) && Lang(n, t, m, j) {
        assert LangBranch(b, t, i, m) && PostsHave(piece.atom, piece.posts, t, m, j);
      }
      if m :| LangBranch(b, t, i, m) && PostsHave(piece.atom, piece.posts, t, m, j) {
        assert LangBranch(b, t, i, m) && Lang(n, t, m, j);
      }
    }
  }

  /** A character that joins those before it. */
  lemma JoinFollows(b: seq<Node>, lit: Literal, a: Atom)
    requires |b| > 0 && b[|b| - 1].Exact? && (a.Char? || a.Quoted?) && lit.c == a.c
    ensures Follows(b[..|b| - 1] + [Exact(b[|b| - 1].lits + [lit])], b, Piece(a, []))
  {
    hide LangBranch, PostsHave, Lang;
    var init, lits := b[..|b| - 1], b[|b| - 1].lits;
    assert b == init + [Exact(lits)];
    CharMeans(a, lit);
    forall t, i, j
      ensures LangBranch(init + [Exact(lits + [lit])], t, i, j) <==> After(b, Piece(a, []), t, i, j)
    {
      BranchSnoc(init, Exact(lits + [lit]), t, i, j);
      if m :| LangBranch(init, t, i, m) && Lang(Exact(lits + [lit]), t, m, j) {
        ExactSnoc(lits, lit, t, m, j);
        BranchSnoc(init, Exact(lits), t, i, j - 1);
        assert PostsHave(a, [], t, j - 1, j);
      }
      if m :| LangBranch(b, t, i, m) && PostsHave(a, [], t, m, j) {
        BranchSnoc(init, Exact(lits), t, i, m);
        var m' :| LangBranch(init, t, i, m') && Lang(Exact(lits), t, m', m);
        OneLonger(lit, t, m, j);
        ExactSnoc(lits, lit, t, m', j);
      }
    }
  }

  lemma OneLonger(lit: Literal, t: seq<byte>, i: int, j: int)
    ensures Lang(Exact([lit]), t, i, j) <==> 0 <= i < j == i + 1 <= |t| && t[i] == lit.c
  {
    var lits := [lit];
    if Lang(Exact(lits), t, i, j) {
      assert t[i + 0] == lits[0].c;
    }
  }

  lemma ExactSnoc(lits: seq<Literal>, lit: Literal, t: seq<byte>, i: int, j: int)
    ensures Lang(Exact(lits + [lit]), t, i, j) <==> Lang(Exact(lits), t, i, j - 1) && Lang(Exact([lit]), t, j - 1, j)
  {
    var all := lits + [lit];
    if Lang(Exact(all), t, i, j) {
      assert all[|lits|] == lit && t[i + |lits|] == lit.c;
      assert forall k :: 0 <= k < |lits| ==> all[k] == lits[k];
    }
    if Lang(Exact(lits), t, i, j - 1) && Lang(Exact([lit]), t, j - 1, j) {
      assert t[j - 1 + 0] == lit.c;
    }
  }

  /** The character is added to the expression. */
  lemma CharTurn(pattern: seq<byte>, p: nat, rd: Reader, a: Atom)
    requires (a.Char? || a.Quoted?) && AtomFits(a) && Stands(pattern, p, AtomWritten(a))
    ensures var e := p + |AtomWritten(a)|;
            e <= |pattern| && p <= |pattern| && ReadFrom(pattern, p, rd) == ReadFrom(pattern, e, AddLiteral(rd, Literal(a.c, a.Quoted?), Peek(pattern, e)))
  {
    hide ReadFrom, AddLiteral, Peek, Opened, InStack, ReadBraces, ReadOps, NextBracket;
    StandsAt(pattern, p, AtomWritten(a), 0);
    if a.Quoted? {
      StandsAt(pattern, p, AtomWritten(a), 1);
      assert !IsWordOp(a.c);
    }
    var e := p + |AtomWritten(a)|;
    Turn(pattern, p, rd, AddLiteral(rd, Literal(a.c, a.Quoted?), Peek(pattern, e)), e);
  }

  /** The reader goes on behind a piece, with the strings of the branch and the piece. */
  ghost predicate Goes(pattern: seq<byte>, p: nat, rd: Reader, e: nat, rd': Reader) {
    && p <= |pattern| && e <= |pattern| && ReadFrom(pattern, p, rd) == ReadFrom(pattern, e, rd')
    && rd'.stack == rd.stack && rd'.done == rd.done
  }

  /** An operand that stands in a node of its own, with what is behind it. */
  lemma OwnNode(pattern: seq<byte>, p: nat, q: nat, rd: Reader, n: Node, piece: Piece) returns (rd': Reader)
    requires AllFitting(piece.posts) && p <= |pattern| && q <= |pattern|
    requires Stands(pattern, q, PostsWritten(piece.posts)) && !IsOp(Peek(pattern, q + |PostsWritten(piece.posts)|))
    requires ReadFrom(pattern, p, rd) == ReadFrom(pattern, q, Push(rd, n)) && Means(n, piece.atom, []) && !n.Skipped?
    ensures Goes(pattern, p, rd, q + |PostsWritten(piece.posts)|, rd') && Follows(rd'.branch, rd.branch, piece)
  {
    hide ReadFrom, Means, Stands, PostsWritten, Follows, IsOp;
    var last := PostsRead(pattern, q, rd, n, piece.atom, [], piece.posts);
    assert [] + piece.posts == piece.posts;
    PushFollows(rd.branch, last, piece);
    rd' := Push(rd, last);
  }

  lemma CharRead(pattern: seq<byte>, p: nat, rd: Reader, piece: Piece) returns (rd': Reader)
    requires (piece.atom.Char? || piece.atom.Quoted?) && AtomFits(piece.atom) && AllFitting(piece.posts)
    requires Stands(pattern, p, PieceWritten(piece)) && !IsOp(Peek(pattern, p + |PieceWritten(piece)|))
    ensures Goes(pattern, p, rd, p + |PieceWritten(piece)|, rd') && Follows(rd'.branch, rd.branch, piece)
  {
    hide ReadFrom, Means, Stands, PostsWritten, Follows, IsOp, AtomWritten, AtomFits, Peek;
    var a := piece.atom;
    StandBoth(pattern, p, AtomWritten(a), PostsWritten(piece.posts));
    CharTurn(pattern, p, rd, a);
    var q, lit := p + |AtomWritten(a)|, Literal(a.c, a.Quoted?);
    if Joins(rd.branch, Peek(pattern, q)) {
      NoPostsJoin(pattern, q, piece.posts);
      JoinFollows(rd.branch, lit, a);
      assert piece == Piece(a, []);
      rd' := AddLiteral(rd, lit, Peek(pattern, q));
    } else {
      CharMeans(a, lit);
      rd' := OwnNode(pattern, p, q, rd, Exact([lit]), piece);
    }
  }

  /** A character with something behind it starts a new command. */
  lemma NoPostsJoin(pattern: seq<byte>, q: nat, ps: seq<Post>)
    requires Stands(pattern, q, PostsWritten(ps)) && !Separates(Peek(pattern, q))
    ensures ps == [] && PostsWritten(ps) == []
  {
    if |ps| > 0 {
      FirstPost(pattern, q, ps);
    }
  }

  // ---- alternatives ----

  /** A branch with the strings of some pieces. */
  ghost predicate Whole(b: seq<Node>, ps: seq<Piece>) {
    forall t, i, j :: LangBranch(b, t, i, j) <==> PiecesHave(ps, t, i, j)
  }

  lemma WholeSnoc(b': seq<Node>, b: seq<Node>, ps: seq<Piece>, piece: Piece)
    requires Whole(b, ps) && Follows(b', b, piece)
    ensures Whole(b', ps + [piece])
  {
    hide LangBranch, PostsHave;
    var all := ps + [piece];
    assert all[..|all| - 1] == ps && all[|all| - 1] == piece;
    forall t, i, j
      ensures LangBranch(b', t, i, j) <==> PiecesHave(all, t, i, j)
    {
      if LangBranch(b', t, i, j) {
        var m :| LangBranch(b, t, i, m) && PostsHave(piece.atom, piece.posts, t, m, j);
        assert PiecesHave(all[..|all| - 1], t, i, m);
      }
      if PiecesHave(all, t, i, j) {
        var m := PiecesLast(all, t, i, j);
        assert LangBranch(b, t, i, m) && PostsHave(piece.atom, piece.posts, t, m, j);
      }
    }
  }

  lemma PiecesLast(ps: seq<Piece>, t: seq<byte>, i: int, j: int) returns (m: int)
    requires |ps| > 0 && PiecesHave(ps, t, i, j)
    ensures PiecesHave(ps[..|ps| - 1], t, i, m) && PostsHave(ps[|ps| - 1].atom, ps[|ps| - 1].posts, t, m, j)
  {
    hide PostsHave;
    var init, last := ps[..|ps| - 1], ps[|ps| - 1];
    m :| PiecesHave(init, t, i, m) && PostsHave(last.atom, last.posts, t, m, j);
  }

  ghost predicate AltsMean(done: seq<Branch>, alts: seq<Alt>) {
    forall t, i, j :: LangAlts(done, t, i, j) <==> AltsHave(alts, t, i, j)
  }

  lemma {:induction false} LangAltsSnoc(done: seq<Branch>, b: Branch, t: seq<byte>, i: int, j: int)
    ensures LangAlts(done + [b], t, i, j) <==> LangAlts(done, t, i, j) || LangBranch(b.nodes, t, i, j)
  {
    hide LangBranch;
    var all := done + [b];
    if |done| == 0 {
      assert all == [b] && all[1..] == [];
    } else {
      LangAltsSnoc(done[1..], b, t, i, j);
      assert all[1..] == done[1..] + [b] && all[0] == done[0];
    }
  }

  lemma AltsMeanSnoc(done: seq<Branch>, alts: seq<Alt>, b: seq<Node>, alt: Alt)
    requires AltsMean(done, alts) && Whole(b, alt.pieces)
    ensures AltsMean(done + [Branch(b)], alts + [alt])
  {
    hide LangAlts, LangBranch, PiecesHave;
    forall t, i, j
      ensures LangAlts(done + [Branch(b)], t, i, j) <==> AltsHave(alts + [alt], t, i, j)
    {
      LangAltsSnoc(done, Branch(b), t, i, j);
      AltsHaveSnoc(alts, alt, t, i, j);
      assert LangAlts(done, t, i, j) <==> AltsHave(alts, t, i, j);
    }
  }

  lemma AltsHaveSnoc(alts: seq<Alt>, alt: Alt, t: seq<byte>, i: int, j: int)
    ensures AltsHave(alts + [alt], t, i, j) <==> AltsHave(alts, t, i, j) || PiecesHave(alt.pieces, t, i, j)
  {
    hide PiecesHave;
    var all := alts + [alt];
    if k :| 0 <= k < |alts| && PiecesHave(alts[k].pieces, t, i, j) {
      assert all[k] == alts[k];
    }
    if PiecesHave(alt.pieces, t, i, j) {
      assert all[|alts|] == alt;
    }
  }

  lemma PieceStart(piece: Piece)
    requires PieceFits(piece)
    ensures |PieceWritten(piece)| > 0 && !IsOp(PieceWritten(piece)[0])
  {
    hide PostsWritten, PartsWritten, AltsWritten;
    assert PieceWritten(piece)[0] == AtomWritten(piece.atom)[0];
  }

  lemma {:induction false} NextAfter(pattern: seq<byte>, q: nat, ps: seq<Piece>)
    requires Stands(pattern, q, PiecesWritten(ps)) && PiecesFit(ps) && !IsOp(Peek(pattern, q + |PiecesWritten(ps)|))
    ensures !IsOp(Peek(pattern, q))
    decreases |ps|
  {
    hide Stands, PieceWritten, PieceFits, IsOp;
    if |ps| > 0 {
      var init, last := ps[..|ps| - 1], ps[|ps| - 1];
      StandBoth(pattern, q, PiecesWritten(init), PieceWritten(last));
      NextPiece(pattern, q + |PiecesWritten(init)|, last);
      NextAfter(pattern, q, init);
    }
  }

  lemma NextPiece(pattern: seq<byte>, q: nat, piece: Piece)
    requires Stands(pattern, q, PieceWritten(piece)) && PieceFits(piece)
    ensures !IsOp(Peek(pattern, q))
  {
    hide PieceWritten, PieceFits, IsOp;
    PieceStart(piece);
    StandsAt(pattern, q, PieceWritten(piece), 0);
  }

  lemma {:induction false} AllRun(ps: seq<Post>)
    requires forall k :: 0 <= k < |ps| ==> ps[k] in {Many, Most, Maybe}
    ensures |Run(ps)| == |ps| == |PostsWritten(ps)|
  {
    if |ps| > 0 {
      AllRun(ps[1..]);
    }
  }

  /** Operators at the beginning of an alternative. */
  lemma IdleRead(pattern: seq<byte>, p: nat, rd: Reader, idle: seq<Post>) returns (rd': Reader)
    requires rd.branch == [] && (forall k :: 0 <= k < |idle| ==> idle[k] in {Many, Most, Maybe})
    requires Stands(pattern, p, PostsWritten(idle)) && !IsOp(Peek(pattern, p + |PostsWritten(idle)|))
    ensures Goes(pattern, p, rd, p + |PostsWritten(idle)|, rd') && Whole(rd'.branch, [])
  {
    hide ReadFrom, Stands, PostsWritten, Goes;
    StandsIn(pattern, p, PostsWritten(idle));
    AllRun(idle);
    if |idle| == 0 {
      assert forall t, i, j :: LangBranch([], t, i, j) <==> PiecesHave([], t, i, j);
      rd' := rd;
      StaysGoes(pattern, p, rd);
    } else {
      RunRead(pattern, p, idle);
      FirstPost(pattern, p, idle);
      rd' := Push(rd, Skipped(Run(idle)));
      Turn(pattern, p, rd, rd', p + |idle|);
      SkippedWhole(Run(idle));
      assert rd'.branch == [Skipped(Run(idle))];
      TurnGoes(pattern, p, rd, p + |idle|, rd');
    }
  }

  lemma StaysGoes(pattern: seq<byte>, p: nat, rd: Reader)
    requires p <= |pattern|
    ensures Goes(pattern, p, rd, p, rd)
  {}

  lemma TurnGoes(pattern: seq<byte>, p: nat, rd: Reader, e: nat, rd': Reader)
    requires p <= |pattern| && e <= |pattern| && ReadFrom(pattern, p, rd) == ReadFrom(pattern, e, rd')
    requires rd'.stack == rd.stack && rd'.done == rd.done
    ensures Goes(pattern, p, rd, e, rd')
  {}

  lemma GoesOn(pattern: seq<byte>, p: nat, rd: Reader, q: nat, rd': Reader, e: nat, rd'': Reader)
    requires Goes(pattern, p, rd, q, rd') && Goes(pattern, q, rd', e, rd'')
    ensures Goes(pattern, p, rd, e, rd'')
  {}

  lemma SkippedWhole(ops: seq<RepeatOp>)
    ensures Whole([Skipped(ops)], [])
  {
    var b := [Skipped(ops)];
    assert b == [] + b;
    forall t, i, j
      ensures LangBranch(b, t, i, j) <==> PiecesHave([], t, i, j)
    {
      BranchSnoc([], Skipped(ops), t, i, j);
      if 0 <= i == j <= |t| {
        assert LangBranch([], t, i, i) && Lang(Skipped(ops), t, i, j);
      }
    }
  }

  lemma {:induction false} PieceRead(pattern: seq<byte>, p: nat, rd: Reader, piece: Piece) returns (rd': Reader)
    requires PieceFits(piece) && Stands(pattern, p, PieceWritten(piece)) && !IsOp(Peek(pattern, p + |PieceWritten(piece)|))
    ensures Goes(pattern, p, rd, p + |PieceWritten(piece)|, rd') && Follows(rd'.branch, rd.branch, piece)
    decreases piece, 0
  {
    hide ReadFrom, Stands, PostsWritten, AtomWritten, Goes, Follows, Means, IsOp, Peek, AltsMean, Whole;
    var a := piece.atom;
    if a.Char? || a.Quoted? {
      rd' := CharRead(pattern, p, rd, piece);
    } else {
      StandBoth(pattern, p, AtomWritten(a), PostsWritten(piece.posts));
      var q := p + |AtomWritten(a)|;
      StandsIn(pattern, p, AtomWritten(a));
      var n: Node;
      match a {
        case Any =>
          AnyTurn(pattern, p, rd);
          AnyMeans();
          n := AnyChar;
        case List(_, _, _, _) =>
          ListTurn(pattern, p, rd, a);
          ListMeans(a);
          n := ListNode(a);
        case Brackets(alts) =>
          BracketsParts(pattern, p, alts);
          OpenTurn(pattern, p, rd);
          var inner := AltsRead(pattern, p + 1, Opening(rd), alts);
          CloseTurn(pattern, p, rd, q - 1, inner);
          LastMeans(inner, alts);
          n := Group(inner.done + [Branch(inner.branch)]);
          GroupMeans(inner.done + [Branch(inner.branch)], alts);
      }
      rd' := OwnNode(pattern, p, q, rd, n, piece);
    }
  }

  /** Pieces behind others. */
  lemma {:induction false} PiecesRead(pattern: seq<byte>, p: nat, rd: Reader, before: seq<Piece>, ps: seq<Piece>) returns (rd': Reader)
    requires PiecesFit(ps) && Stands(pattern, p, PiecesWritten(ps)) && !IsOp(Peek(pattern, p + |PiecesWritten(ps)|)) && Whole(rd.branch, before)
    ensures Goes(pattern, p, rd, p + |PiecesWritten(ps)|, rd') && Whole(rd'.branch, before + ps)
    decreases ps, 0
  {
    hide ReadFrom, Stands, PieceWritten, Goes, Whole, Follows, IsOp, PieceFits;
    if |ps| == 0 {
      StandsIn(pattern, p, PiecesWritten(ps));
      StaysGoes(pattern, p, rd);
      rd' := rd;
      assert before + ps == before;
    } else {
      var init, last := ps[..|ps| - 1], ps[|ps| - 1];
      StandBoth(pattern, p, PiecesWritten(init), PieceWritten(last));
      var q := p + |PiecesWritten(init)|;
      NextPiece(pattern, q, last);
      var mid := PiecesRead(pattern, p, rd, before, init);
      rd' := PieceRead(pattern, q, mid, last);
      GoesOn(pattern, p, rd, q, mid, q + |PieceWritten(last)|, rd');
      WholeSnoc(rd'.branch, mid.branch, before + init, last);
      assert before + init + [last] == before + ps;
    }
  }

  lemma {:induction false} AltRead(pattern: seq<byte>, p: nat, rd: Reader, alt: Alt) returns (rd': Reader)
    requires AltsFit([alt]) && Stands(pattern, p, AltWritten(alt)) && !IsOp(Peek(pattern, p + |AltWritten(alt)|)) && rd.branch == []
    ensures Goes(pattern, p, rd, p + |AltWritten(alt)|, rd') && Whole(rd'.branch, alt.pieces)
    decreases alt, 0
  {
    hide ReadFrom, Stands, PostsWritten, PiecesWritten, Goes, Whole, IsOp, PiecesFit;
    assert [alt][0] == alt;
    StandBoth(pattern, p, PostsWritten(alt.idle), PiecesWritten(alt.pieces));
    var q := p + |PostsWritten(alt.idle)|;
    NextAfter(pattern, q, alt.pieces);
    var mid := IdleRead(pattern, p, rd, alt.idle);
    rd' := PiecesRead(pattern, q, mid, [], alt.pieces);
    assert [] + alt.pieces == alt.pieces;
    GoesOn(pattern, p, rd, q, mid, q + |PiecesWritten(alt.pieces)|, rd');
  }

  /** All alternatives of a level that has just begun. */
  lemma {:induction false} AltsRead(pattern: seq<byte>, p: nat, rd: Reader, alts: seq<Alt>) returns (rd': Reader)
    requires |alts| > 0 && AltsFit(alts) && Stands(pattern, p, AltsWritten(alts)) && !IsOp(Peek(pattern, p + |AltsWritten(alts)|))
    requires rd.branch == [] && rd.done == []
    ensures var e := p + |AltsWritten(alts)|; p <= |pattern| && e <= |pattern| && ReadFrom(pattern, p, rd) == ReadFrom(pattern, e, rd')
    ensures rd'.stack == rd.stack && AltsMean(rd'.done, alts[..|alts| - 1]) && Whole(rd'.branch, alts[|alts| - 1].pieces)
    decreases alts, 0
  {
    hide ReadFrom, Stands, AltWritten, Whole, AltsMean, IsOp, PiecesFit, Goes;
    var last := alts[|alts| - 1];
    if |alts| == 1 {
      assert alts == [last];
      rd' := AltRead(pattern, p, rd, last);
      GoesFrom(pattern, p, rd, p + |AltWritten(last)|, rd');
      NoAlts();
      assert alts[..0] == [];
    } else {
      var init := alts[..|alts| - 1];
      AltsParts(pattern, p, alts);
      var q := p + |AltsWritten(init)|;
      var mid := AltsRead(pattern, p, rd, init);
      LastMeans(mid, init);
      BarTurn(pattern, q, mid);
      assert AltsFit([last]);
      rd' := AltRead(pattern, q + 1, Alternative(mid), last);
      GoesFrom(pattern, q + 1, Alternative(mid), q + 1 + |AltWritten(last)|, rd');
    }
  }

  /** The finished alternatives and the current one. */
  lemma LastMeans(rd: Reader, alts: seq<Alt>)
    requires |alts| > 0 && AltsMean(rd.done, alts[..|alts| - 1]) && Whole(rd.branch, alts[|alts| - 1].pieces)
    ensures AltsMean(rd.done + [Branch(rd.branch)], alts)
  {
    hide AltsMean, Whole;
    AltsMeanSnoc(rd.done, alts[..|alts| - 1], rd.branch, alts[|alts| - 1]);
    assert alts[..|alts| - 1] + [alts[|alts| - 1]] == alts;
  }

  lemma GoesFrom(pattern: seq<byte>, p: nat, rd: Reader, e: nat, rd': Reader)
    requires Goes(pattern, p, rd, e, rd')
    ensures p <= |pattern| && e <= |pattern| && ReadFrom(pattern, p, rd) == ReadFrom(pattern, e, rd') && rd'.stack == rd.stack && rd'.done == rd.done
  {}

  lemma NoAlts()
    ensures AltsMean([], [])
  {}

  lemma AltsParts(pattern: seq<byte>, p: nat, alts: seq<Alt>)
    requires |alts| > 1 && Stands(pattern, p, AltsWritten(alts))
    ensures var init, last := alts[..|alts| - 1], alts[|alts| - 1];
            var q := p + |AltsWritten(init)|;
            && Stands(pattern, p, AltsWritten(init)) && q < |pattern| && pattern[q] == BAR && !IsOp(Peek(pattern, q))
            && Stands(pattern, q + 1, AltWritten(last)) && |AltsWritten(alts)| == |AltsWritten(init)| + 1 + |AltWritten(last)|
  {
    hide AltWritten, Stands;
    var init, last := alts[..|alts| - 1], alts[|alts| - 1];
    var q := p + |AltsWritten(init)|;
    StandBoth(pattern, p, AltsWritten(init) + [Ascii('|')], AltWritten(last));
    StandBoth(pattern, p, AltsWritten(init), [Ascii('|')]);
    StandsAt(pattern, q, [Ascii('|')], 0);
    StandsIn(pattern, q, [Ascii('|')]);
  }

  lemma BarTurn(pattern: seq<byte>, q: nat, rd: Reader)
    requires q < |pattern| && pattern[q] == BAR
    ensures ReadFrom(pattern, q, rd) == ReadFrom(pattern, q + 1, Alternative(rd))
  {
    hide ReadFrom;
    Turn(pattern, q, rd, Alternative(rd), q + 1);
  }

  lemma AnyTurn(pattern: seq<byte>, p: nat, rd: Reader)
    requires Stands(pattern, p, AtomWritten(Any))
    ensures |AtomWritten(Any)| == 1 && p + 1 <= |pattern| && ReadFrom(pattern, p, rd) == ReadFrom(pattern, p + 1, Push(rd, AnyChar))
  {
    hide ReadFrom;
    StandsAt(pattern, p, AtomWritten(Any), 0);
    Turn(pattern, p, rd, Push(rd, AnyChar), p + 1);
  }

  lemma ListTurn(pattern: seq<byte>, p: nat, rd: Reader, a: Atom)
    requires a.List? && AtomFits(a) && Stands(pattern, p, AtomWritten(a))
    ensures var q := p + |AtomWritten(a)|; p <= |pattern| && q <= |pattern| && ReadFrom(pattern, p, rd) == ReadFrom(pattern, q, Push(rd, ListNode(a)))
  {
    hide ReadFrom, AtomWritten, Stands, ListNode;
    ListRead(pattern, p, rd, a);
    Turn(pattern, p, rd, Push(rd, ListNode(a)), p + |AtomWritten(a)|);
  }

  lemma BracketsParts(pattern: seq<byte>, p: nat, alts: seq<Alt>)
    requires Stands(pattern, p, AtomWritten(Brackets(alts)))
    ensures var e := p + 1 + |AltsWritten(alts)|;
            && |AtomWritten(Brackets(alts))| == |AltsWritten(alts)| + 2 && e < |pattern| && pattern[p] == OPEN && pattern[e] == CLOSE
            && Stands(pattern, p + 1, AltsWritten(alts)) && !IsOp(Peek(pattern, e))
  {
    hide Stands, AltsWritten;
    var text := AltsWritten(alts);
    assert AtomWritten(Brackets(alts)) == [OPEN] + (text + [CLOSE]);
    StandBoth(pattern, p, [OPEN], text + [CLOSE]);
    StandBoth(pattern, p + 1, text, [CLOSE]);
    StandsAt(pattern, p, [OPEN], 0);
    StandsAt(pattern, p + 1 + |text|, [CLOSE], 0);
    StandsIn(pattern, p + 1 + |text|, [CLOSE]);
  }

  lemma OpenTurn(pattern: seq<byte>, p: nat, rd: Reader)
    requires p < |pattern| && pattern[p] == OPEN
    ensures ReadFrom(pattern, p, rd) == ReadFrom(pattern, p + 1, Opening(rd)) && Opening(rd).branch == [] && Opening(rd).done == []
  {
    hide ReadFrom;
    Turn(pattern, p, rd, Opening(rd), p + 1);
  }

  lemma CloseTurn(pattern: seq<byte>, p: nat, rd: Reader, q: nat, inner: Reader)
    requires p < q < |pattern| && pattern[q] == CLOSE && inner.stack == Opening(rd).stack
    requires ReadFrom(pattern, p, rd) == ReadFrom(pattern, q, inner)
    ensures ReadFrom(pattern, p, rd) == ReadFrom(pattern, q + 1, Push(rd, Group(inner.done + [Branch(inner.branch)])))
  {
    hide ReadFrom;
    assert inner.stack[..|inner.stack| - 1] == rd.stack;
    Turn(pattern, q, inner, Push(rd, Group(inner.done + [Branch(inner.branch)])), q + 1);
  }

  lemma GroupMeans(read: seq<Branch>, alts: seq<Alt>)
    requires AltsMean(read, alts)
    ensures Means(Group(read), Brackets(alts), [])
  {
    hide LangAlts, PiecesHave;
    forall t, i, j
      ensures Lang(Group(read), t, i, j) <==> PostsHave(Brackets(alts), [], t, i, j)
    {
      assert LangAlts(read, t, i, j) <==> AltsHave(alts, t, i, j);
    }
  }

  lemma WholeRead(alts: seq<Alt>) returns (read: seq<Branch>)
    requires |alts| > 0 && AltsFit(alts)
    ensures ReadPattern(AltsWritten(alts)) == Read(read) && AltsMean(read, alts)
  {
    hide AltsMean, AltsFit, AltsWritten, IsOp, Whole;
    var pattern := AltsWritten(alts);
    assert pattern[0..0 + |pattern|] == pattern;
    assert !IsOp(Peek(pattern, |pattern|)) by { NoOpAtEnd(); }
    var rd := AltsRead(pattern, 0, Reader([], [], []), alts);
    LastMeans(rd, alts);
    read := rd.done + [Branch(rd.branch)];
  }

  lemma NoOpAtEnd()
    ensures !IsOp(0)
  {}

  /** The strings of a pattern, as far as the reader takes it. */
  ghost predicate Strings(pattern: seq<byte>, t: seq<byte>, i: int, j: int) {
    ReadPattern(pattern).Read? && LangAlts(ReadPattern(pattern).alts, t, i, j)
  }

  /** An expression that is written out is read, and has the strings that were meant. */
  lemma WrittenMeans(alts: seq<Alt>)
    requires |alts| > 0 && AltsFit(alts)
    ensures ReadPattern(AltsWritten(alts)).Read?
    ensures forall t, i, j :: Strings(AltsWritten(alts), t, i, j) <==> AltsHave(alts, t, i, j)
  {
    hide AltsHave, LangAlts, AltsFit, AltsWritten, ReadPattern;
    var read := WholeRead(alts);
    forall t, i, j
      ensures Strings(AltsWritten(alts), t, i, j) <==> AltsHave(alts, t, i, j)
    {
      assert LangAlts(read, t, i, j) <==> AltsHave(alts, t, i, j);
    }
  }
}
