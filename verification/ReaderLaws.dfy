/** What particular patterns mean, and which ones are refused. */
module ReaderLaws {
  import opened Bytes
  import opened Regex
  import opened Reading
  import opened Code
  import opened Notation
  import opened NotationRead
  import opened Wrappers

  // ---- intervals ----

  /** `t[i..j]` is `k` times `c`. */
  predicate TimesOf(c: byte, k: nat, t: seq<byte>, i: int, j: int) {
    0 <= i && j == i + k <= |t| && forall x :: i <= x < j ==> t[x] == c
  }

  lemma {:induction false} CopiesOf(c: byte, k: nat, t: seq<byte>, i: int, j: int)
    ensures Copies(Char(c), [], k, t, i, j) <==> TimesOf(c, k, t, i, j)
    decreases k
  {
    if k > 0 {
      forall m
        ensures PostsHave(Char(c), [], t, i, m) <==> 0 <= i < m == i + 1 <= |t| && t[i] == c
      {
        assert PostsHave(Char(c), [], t, i, m) <==> AtomHas(Char(c), t, i, m);
      }
      CopiesOf(c, k - 1, t, i + 1, j);
      if Copies(Char(c), [], k, t, i, j) {
        var m := FirstCopy(Char(c), [], k, t, i, j);
      }
      if TimesOf(c, k, t, i, j) {
        assert PostsHave(Char(c), [], t, i, i + 1) && Copies(Char(c), [], k - 1, t, i + 1, j);
      }
    }
  }

  /** A pattern that is one piece. */
  lemma PieceAlone(piece: Piece, t: seq<byte>, i: int, j: int)
    requires PieceFits(piece)
    ensures Strings(PieceWritten(piece), t, i, j) <==> PostsHave(piece.atom, piece.posts, t, i, j)
  {
    hide Strings, PostsHave, ReadPattern, PieceFits, PieceWritten, AltsHave, AltsWritten;
    var alts := [Alt([], [piece])];
    OneWritten(piece);
    assert AltsFit(alts);
    WrittenMeans(alts);
    OneHas(piece, t, i, j);
  }

  lemma OneWritten(piece: Piece)
    ensures AltsWritten([Alt([], [piece])]) == PieceWritten(piece)
  {
    hide PieceWritten;
    var alt := Alt([], [piece]);
    assert [piece][..0] == [] && PiecesWritten([]) == [] && PostsWritten([]) == [];
    assert PiecesWritten([piece]) == [] + PieceWritten(piece) == PieceWritten(piece);
    assert AltsWritten([alt]) == AltWritten(alt) == [] + PieceWritten(piece);
  }

  lemma OneHas(piece: Piece, t: seq<byte>, i: int, j: int)
    ensures AltsHave([Alt([], [piece])], t, i, j) <==> PostsHave(piece.atom, piece.posts, t, i, j)
  {
    hide PostsHave;
    var alts := [Alt([], [piece])];
    assert [piece][..0] == [];
    assert alts[0].pieces == [piece];
    if AltsHave(alts, t, i, j) {
      var m := PiecesLast([piece], t, i, j);
      assert PiecesHave([], t, i, m);
    }
    if PostsHave(piece.atom, piece.posts, t, i, j) {
      HaveBounds(piece.atom, piece.posts, t, i, j);
      assert PiecesHave([], t, i, i) && PostsHave([piece][0].atom, [piece][0].posts, t, i, j);
      assert PiecesHave([piece], t, i, j);
    }
  }

  lemma CountedAlone(c: byte, post: Post, t: seq<byte>, i: int, j: int)
    requires Plain(c) && IsInterval(post) && PostFits(post)
    ensures Strings([c] + PostWritten(post), t, i, j) <==> exists k: nat :: Allows(post, k) && TimesOf(c, k, t, i, j)
  {
    hide Strings, PostWritten, Allows, TimesOf, Plain, PostFits, IsInterval, Copies;
    var ps := [post];
    var piece := Piece(Char(c), ps);
    CountedWritten(c, post);
    PieceAlone(piece, t, i, j);
    assert ps[..|ps| - 1] == [] && ps[|ps| - 1] == post;
    if Strings([c] + PostWritten(post), t, i, j) {
      var k := SomeCopies(Char(c), ps, t, i, j);
      CopiesOf(c, k, t, i, j);
    }
    if k: nat :| Allows(post, k) && TimesOf(c, k, t, i, j) {
      CopiesOf(c, k, t, i, j);
      assert Allows(ps[|ps| - 1], k) && Copies(Char(c), ps[..|ps| - 1], k, t, i, j);
    }
  }

  lemma CountedWritten(c: byte, post: Post)
    ensures PieceWritten(Piece(Char(c), [post])) == [c] + PostWritten(post)
  {
    hide PostWritten;
    assert [post][1..] == [] && PostsWritten([]) == [];
    assert PostsWritten([post]) == PostWritten(post) + [] == PostWritten(post);
  }

  lemma SomeCopies(a: Atom, ps: seq<Post>, t: seq<byte>, i: int, j: int) returns (k: nat)
    requires |ps| > 0 && PostsHave(a, ps, t, i, j)
    ensures Allows(ps[|ps| - 1], k) && Copies(a, ps[..|ps| - 1], k, t, i, j)
  {
    hide Allows;
    var init, last := ps[..|ps| - 1], ps[|ps| - 1];
    k :| Allows(last, k) && Copies(a, init, k, t, i, j);
  }

  /** `c{m}`: just `m` times the character. */
  lemma ExactlyTimes(c: byte, m: nat, t: seq<byte>, i: int, j: int)
    requires Plain(c) && m <= 32767
    ensures Strings([c, Ascii('{')] + Dec(m) + [Ascii('}')], t, i, j) <==>
            0 <= i && j == i + m <= |t| && forall x :: i <= x < j ==> t[x] == c
  {
    hide Strings, Dec, Plain;
    CountedAlone(c, Exactly(m), t, i, j);
    assert [c] + PostWritten(Exactly(m)) == [c, Ascii('{')] + Dec(m) + [Ascii('}')];
    assert TimesOf(c, m, t, i, j) ==> Allows(Exactly(m), m);
  }

  /** `c{m,}`: from `m` to 32767 times. */
  lemma AtLeastTimes(c: byte, m: nat, t: seq<byte>, i: int, j: int)
    requires Plain(c) && m <= 32767
    ensures Strings([c, Ascii('{')] + Dec(m) + [Ascii(','), Ascii('}')], t, i, j) <==>
            0 <= i <= j <= |t| && m <= j - i <= 32767 && forall x :: i <= x < j ==> t[x] == c
  {
    hide Strings, Dec, Plain;
    CountedAlone(c, AtLeast(m), t, i, j);
    assert [c] + PostWritten(AtLeast(m)) == [c, Ascii('{')] + Dec(m) + [Ascii(','), Ascii('}')];
    if 0 <= i <= j && TimesOf(c, j - i, t, i, j) && m <= j - i <= 32767 {
      assert Allows(AtLeast(m), j - i);
    }
  }

  /** `c{m,n}`: from `m` to `n` times. */
  lemma BetweenTimes(c: byte, m: nat, n: nat, t: seq<byte>, i: int, j: int)
    requires Plain(c) && m <= n <= 32767
    ensures Strings([c, Ascii('{')] + Dec(m) + [Ascii(',')] + Dec(n) + [Ascii('}')], t, i, j) <==>
            0 <= i <= j <= |t| && m <= j - i <= n && forall x :: i <= x < j ==> t[x] == c
  {
    hide Strings, Dec, Plain;
    CountedAlone(c, Between(m, n), t, i, j);
    assert [c] + PostWritten(Between(m, n)) == [c, Ascii('{')] + Dec(m) + [Ascii(',')] + Dec(n) + [Ascii('}')];
    if 0 <= i <= j && TimesOf(c, j - i, t, i, j) && m <= j - i <= n {
      assert Allows(Between(m, n), j - i);
    }
  }

  // ---- what looks like an interval and is none ----

  /** The characters one after the other. */
  function Word(s: seq<byte>): (ps: seq<Piece>)
    ensures |ps| == |s|
  {
    if |s| == 0 then [] else Word(s[..|s| - 1]) + [Piece(Char(s[|s| - 1]), [])]
  }

  lemma WordLast(s: seq<byte>)
    requires |s| > 0
    ensures Word(s)[..|s| - 1] == Word(s[..|s| - 1]) && Word(s)[|s| - 1] == Piece(Char(s[|s| - 1]), [])
  {}

  lemma CharWritten(c: byte)
    ensures PieceWritten(Piece(Char(c), [])) == [c]
  {}

  lemma {:induction false} WordWritten(s: seq<byte>)
    ensures PiecesWritten(Word(s)) == s
  {
    if |s| > 0 {
      hide Plain, PieceWritten, Word;
      WordWritten(s[..|s| - 1]);
      WordLast(s);
      CharWritten(s[|s| - 1]);
      assert s == s[..|s| - 1] + [s[|s| - 1]];
    }
  }

  lemma {:induction false} WordFits(s: seq<byte>)
    requires forall k :: 0 <= k < |s| ==> Plain(s[k])
    ensures PiecesFit(Word(s))
  {
    hide Plain;
    if |s| > 0 {
      WordFits(s[..|s| - 1]);
      assert PieceFits(Piece(Char(s[|s| - 1]), []));
    }
  }

  lemma CharHas(c: byte, t: seq<byte>, i: int, j: int)
    ensures PostsHave(Char(c), [], t, i, j) <==> 0 <= i < j == i + 1 <= |t| && t[i] == c
  {
    assert PostsHave(Char(c), [], t, i, j) <==> AtomHas(Char(c), t, i, j);
  }

  lemma PiecesGo(ps: seq<Piece>, t: seq<byte>, i: int, m: int, j: int)
    requires |ps| > 0 && PiecesHave(ps[..|ps| - 1], t, i, m) && PostsHave(ps[|ps| - 1].atom, ps[|ps| - 1].posts, t, m, j)
    ensures PiecesHave(ps, t, i, j)
  {
    hide PostsHave;
  }

  lemma TextSnoc(s: seq<byte>, t: seq<byte>, i: int, j: int)
    requires |s| > 0 && 0 <= i && j == i + |s| <= |t|
    ensures t[i..j] == s <==> t[i..j - 1] == s[..|s| - 1] && t[j - 1] == s[|s| - 1]
  {
    assert t[i..j] == t[i..j - 1] + [t[j - 1]];
    assert s == s[..|s| - 1] + [s[|s| - 1]];
  }

  lemma {:induction false} WordHas(s: seq<byte>, t: seq<byte>, i: int, j: int)
    ensures PiecesHave(Word(s), t, i, j) <==> 0 <= i && j == i + |s| <= |t| && t[i..j] == s
    decreases |s|
  {
    if |s| > 0 {
      hide PiecesHave, PostsHave, Word;
      var init, c := s[..|s| - 1], s[|s| - 1];
      var ps := Word(s);
      WordLast(s);
      CharHas(c, t, j - 1, j);
      if PiecesHave(ps, t, i, j) {
        var m := PiecesLast(ps, t, i, j);
        CharHas(c, t, m, j);
        WordHas(init, t, i, m);
        TextSnoc(s, t, i, j);
      }
      if 0 <= i && j == i + |s| <= |t| && t[i..j] == s {
        WordHas(init, t, i, j - 1);
        TextSnoc(s, t, i, j);
        PiecesGo(ps, t, i, j - 1, j);
      }
    }
  }

  /** Whatever the character is, it stands for itself when it is added as a literal. */
  lemma LiteralFollows(rd: Reader, lit: Literal, next: byte)
    ensures var rd' := AddLiteral(rd, lit, next);
            rd'.stack == rd.stack && rd'.done == rd.done && Follows(rd'.branch, rd.branch, Piece(Char(lit.c), []))
  {
    hide Follows, Means;
    if Joins(rd.branch, next) {
      JoinFollows(rd.branch, lit, Char(lit.c));
    } else {
      CharMeans(Char(lit.c), lit);
      PushFollows(rd.branch, Exact([lit]), Piece(Char(lit.c), []));
    }
  }

  lemma FirstChar(pattern: seq<byte>, c: byte, next: byte) returns (rd: Reader)
    requires Plain(c) && |pattern| >= 2 && pattern[0] == c && pattern[1] == next && !IsOp(next)
    ensures Goes(pattern, 0, Reader([], [], []), 1, rd) && Whole(rd.branch, Word([c]))
  {
    hide Goes, Whole, Follows, ReadFrom, Plain, IsOp;
    var piece := Piece(Char(c), []);
    assert PieceWritten(piece) == [c];
    assert pattern[0..1] == [c];
    assert PieceFits(piece);
    rd := PieceRead(pattern, 0, Reader([], [], []), piece);
    WholeNothing();
    WholeSnoc(rd.branch, [], [], piece);
    assert [c][..0] == [] && Word([]) == [];
    assert Word([c]) == [] + [piece];
  }

  lemma WholeNothing()
    ensures Whole([], [])
  {
    forall t, i, j
      ensures LangBranch([], t, i, j) <==> PiecesHave([], t, i, j)
    {}
  }

  lemma BadRead(pattern: seq<byte>, c: byte, post: Post) returns (rd: Reader)
    requires Plain(c) && IsInterval(post) && !PostFits(post) && pattern == [c] + PostWritten(post)
    ensures |pattern| >= 2 && pattern[1] == LBRACE
    ensures Goes(pattern, 0, Reader([], [], []), 2, rd) && Whole(rd.branch, Word([c]) + [Piece(Char(LBRACE), [])])
  {
    hide Goes, Whole, Follows, ReadFrom, Plain, IsOp, PostWritten, AddLiteral, PostFits, IsInterval, ReadBraces;
    var text := PostWritten(post);
    assert pattern[1..1 + |text|] == text;
    BracesRead(pattern, 1, post);
    NoOp();
    var first := FirstChar(pattern, c, LBRACE);
    rd := AddLiteral(first, Literal(LBRACE, false), Peek(pattern, 2));
    BraceTurn(pattern, first);
    LiteralFollows(first, Literal(LBRACE, false), Peek(pattern, 2));
    WholeSnoc(rd.branch, first.branch, Word([c]), Piece(Char(LBRACE), []));
    TurnGoes(pattern, 1, first, 2, rd);
    GoesOn(pattern, 0, Reader([], [], []), 1, first, 2, rd);
  }

  /** Braces with bounds in the wrong order or too large stand for themselves. */
  lemma BadBounds(c: byte, post: Post, t: seq<byte>, i: int, j: int)
    requires Plain(c) && IsInterval(post) && !PostFits(post)
    ensures var pattern := [c] + PostWritten(post);
            Strings(pattern, t, i, j) <==> 0 <= i && j == i + |pattern| <= |t| && t[i..j] == pattern
  {
    hide Goes, Whole, Plain, IsOp, PostWritten, PostFits, PiecesHave, LangAlts, IsInterval, ReadPattern, Strings;
    var pattern := [c] + PostWritten(post);
    var rd := BadRead(pattern, c, post);
    NoOp();
    var rest := pattern[2..];
    PlainBraces(c, post);
    WordWritten(rest);
    WordFits(rest);
    assert pattern[2..2 + |rest|] == rest;
    var end := PiecesRead(pattern, 2, rd, Word([c]) + [Piece(Char(LBRACE), [])], Word(rest));
    GoesOn(pattern, 0, Reader([], [], []), 2, rd, |pattern|, end);
    WordJoin([c], LBRACE, rest);
    assert [c] + [LBRACE] + rest == pattern;
    AtEnd(pattern, end, Word(pattern), t, i, j);
    WordHas(pattern, t, i, j);
  }

  lemma NoOp()
    ensures !IsOp(LBRACE) && !IsOp(0) && !IsOp(CLOSE)
  {}

  lemma BraceTurn(pattern: seq<byte>, rd: Reader)
    requires |pattern| >= 2 && pattern[1] == LBRACE && ReadBraces(pattern, 2) == None
    ensures ReadFrom(pattern, 1, rd) == ReadFrom(pattern, 2, AddLiteral(rd, Literal(LBRACE, false), Peek(pattern, 2)))
  {
    hide ReadFrom, AddLiteral, ReadBraces;
    Turn(pattern, 1, rd, AddLiteral(rd, Literal(LBRACE, false), Peek(pattern, 2)), 2);
  }

  lemma {:induction false} DecPlain(m: nat)
    ensures forall k :: 0 <= k < |Dec(m)| ==> Plain(Dec(m)[k])
  {
    if m >= 10 {
      DecPlain(m / 10);
    }
  }

  lemma PlainBraces(c: byte, post: Post)
    requires IsInterval(post)
    ensures var pattern := [c] + PostWritten(post); |pattern| >= 2 && forall k :: 2 <= k < |pattern| ==> Plain(pattern[k])
  {
    hide Dec, Plain;
    DecPlain(post.m);
    assert Plain(Ascii(',')) && Plain(Ascii('}')) by { PlainMarks(); }
    if post.Between? {
      DecPlain(post.n);
    }
  }

  lemma PlainMarks()
    ensures Plain(Ascii(',')) && Plain(Ascii('}'))
  {}

  lemma {:induction false} WordJoin(a: seq<byte>, c: byte, b: seq<byte>)
    ensures Word(a) + [Piece(Char(c), [])] + Word(b) == Word(a + [c] + b)
    decreases |b|
  {
    if |b| == 0 {
      assert a + [c] + b == a + [c] && (a + [c])[..|a|] == a;
    } else {
      var init := b[..|b| - 1];
      WordJoin(a, c, init);
      var all := a + [c] + b;
      assert all[..|all| - 1] == a + [c] + init && all[|all| - 1] == b[|b| - 1];
    }
  }

  /** The pattern ends here, on the outermost level. */
  lemma AtEnd(pattern: seq<byte>, rd: Reader, ps: seq<Piece>, t: seq<byte>, i: int, j: int)
    requires Goes(pattern, 0, Reader([], [], []), |pattern|, rd) && Whole(rd.branch, ps)
    ensures Strings(pattern, t, i, j) <==> PiecesHave(ps, t, i, j)
  {
    hide LangBranch, PiecesHave;
    assert ReadPattern(pattern) == Read([] + [Branch(rd.branch)]);
    LangAltsSnoc([], Branch(rd.branch), t, i, j);
    assert LangBranch(rd.branch, t, i, j) <==> PiecesHave(ps, t, i, j);
  }

  // ---- a closing bracket without an opening one ----

  lemma StrayWhole(b: seq<Node>, ps: seq<Piece>)
    requires Whole(b, ps)
    ensures Whole(b + [Stray], ps)
  {
    hide LangBranch, PiecesHave;
    forall t, i, j
      ensures LangBranch(b + [Stray], t, i, j) <==> PiecesHave(ps, t, i, j)
    {
      BranchSnoc(b, Stray, t, i, j);
      if PiecesHave(ps, t, i, j) {
        assert LangBranch(b, t, i, j);
        EndsInside(b, t, i, j);
        assert LangBranch(b, t, i, j) && Lang(Stray, t, j, j);
      }
    }
  }

  lemma {:induction false} EndsInside(b: seq<Node>, t: seq<byte>, i: int, j: int)
    requires LangBranch(b, t, i, j)
    ensures 0 <= j <= |t|
  {
    hide LangOps, LangAlts;
    if |b| > 0 {
      var m := BranchLast(b, t, i, j);
    }
  }

  /** On the outermost level `)` is an ordinary character. */
  lemma CloseLiteral(alts: seq<Alt>, ps: seq<Piece>, t: seq<byte>, i: int, j: int)
    requires |alts| > 0 && AltsFit(alts) && PiecesFit(ps)
    ensures Strings(AltsWritten(alts) + [Ascii(')')] + PiecesWritten(ps), t, i, j) <==>
            AltsHave(alts[..|alts| - 1] + [Alt([], alts[|alts| - 1].pieces + [Piece(Char(Ascii(')')), [])] + ps)], t, i, j)
  {
    hide AltsFit, PiecesFit, AltsWritten, PiecesWritten, AltsHave, ReadFrom, Goes, Whole, AltsMean, Stands, IsOp, LangAlts, AddLiteral, Unmatched, Follows;
    var init, last := alts[..|alts| - 1], alts[|alts| - 1];
    var a, b := AltsWritten(alts), PiecesWritten(ps);
    var pattern, p := a + [CLOSE] + b, |a|;
    CloseStands(a, b);
    NoOp();
    var rd := AltsRead(pattern, 0, Reader([], [], []), alts);
    var rd2 := Unmatched(rd, Peek(pattern, p + 1));
    CloseTurn2(pattern, p, rd);
    UnmatchedWhole(rd, last.pieces, Peek(pattern, p + 1));
    var rd3 := PiecesRead(pattern, p + 1, rd2, last.pieces + [Piece(Char(CLOSE), [])], ps);
    GoesFrom(pattern, p + 1, rd2, |pattern|, rd3);
    AltsMeanSnoc(rd.done, init, rd3.branch, Alt([], last.pieces + [Piece(Char(CLOSE), [])] + ps));
    EndMeans(pattern, rd3, init + [Alt([], last.pieces + [Piece(Char(CLOSE), [])] + ps)], t, i, j);
  }

  lemma CloseStands(a: seq<byte>, b: seq<byte>)
    ensures var pattern := a + [CLOSE] + b;
            Stands(pattern, 0, a) && pattern[|a|] == CLOSE && Stands(pattern, |a| + 1, b) && |pattern| == |a| + 1 + |b|
  {}

  lemma CloseTurn2(pattern: seq<byte>, p: nat, rd: Reader)
    requires p < |pattern| && pattern[p] == CLOSE && rd.stack == []
    ensures ReadFrom(pattern, p, rd) == ReadFrom(pattern, p + 1, Unmatched(rd, Peek(pattern, p + 1)))
  {
    hide ReadFrom, Unmatched;
    Turn(pattern, p, rd, Unmatched(rd, Peek(pattern, p + 1)), p + 1);
  }

  lemma UnmatchedWhole(rd: Reader, ps: seq<Piece>, next: byte)
    requires Whole(rd.branch, ps)
    ensures var rd' := Unmatched(rd, next); rd'.stack == rd.stack && rd'.done == rd.done && Whole(rd'.branch, ps + [Piece(Char(CLOSE), [])])
  {
    hide Whole, AddLiteral, Follows;
    StrayWhole(rd.branch, ps);
    var mid := if |rd.done| > 0 then Push(rd, Stray) else rd;
    LiteralFollows(mid, Literal(CLOSE, false), next);
    WholeSnoc(AddLiteral(mid, Literal(CLOSE, false), next).branch, mid.branch, ps, Piece(Char(CLOSE), []));
  }

  lemma EndMeans(pattern: seq<byte>, rd: Reader, alts: seq<Alt>, t: seq<byte>, i: int, j: int)
    requires ReadFrom(pattern, 0, Reader([], [], [])) == ReadFrom(pattern, |pattern|, rd) && rd.stack == []
    requires AltsMean(rd.done + [Branch(rd.branch)], alts)
    ensures Strings(pattern, t, i, j) <==> AltsHave(alts, t, i, j)
  {
    hide LangAlts, AltsHave;
  }

  // ---- what is refused ----

  /** Behind some alternatives comes something that cannot be read. */
  lemma Refused(alts: seq<Alt>, bad: seq<byte>, error: ErrorCode)
    requires |alts| > 0 && AltsFit(alts) && |bad| > 0 && !IsOp(bad[0])
    requires var pattern, p := AltsWritten(alts) + bad, |AltsWritten(alts)|; forall rd :: ReadNext(pattern, p, rd) == Stop(error)
    ensures ReadPattern(AltsWritten(alts) + bad) == Failed(error)
  {
    hide AltsFit, AltsWritten, ReadNext, AltsMean, Whole, IsOp;
    var a := AltsWritten(alts);
    var pattern := a + bad;
    assert pattern[0..0 + |a|] == a && Peek(pattern, |a|) == bad[0];
    var rd := AltsRead(pattern, 0, Reader([], [], []), alts);
    assert ReadNext(pattern, |a|, rd) == Stop(error);
  }

  /** A group that is never closed. */
  lemma Unclosed(alts: seq<Alt>, inner: seq<Alt>)
    requires |alts| > 0 && AltsFit(alts) && |inner| > 0 && AltsFit(inner)
    ensures ReadPattern(AltsWritten(alts) + [Ascii('(')] + AltsWritten(inner)) == Failed(EParen)
  {
    hide AltsFit, AltsWritten, ReadFrom, ReadNext, AltsMean, Whole, IsOp;
    var a, b := AltsWritten(alts), AltsWritten(inner);
    var pattern := a + [OPEN] + b;
    assert pattern[0..0 + |a|] == a && pattern[|a| + 1..|a| + 1 + |b|] == b;
    NoOpOpen();
    var rd := AltsRead(pattern, 0, Reader([], [], []), alts);
    OpenTurn(pattern, |a|, rd);
    var rd2 := AltsRead(pattern, |a| + 1, Opening(rd), inner);
    AtEndOpen(pattern, rd2);
  }

  lemma NoOpOpen()
    ensures !IsOp(OPEN) && !IsOp(0)
  {}

  lemma AtEndOpen(pattern: seq<byte>, rd: Reader)
    requires |rd.stack| > 0
    ensures ReadFrom(pattern, |pattern|, rd) == Failed(EParen)
  {}

  /** A list that is never closed. */
  lemma NoClosing(alts: seq<Alt>, s: seq<byte>)
    requires |alts| > 0 && AltsFit(alts) && forall k :: 0 <= k < |s| ==> s[k] !in [Ascii(']'), Ascii('-'), Ascii('[')]
    ensures ReadPattern(AltsWritten(alts) + ([Ascii('[')] + s)) == Failed(EBrack)
  {
    hide AltsFit, AltsWritten, ReadItems, ReadPattern;
    var p, bad := |AltsWritten(alts)|, [LBRACKET] + s;
    var pattern := AltsWritten(alts) + bad;
    assert pattern[p] == LBRACKET && forall k :: p < k < |pattern| ==> pattern[k] == s[k - p - 1];
    if |s| > 0 {
      var first := if pattern[p + 1] == CARET then p + 2 else p + 1;
      NeverCloses(pattern, first, first, [], false);
    }
    forall rd
      ensures ReadNext(pattern, p, rd) == Stop(EBrack)
    {}
    Refused(alts, bad, EBrack);
  }

  lemma {:induction false} NeverCloses(pattern: seq<byte>, first: nat, p: nat, items: seq<SetItem>, had: bool)
    requires first <= p <= |pattern| && forall k :: p <= k < |pattern| ==> pattern[k] !in [RBRACKET, MINUS, LBRACKET]
    ensures ReadItems(pattern, first, p, items, had) == BadBracket(EBrack)
    decreases |pattern| - p
  {
    hide ReadClass;
    if p < |pattern| {
      assert NextItems(pattern, p, had) == ItemsRead([One(pattern[p])], p + 1, false);
      NeverCloses(pattern, first, p + 1, items + [One(pattern[p])], false);
    }
  }

  /** A range that ends before it starts. */
  lemma BadRange(alts: seq<Alt>, negated: bool, lo: byte, hi: byte, rest: seq<byte>)
    requires |alts| > 0 && AltsFit(alts) && hi < lo && hi != Ascii(']') && (!negated ==> lo != Ascii('^'))
    ensures ReadPattern(AltsWritten(alts) + ([Ascii('[')] + (if negated then [Ascii('^')] else []) + [lo, Ascii('-'), hi] + rest)) == Failed(ERange)
  {
    hide AltsFit, AltsWritten, ReadPattern, ReadClass;
    var p, neg := |AltsWritten(alts)|, if negated then [CARET] else [];
    var bad := [LBRACKET] + neg + [lo, MINUS, hi] + rest;
    var pattern, first := AltsWritten(alts) + bad, p + 1 + |neg|;
    assert pattern[p] == LBRACKET && pattern[first] == lo && pattern[first + 1] == MINUS && pattern[first + 2] == hi;
    assert negated ==> pattern[p + 1] == CARET;
    assert NextItems(pattern, first, false) == BadItem(ERange);
    forall rd
      ensures ReadNext(pattern, p, rd) == Stop(ERange)
    {}
    Refused(alts, bad, ERange);
  }

  /** A class that does not exist. */
  lemma BadClassName(alts: seq<Alt>, negated: bool, name: seq<byte>, rest: seq<byte>)
    requires |alts| > 0 && AltsFit(alts) && !IsCharClass(name) && |name| <= 6
    requires forall k :: 0 <= k < |name| ==> name[k] != Ascii(':') && name[k] != Ascii(']')
    ensures ReadPattern(AltsWritten(alts) + ([Ascii('[')] + (if negated then [Ascii('^')] else []) + PartWritten(InName(name)) + rest)) == Failed(ECtype)
  {
    hide AltsFit, AltsWritten, ReadPattern, IsCharClass, ClassName, PartWritten, NextItems, ReadNext;
    var a, neg, text := AltsWritten(alts), if negated then [CARET] else [], PartWritten(InName(name));
    var bad := [LBRACKET] + neg + text + rest;
    var pattern, first := a + bad, |a| + 1 + |neg|;
    assert pattern[|a|] == LBRACKET && (negated ==> pattern[|a| + 1] == CARET);
    assert pattern[first..first + |text|] == text;
    NameStands(pattern, first, name);
    forall rd
      ensures ReadNext(pattern, |a|, rd) == Stop(ECtype)
    {
      BadList(pattern, |a|, negated, rd);
    }
    Refused(alts, bad, ECtype);
  }

  lemma NameStands(pattern: seq<byte>, first: nat, name: seq<byte>)
    requires Stands(pattern, first, PartWritten(InName(name))) && !IsCharClass(name) && |name| <= 6
    requires forall k :: 0 <= k < |name| ==> name[k] != Ascii(':') && name[k] != Ascii(']')
    ensures first < |pattern| && pattern[first] == LBRACKET && NextItems(pattern, first, false) == BadItem(ECtype)
  {
    hide IsCharClass, ClassName, NextItems, Stands;
    var text := PartWritten(InName(name));
    assert text == [LBRACKET, COLON] + (name + [COLON] + [RBRACKET]);
    StandsAt(pattern, first, text, 0);
    StandsAt(pattern, first, text, 1);
    StandsAt(pattern, first, text, |name| + 2);
    StandsAt(pattern, first, text, |name| + 3);
    StandsIn(pattern, first, text);
    StandBoth(pattern, first, [LBRACKET, COLON], name + [COLON] + [RBRACKET]);
    StandBoth(pattern, first + 2, name + [COLON], [RBRACKET]);
    NameRead(pattern, first + 2, name, CLASS_MAX);
    BadName(pattern, first, name);
  }

  /** A list whose first item cannot be read. */
  lemma BadList(pattern: seq<byte>, p: nat, negated: bool, rd: Reader)
    requires p + 1 < |pattern| && pattern[p] == LBRACKET && (pattern[p + 1] == CARET <==> negated)
    requires var first := if negated then p + 2 else p + 1; first < |pattern| && NextItems(pattern, first, false) == BadItem(ECtype)
    ensures ReadNext(pattern, p, rd) == Stop(ECtype)
  {
    hide NextItems;
  }

  lemma BadName(pattern: seq<byte>, first: nat, name: seq<byte>)
    requires first + 3 + |name| < |pattern| && pattern[first] == LBRACKET && pattern[first + 1] == COLON
    requires ClassName(pattern, first + 2, CLASS_MAX) == name && !IsCharClass(name)
    requires pattern[first + 2 + |name|] == COLON && pattern[first + 3 + |name|] == RBRACKET
    ensures NextItems(pattern, first, false) == BadItem(ECtype)
  {
    hide IsCharClass, ClassName;
  }

  /** A backslash at the end. */
  lemma LastBackslash(alts: seq<Alt>)
    requires |alts| > 0 && AltsFit(alts)
    ensures ReadPattern(AltsWritten(alts) + [Ascii('\\')]) == Failed(EEscape)
  {
    hide AltsFit, AltsWritten, ReadPattern;
    var p, bad := |AltsWritten(alts)|, [BACKSLASH];
    forall rd
      ensures ReadNext(AltsWritten(alts) + bad, p, rd) == Stop(EEscape)
    {}
    Refused(alts, bad, EEscape);
  }

  // ---- digits behind a backslash ----

  function Copied(text: seq<byte>, n: nat): (s: seq<byte>)
    ensures |s| == n * |text|
  {
    if n == 0 then [] else text + Copied(text, n - 1)
  }

  /** The reader inside `n` groups that have just been opened. */
  function Inside(n: nat): (rd: Reader)
    ensures |rd.stack| == n && rd.done == [] && rd.branch == []
  {
    if n == 0 then Reader([], [], []) else Opening(Inside(n - 1))
  }

  lemma {:induction false} InsideGroups(n: nat, d: nat)
    ensures Base(Inside(n).stack) == n && (InStack(Inside(n).stack, d) <==> 1 <= d <= n)
  {
    hide LevelGroups;
    NoGroups();
    if n > 0 {
      InsideGroups(n - 1, d);
      var stack := Inside(n).stack;
      assert stack[..|stack| - 1] == Inside(n - 1).stack && stack[|stack| - 1] == Frame([], []);
    }
  }

  lemma OpenedInside(n: nat)
    ensures Opened(Inside(n)) == Base(Inside(n).stack)
  {
    hide Base, LevelGroups;
    NoGroups();
  }

  lemma NoGroups()
    ensures LevelGroups([], []) == 0
  {}

  lemma {:induction false} OpensRead(pattern: seq<byte>, n: nat)
    requires n <= |pattern| && forall k :: 0 <= k < n ==> pattern[k] == OPEN
    ensures ReadFrom(pattern, 0, Reader([], [], [])) == ReadFrom(pattern, n, Inside(n))
  {
    hide ReadFrom;
    if n > 0 {
      OpensRead(pattern, n - 1);
      OpenTurn(pattern, n - 1, Inside(n - 1));
    }
  }

  /** A finished expression in `n` brackets. */
  function Nested(n: nat, nodes: seq<Node>): seq<Node> {
    if n == 0 then nodes else Nested(n - 1, [Group([Branch(nodes)])])
  }

  lemma {:induction false} ClosesRead(pattern: seq<byte>, p: nat, n: nat, nodes: seq<Node>)
    requires p + n == |pattern| && forall k :: p <= k < |pattern| ==> pattern[k] == CLOSE
    ensures ReadFrom(pattern, p, Inside(n).(branch := nodes)) == Read([Branch(Nested(n, nodes))])
    decreases n
  {
    if n > 0 {
      var rd := Inside(n).(branch := nodes);
      var out := Inside(n - 1).(branch := [Group([Branch(nodes)])]);
      assert rd.stack[..n - 1] == Inside(n - 1).stack;
      assert [] + [Group([Branch(nodes)])] == [Group([Branch(nodes)])] && [] + [Branch(nodes)] == [Branch(nodes)];
      assert Closing(rd) == out;
      ClosesRead(pattern, p + 1, n - 1, [Group([Branch(nodes)])]);
    }
  }

  lemma {:induction false} NestedHas(n: nat, nodes: seq<Node>, t: seq<byte>, i: int, j: int)
    ensures LangBranch(Nested(n, nodes), t, i, j) <==> LangBranch(nodes, t, i, j)
    decreases n
  {
    hide LangBranch, LangAlts;
    if n > 0 {
      var alts := [Branch(nodes)];
      NestedHas(n - 1, [Group(alts)], t, i, j);
      GroupHas(nodes, t, i, j);
    }
  }

  lemma GroupHas(nodes: seq<Node>, t: seq<byte>, i: int, j: int)
    ensures LangBranch([Group([Branch(nodes)])], t, i, j) <==> LangBranch(nodes, t, i, j)
  {
    hide LangBranch, LangAlts;
    var alts := [Branch(nodes)];
    assert [] + [Group(alts)] == [Group(alts)];
    BranchSnoc([], Group(alts), t, i, j);
    NoNodes(t, i, j);
    LangAltsSnoc([], Branch(nodes), t, i, j);
    assert [] + [Branch(nodes)] == alts;
    if LangBranch(nodes, t, i, j) {
      InsideText(nodes, t, i, j);
      NoNodes(t, i, i);
      assert LangBranch([], t, i, i) && Lang(Group(alts), t, i, j);
    }
    if m :| LangBranch([], t, i, m) && Lang(Group(alts), t, m, j) {
      NoNodes(t, i, m);
    }
  }

  lemma NoNodes(t: seq<byte>, i: int, j: int)
    ensures LangBranch([], t, i, j) <==> 0 <= i == j <= |t|
    ensures !LangAlts([], t, i, j)
  {}

  lemma {:induction false} InsideText(b: seq<Node>, t: seq<byte>, i: int, j: int)
    requires LangBranch(b, t, i, j)
    ensures 0 <= i <= j <= |t|
  {
    hide LangOps, LangAlts;
    if |b| > 0 {
      var m := BranchLast(b, t, i, j);
      InsideText(b[..|b| - 1], t, i, m);
    }
  }

  /** A digit with the number of a group that is still open is an ordinary character; one that no group has is an error. */
  lemma OpenReference(n: nat, d: nat, t: seq<byte>, i: int, j: int)
    requires 1 <= d <= 9
    ensures var pattern := Copied([Ascii('(')], n) + [Ascii('\\'), 48 + d] + Copied([Ascii(')')], n);
            if d <= n then Strings(pattern, t, i, j) <==> 0 <= i < j == i + 1 <= |t| && t[i] == 48 + d
            else ReadPattern(pattern) == Failed(ESubReg)
  {
    hide LangBranch, Copied, Inside, InStack, Opened, Base, LangAlts, ReadFrom;
    var pattern := Copied([OPEN], n) + [BACKSLASH, 48 + d] + Copied([CLOSE], n);
    CopiedAt(OPEN, n);
    CopiedAt(CLOSE, n);
    OpensRead(pattern, n);
    InsideGroups(n, d);
    OpenedInside(n);
    assert pattern[n] == BACKSLASH && pattern[n + 1] == 48 + d;
    DigitTurn(pattern, n, Inside(n));
    if d <= n {
      var nodes := [Exact([Literal(48 + d, true)])];
      InsideLiteral(n, Literal(48 + d, true), Peek(pattern, n + 2));
      ClosesRead(pattern, n + 2, n, nodes);
      NestedHas(n, nodes, t, i, j);
      OneLiteral(Literal(48 + d, true), t, i, j);
      OneBranch(Nested(n, nodes), t, i, j);
    }
  }

  lemma InsideLiteral(n: nat, lit: Literal, next: byte)
    ensures AddLiteral(Inside(n), lit, next) == Inside(n).(branch := [Exact([lit])])
  {}

  lemma OneBranch(nodes: seq<Node>, t: seq<byte>, i: int, j: int)
    ensures LangAlts([Branch(nodes)], t, i, j) <==> LangBranch(nodes, t, i, j)
  {
    hide LangBranch, LangAlts;
    LangAltsSnoc([], Branch(nodes), t, i, j);
    NoNodes(t, i, j);
    assert [] + [Branch(nodes)] == [Branch(nodes)];
  }

  lemma OneLiteral(lit: Literal, t: seq<byte>, i: int, j: int)
    ensures LangBranch([Exact([lit])], t, i, j) <==> 0 <= i < j == i + 1 <= |t| && t[i] == lit.c
  {
    hide LangBranch;
    BranchSnoc([], Exact([lit]), t, i, j);
    assert [] + [Exact([lit])] == [Exact([lit])];
    if m :| LangBranch([], t, i, m) && Lang(Exact([lit]), t, m, j) {
      NoNodes(t, i, m);
      OneLonger(lit, t, m, j);
    }
    if 0 <= i < j == i + 1 <= |t| && t[i] == lit.c {
      NoNodes(t, i, i);
      OneLonger(lit, t, i, j);
      assert LangBranch([], t, i, i) && Lang(Exact([lit]), t, i, j);
    }
  }

  lemma DigitTurn(pattern: seq<byte>, p: nat, rd: Reader)
    requires p + 1 < |pattern| && pattern[p] == BACKSLASH && 49 <= pattern[p + 1] <= 57
    ensures var d := pattern[p + 1] - 48;
            ReadFrom(pattern, p, rd) ==
            if d > Opened(rd) then Failed(ESubReg) else if !InStack(rd.stack, d) then Failed(Unmodelled)
            else ReadFrom(pattern, p + 2, AddLiteral(rd, Literal(pattern[p + 1], true), Peek(pattern, p + 2)))
  {
    hide Opened, InStack, AddLiteral, IsWordOp;
    assert !IsWordOp(pattern[p + 1]) by { NoWordOp(pattern[p + 1]); }
  }

  lemma NoWordOp(c: byte)
    requires 48 <= c <= 57
    ensures !IsWordOp(c)
  {}

  lemma {:induction false} CopiedAt(c: byte, n: nat)
    ensures |Copied([c], n)| == n && forall k :: 0 <= k < n ==> Copied([c], n)[k] == c
  {
    if n > 0 {
      CopiedAt(c, n - 1);
    }
  }

  /** Behind `n` finished groups, empty ones here, digits up to `n` refer back and the others are errors. */
  lemma FinishedReference(n: nat, d: nat, rest: seq<byte>)
    requires 1 <= d <= 9
    ensures ReadPattern(Copied([Ascii('('), Ascii(')')], n) + [Ascii('\\'), 48 + d] + rest) == Failed(if d <= n then Unmodelled else ESubReg)
  {
    hide Copied, ReadFrom;
    var groups := Copied([OPEN, CLOSE], n);
    var pattern := groups + [BACKSLASH, 48 + d] + rest;
    PairsAt(n);
    assert forall k :: 0 <= k < 2 * n ==> pattern[k] == groups[k];
    PairsRead(pattern, n);
    PairsGroups(n);
    assert pattern[2 * n] == BACKSLASH && pattern[2 * n + 1] == 48 + d;
    DigitTurn(pattern, 2 * n, Reader([], [], Pairs(n)));
  }

  function Pairs(n: nat): seq<Node> {
    if n == 0 then [] else Pairs(n - 1) + [Group([Branch([])])]
  }

  lemma {:induction false} PairsGroups(n: nat)
    ensures GroupsBranch(Pairs(n)) == n && Opened(Reader([], [], Pairs(n))) == n
  {
    hide GroupsAlts;
    assert GroupsAlts([]) == 0 by { EmptyGroup(); }
    if n > 0 {
      PairsGroups(n - 1);
      EmptyGroup();
      var ps := Pairs(n);
      assert ps[..|ps| - 1] == Pairs(n - 1) && ps[|ps| - 1] == Group([Branch([])]);
    }
  }

  lemma EmptyGroup()
    ensures Groups(Group([Branch([])])) == 1 && GroupsAlts([]) == 0
  {
    var alts := [Branch([])];
    assert alts[0].nodes == [] && alts[1..] == [];
    assert GroupsBranch([]) == 0;
  }

  lemma {:induction false} PairsAt(n: nat)
    ensures |Copied([OPEN, CLOSE], n)| == 2 * n
    ensures forall k :: 0 <= k < n ==> Copied([OPEN, CLOSE], n)[2 * k] == OPEN && Copied([OPEN, CLOSE], n)[2 * k + 1] == CLOSE
  {
    if n > 0 {
      PairsAt(n - 1);
      var all, less := Copied([OPEN, CLOSE], n), Copied([OPEN, CLOSE], n - 1);
      assert all[0] == OPEN && all[1] == CLOSE;
      forall k | 1 <= k < n
        ensures all[2 * k] == OPEN && all[2 * k + 1] == CLOSE
      {
        assert all[2 * k] == less[2 * (k - 1)] && all[2 * k + 1] == less[2 * (k - 1) + 1];
      }
    }
  }

  lemma {:induction false} PairsRead(pattern: seq<byte>, n: nat)
    requires 2 * n <= |pattern| && forall k :: 0 <= k < n ==> pattern[2 * k] == OPEN && pattern[2 * k + 1] == CLOSE
    ensures ReadFrom(pattern, 0, Reader([], [], [])) == ReadFrom(pattern, 2 * n, Reader([], [], Pairs(n)))
  {
    hide ReadFrom;
    if n > 0 {
      PairsRead(pattern, n - 1);
      var rd := Reader([], [], Pairs(n - 1));
      OpenTurn(pattern, 2 * n - 2, rd);
      CloseTurn(pattern, 2 * n - 2, rd, 2 * n - 1, Opening(rd));
      assert [] + [Branch([])] == [Branch([])];
    }
  }
}