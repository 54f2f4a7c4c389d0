/** Extended regular expressions as a user thinks of them: their parts, how they are written and which strings they have. */
module Notation {
  import opened Bytes
  import opened Regex

  /** What may stand behind an operand: `*`, `+`, `?`, `{m}`, `{m,}` or `{m,n}`. */
  datatype Post = Many | Most | Maybe | Exactly(m: nat) | AtLeast(m: nat) | Between(m: nat, n: nat)

  datatype Part = Single(c: byte) | Span(lo: byte, hi: byte) | InName(name: seq<byte>)

  /** An operand; in a list `]` may come first and `-` last. */
  datatype Atom =
    | Char(c: byte)
    | Quoted(c: byte)
    | Any
    | List(negated: bool, close: bool, parts: seq<Part>, hyphen: bool)
    | Brackets(alts: seq<Alt>)

  datatype Piece = Piece(atom: Atom, posts: seq<Post>)

  /** One alternative; repetition operators in front of it have nothing to repeat. */
  datatype Alt = Alt(idle: seq<Post>, pieces: seq<Piece>)

  // ---- how they are written ----

  function Ascii(c: char): (b: byte) {
    if c as int < 128 then c as int else 0
  }

  /** Decimal digits. */
  function Dec(m: nat): (s: seq<byte>) {
    (if m < 10 then [] else Dec(m / 10)) + [48 + m % 10]
  }

  function PostWritten(p: Post): seq<byte> {
    match p
    case Many => [Ascii('*')]
    case Most => [Ascii('+')]
    case Maybe => [Ascii('?')]
    case Exactly(m) => [Ascii('{')] + Dec(m) + [Ascii('}')]
    case AtLeast(m) => [Ascii('{')] + Dec(m) + [Ascii(','), Ascii('}')]
    case Between(m, n) => [Ascii('{')] + Dec(m) + [Ascii(',')] + Dec(n) + [Ascii('}')]
  }

  function PostsWritten(ps: seq<Post>): seq<byte> {
    if |ps| == 0 then [] else PostWritten(ps[0]) + PostsWritten(ps[1..])
  }

  function PartWritten(p: Part): seq<byte> {
    match p
    case Single(c) => [c]
    case Span(lo, hi) => [lo, Ascii('-'), hi]
    case InName(name) => [Ascii('['), Ascii(':')] + name + [Ascii(':'), Ascii(']')]
  }

  function PartsWritten(ps: seq<Part>): seq<byte> {
    if |ps| == 0 then [] else PartWritten(ps[0]) + PartsWritten(ps[1..])
  }

  function AtomWritten(a: Atom): seq<byte> {
    match a
    case Char(c) => [c]
    case Quoted(c) => [Ascii('\\'), c]
    case Any => [Ascii('.')]
    case List(negated, close, parts, hyphen) =>
      [Ascii('[')] + (if negated then [Ascii('^')] else []) + (if close then [Ascii(']')] else [])
      + PartsWritten(parts) + (if hyphen then [Ascii('-')] else []) + [Ascii(']')]
    case Brackets(alts) => [Ascii('(')] + AltsWritten(alts) + [Ascii(')')]
  }

  function PieceWritten(p: Piece): seq<byte> {
    AtomWritten(p.atom) + PostsWritten(p.posts)
  }

  function PiecesWritten(ps: seq<Piece>): seq<byte> {
    if |ps| == 0 then [] else PiecesWritten(ps[..|ps| - 1]) + PieceWritten(ps[|ps| - 1])
  }

  function AltWritten(a: Alt): seq<byte> {
    PostsWritten(a.idle) + PiecesWritten(a.pieces)
  }

  /** Alternatives with bars between them. */
  function AltsWritten(alts: seq<Alt>): seq<byte> {
    if |alts| == 0 then []
    else if |alts| == 1 then AltWritten(alts[0])
    else AltsWritten(alts[..|alts| - 1]) + [Ascii('|')] + AltWritten(alts[|alts| - 1])
  }

  // ---- which strings they have: `t[i..j]` is one of them ----

  /** The numbers of copies an interval allows. */
  predicate Allows(p: Post, k: nat) {
    match p
    case Many => true
    case Most => k >= 1
    case Maybe => k <= 1
    case Exactly(m) => k == m
    case AtLeast(m) => m <= k <= 32767
    case Between(m, n) => m <= k <= n
  }

  predicate InPart(p: Part, c: byte) {
    match p
    case Single(x) => c == x
    case Span(lo, hi) => lo <= c <= hi
    case InName(name) => InClass(name, c)
  }

  predicate InList(a: Atom, c: byte)
    requires a.List?
  {
    || (a.close && c == Ascii(']')) || (a.hyphen && c == Ascii('-'))
    || exists k :: 0 <= k < |a.parts| && InPart(a.parts[k], c)
  }

  ghost predicate AtomHas(a: Atom, t: seq<byte>, i: int, j: int)
    decreases a, 0, 0
  {
    0 <= i <= j <= |t| &&
    match a
    case Char(c) => j == i + 1 && t[i] == c
    case Quoted(c) => j == i + 1 && t[i] == c
    case Any => j == i + 1 && t[i] != 0
    case List(negated, _, _, _) => j == i + 1 && InList(a, t[i]) != negated
    case Brackets(alts) => exists k :: 0 <= k < |alts| && PiecesHave(alts[k].pieces, t, i, j)
  }

  /** An operand with everything that stands behind it, from left to right. */
  ghost predicate PostsHave(a: Atom, ps: seq<Post>, t: seq<byte>, i: int, j: int)
    decreases a, |ps| + 1, 0
  {
    if |ps| == 0 then AtomHas(a, t, i, j)
    else
      var init, last := ps[..|ps| - 1], ps[|ps| - 1];
      exists k: nat :: Allows(last, k) && Copies(a, init, k, t, i, j)
  }

  ghost predicate Copies(a: Atom, ps: seq<Post>, k: nat, t: seq<byte>, i: int, j: int)
    decreases a, |ps| + 1, k + 1
  {
    if k == 0 then 0 <= i == j <= |t|
    else exists m :: PostsHave(a, ps, t, i, m) && Copies(a, ps, k - 1, t, m, j)
  }

  ghost predicate PiecesHave(ps: seq<Piece>, t: seq<byte>, i: int, j: int)
    decreases ps, 0, 0
  {
    if |ps| == 0 then 0 <= i == j <= |t|
    else
      var init, last := ps[..|ps| - 1], ps[|ps| - 1];
      exists m :: PiecesHave(init, t, i, m) && PostsHave(last.atom, last.posts, t, m, j)
  }

  ghost predicate AltsHave(alts: seq<Alt>, t: seq<byte>, i: int, j: int) {
    exists k :: 0 <= k < |alts| && PiecesHave(alts[k].pieces, t, i, j)
  }

  // ---- what can be written so ----

  predicate Plain(c: byte) {
    c !in [Ascii('*'), Ascii('+'), Ascii('?'), Ascii('.'), Ascii('('), Ascii(')'), Ascii('|'), Ascii('['), Ascii('{'), Ascii('\\'), Ascii('^'), Ascii('$')]
  }

  /** Neither a digit of a back-reference nor one of the word operators. */
  predicate Quotable(c: byte) {
    && !(49 <= c <= 57)
    && c !in [Ascii('w'), Ascii('W'), Ascii('<'), Ascii('>'), Ascii('b'), Ascii('B'), Ascii('`'), Ascii('\'')]
  }

  predicate PostFits(p: Post) {
    match p
    case Exactly(m) => m <= 32767
    case AtLeast(m) => m <= 32767
    case Between(m, n) => m <= n <= 32767
    case _ => true
  }

  function FirstOf(p: Part): byte {
    match p
    case Single(c) => c
    case Span(lo, _) => lo
    case InName(_) => Ascii('[')
  }

  predicate PartFits(p: Part) {
    && FirstOf(p) != Ascii(']') && FirstOf(p) != Ascii('-')
    && (p.Span? ==> p.lo <= p.hi && p.hi != Ascii(']'))
    && (p.InName? ==> IsCharClass(p.name))
  }

  /** The list is neither empty nor taken for something else at its beginning or where `[` and `:` meet. */
  predicate ListFits(a: Atom)
    requires a.List?
  {
    && (a.close || a.hyphen || a.parts != [])
    && (!a.negated && !a.close && a.parts != [] ==> FirstOf(a.parts[0]) != Ascii('^'))
    && (forall k :: 0 <= k < |a.parts| ==> PartFits(a.parts[k]))
    && (forall k :: 0 <= k < |a.parts| - 1 ==> a.parts[k] == Single(Ascii('[')) ==> FirstOf(a.parts[k + 1]) != Ascii(':'))
  }

  predicate AtomFits(a: Atom)
    decreases a, 0
  {
    match a
    case Char(c) => Plain(c)
    case Quoted(c) => Quotable(c)
    case Any => true
    case List(_, _, _, _) => ListFits(a)
    case Brackets(alts) => |alts| > 0 && AltsFit(alts)
  }

  predicate PieceFits(p: Piece)
    decreases p, 0
  {
    AtomFits(p.atom) && forall k :: 0 <= k < |p.posts| ==> PostFits(p.posts[k])
  }

  predicate PiecesFit(ps: seq<Piece>)
    decreases ps, 0
  {
    forall k :: 0 <= k < |ps| ==> PieceFits(ps[k])
  }

  predicate AltsFit(alts: seq<Alt>)
    decreases alts, 0
  {
    forall k :: 0 <= k < |alts| ==> PiecesFit(alts[k].pieces) && forall m :: 0 <= m < |alts[k].idle| ==> alts[k].idle[m] in {Many, Most, Maybe}
  }
}
