/** What a pattern means to `regex_compile` under RE_SYNTAX_POSIX_EXTENDED: a one-pass reader that
    keeps the unfinished groups on a stack. */
module Reading {
  import opened Bytes
  import opened Regex
  import opened Code
  import opened Wrappers

  const STAR: byte := '*' as int
  const PLUS: byte := '+' as int
  const QUEST: byte := '?' as int
  const DOT: byte := '.' as int
  const OPEN: byte := '(' as int
  const CLOSE: byte := ')' as int
  const BAR: byte := '|' as int
  const LBRACE: byte := '{' as int
  const RBRACE: byte := '}' as int
  const COMMA: byte := ',' as int
  const LBRACKET: byte := '[' as int
  const RBRACKET: byte := ']' as int
  const BACKSLASH: byte := '\\' as int
  const CARET: byte := '^' as int
  const DOLLAR: byte := '$' as int
  const MINUS: byte := '-' as int
  const COLON: byte := ':' as int

  /** `Unmodelled` stands for constructs outside this model: anchors, word operators and back-references
      that match something. */
  datatype ErrorCode = NoError | EEscape | ESubReg | EBrack | EParen | ERange | ECtype | ESpace | ESize | Unmodelled

  /** A group that is still open: the finished alternatives around it and the current one. */
  datatype Frame = Frame(done: seq<Branch>, branch: seq<Node>)

  /** The open groups, outermost first, and the finished alternatives and the current one of the innermost. */
  datatype Reader = Reader(stack: seq<Frame>, done: seq<Branch>, branch: seq<Node>)

  datatype Next = Go(rd: Reader, p: nat) | Stop(error: ErrorCode)

  /** The pattern is followed by a NUL. */
  function Peek(pattern: seq<byte>, i: nat): byte {
    if i < |pattern| then pattern[i] else 0
  }

  predicate IsOp(c: byte) { c == STAR || c == PLUS || c == QUEST }

  function OpOf(c: byte): RepeatOp { if c == STAR then Star else if c == PLUS then Plus else Quest }

  predicate IsDigit(c: byte) { 48 <= c <= 57 }

  /** What makes the compiler start a new `exactn` for the character before it. */
  predicate Separates(c: byte) { IsOp(c) || c == CARET || c == LBRACE }

  /** The whole run of repetition operators at `p`. */
  function ReadOps(pattern: seq<byte>, p: nat): (ops: seq<RepeatOp>)
    requires p <= |pattern|
    ensures |ops| <= |pattern| - p
    decreases |pattern| - p
  {
    if p < |pattern| && IsOp(pattern[p]) then [OpOf(pattern[p])] + ReadOps(pattern, p + 1) else []
  }

  function ReadDigits(pattern: seq<byte>, p: nat): (digits: seq<byte>)
    requires p <= |pattern|
    ensures |digits| <= |pattern| - p
    ensures forall k :: 0 <= k < |digits| ==> IsDigit(digits[k])
    decreases |pattern| - p
  {
    if p < |pattern| && IsDigit(pattern[p]) then [pattern[p]] + ReadDigits(pattern, p + 1) else []
  }

  datatype Braces = Braces(lower: seq<byte>, upper: UpperBound, p: nat)

  predicate BoundsOk(lower: seq<byte>, upper: UpperBound) {
    var n := Interval(Skipped([]), lower, upper);
    0 <= LowerOf(n) <= UpperOf(n) <= RE_DUP_MAX
  }

  /** The interval whose opening brace lies before `p`; anything else that starts with `{` is literal. */
  function ReadBraces(pattern: seq<byte>, p: nat): (r: Option<Braces>)
    requires p <= |pattern|
    ensures r.Some? ==> p < r.value.p <= |pattern|
  {
    var lower := ReadDigits(pattern, p);
    var q := p + |lower|;
    if |lower| == 0 || q == |pattern| then None
    else if pattern[q] == COMMA then
      var digits := ReadDigits(pattern, q + 1);
      var upper := if |digits| == 0 then Unlimited else AtMost(digits);
      var e := q + 1 + |digits|;
      if e < |pattern| && pattern[e] == RBRACE && BoundsOk(lower, upper) then Some(Braces(lower, upper, e + 1)) else None
    else if pattern[q] == RBRACE && BoundsOk(lower, Same) then Some(Braces(lower, Same, q + 1))
    else None
  }

  datatype Bracket = Items(items: seq<SetItem>, p: nat) | BadBracket(error: ErrorCode)

  /** The end of a range whose last character lies at `p`. */
  predicate RangeOk(pattern: seq<byte>, lo: byte, p: nat) {
    p < |pattern| && lo <= pattern[p]
  }

  /** A hyphen at `p` continues a range: it is neither first nor last in the list. */
  predicate Continues(pattern: seq<byte>, p: nat)
    requires p < |pattern|
  {
    && p > 0 && pattern[p] == MINUS && pattern[p - 1] != LBRACKET
    && !(p > 1 && pattern[p - 2] == LBRACKET && pattern[p - 1] == CARET)
    && Peek(pattern, p + 1) != RBRACKET
  }

  const CLASS_MAX := 6

  /** The letters of a class name, up to a colon, a bracket or the last character of the pattern, and no more than there is
      `room` for. */
  function ClassName(pattern: seq<byte>, p: nat, room: nat): (name: seq<byte>)
    requires p < |pattern|
    ensures p + |name| < |pattern|
    decreases room
  {
    var c := pattern[p];
    if c == COLON || c == RBRACKET || p + 1 == |pattern| || room == 0 then [] else [c] + ClassName(pattern, p + 1, room - 1)
  }

  datatype ClassRead = ClassAt(name: seq<byte>, p: nat) | NoClass | BadClass(error: ErrorCode)

  /** What `[:` before `p` starts: a class, or two ordinary characters. */
  function ReadClass(pattern: seq<byte>, p: nat): (r: ClassRead)
    requires p <= |pattern|
    ensures r.ClassAt? ==> p < r.p <= |pattern|
    ensures r.BadClass? ==> r.error == EBrack || r.error == ECtype
  {
    if p == |pattern| then BadClass(EBrack)
    else
      var name := ClassName(pattern, p, CLASS_MAX);
      var q := p + |name|;
      if pattern[q] == COLON && Peek(pattern, q + 1) == RBRACKET then
        if !IsCharClass(name) then BadClass(ECtype) else if q + 2 == |pattern| then BadClass(EBrack) else ClassAt(name, q + 2)
      else NoClass
  }

  /** The items read in one turn, where they end, and whether a class counts as the last thing before a hyphen there. */
  datatype ItemsRead = ItemsRead(items: seq<SetItem>, p: nat, hadClass: bool) | BadItem(error: ErrorCode)

  /** One turn of the loop over the list of a bracket expression; a hyphen right behind a class, or behind ranges that follow
      one, is an error unless it is the last character. */
  function NextItems(pattern: seq<byte>, p: nat, hadClass: bool): (r: ItemsRead)
    requires p < |pattern|
    ensures r.ItemsRead? ==> p < r.p <= |pattern| && 1 <= |r.items| <= 2
    ensures r.BadItem? ==> r.error == EBrack || r.error == ERange || r.error == ECtype
  {
    var c := pattern[p];
    if hadClass && c == MINUS && Peek(pattern, p + 1) != RBRACKET then BadItem(ERange)
    else if Continues(pattern, p) then
      if RangeOk(pattern, pattern[p - 1], p + 1) then ItemsRead([More(pattern[p - 1], pattern[p + 1])], p + 2, hadClass)
      else BadItem(ERange)
    else if Peek(pattern, p + 1) == MINUS && Peek(pattern, p + 2) != RBRACKET then
      if RangeOk(pattern, c, p + 2) then ItemsRead([Range(c, pattern[p + 2])], p + 3, hadClass) else BadItem(ERange)
    else if c == LBRACKET && Peek(pattern, p + 1) == COLON then
      match ReadClass(pattern, p + 2)
      case ClassAt(name, e) => ItemsRead([Class(name)], e, true)
      case NoClass => ItemsRead([One(LBRACKET), One(COLON)], p + 2, false)
      case BadClass(error) => BadItem(error)
    else ItemsRead([One(c)], p + 1, false)
  }

  /** The rest of a bracket expression whose list starts at `first`. */
  function ReadItems(pattern: seq<byte>, first: nat, p: nat, items: seq<SetItem>, hadClass: bool): (r: Bracket)
    requires first <= p
    ensures r.Items? ==> p < r.p <= |pattern|
    ensures r.BadBracket? ==> r.error == EBrack || r.error == ERange || r.error == ECtype
    decreases |pattern| - p
  {
    if p >= |pattern| then BadBracket(EBrack)
    else if pattern[p] == RBRACKET && p != first then Items(items, p + 1)
    else
      match NextItems(pattern, p, hadClass)
      case ItemsRead(more, e, had) => ReadItems(pattern, first, e, items + more, had)
      case BadItem(error) => BadBracket(error)
  }

  // ---- groups are numbered as they open ----

  function LevelGroups(done: seq<Branch>, branch: seq<Node>): nat {
    GroupsAlts(done) + GroupsBranch(branch)
  }

  /** The number of groups that open before the innermost open group's alternatives. */
  function Base(stack: seq<Frame>): nat {
    if |stack| == 0 then 0
    else
      var init, last := stack[..|stack| - 1], stack[|stack| - 1];
      Base(init) + LevelGroups(last.done, last.branch) + 1
  }

  function Opened(rd: Reader): nat {
    Base(rd.stack) + LevelGroups(rd.done, rd.branch)
  }

  /** `group_in_compile_stack`. */
  predicate InStack(stack: seq<Frame>, n: nat) {
    |stack| > 0 && (Base(stack) == n || InStack(stack[..|stack| - 1], n))
  }

  // ---- one construct ----

  /** There is something a repetition operator can apply to. */
  predicate HasLast(branch: seq<Node>) {
    |branch| > 0 && !branch[|branch| - 1].Skipped?
  }

  function Push(rd: Reader, n: Node): Reader {
    rd.(branch := rd.branch + [n])
  }

  function ReplaceLast(rd: Reader, n: Node): Reader
    requires |rd.branch| > 0
  {
    rd.(branch := rd.branch[..|rd.branch| - 1] + [n])
  }

  /** The character goes into the `exactn` just before it, if there is one with room and no operator follows. */
  predicate Joins(branch: seq<Node>, next: byte) {
    && |branch| > 0 && branch[|branch| - 1].Exact? && |branch[|branch| - 1].lits| != 255 && !Separates(next)
  }

  function AddLiteral(rd: Reader, lit: Literal, next: byte): Reader {
    if Joins(rd.branch, next) then ReplaceLast(rd, Exact(rd.branch[|rd.branch| - 1].lits + [lit]))
    else Push(rd, Exact([lit]))
  }

  function Repeated(rd: Reader, ops: seq<RepeatOp>): Reader {
    if HasLast(rd.branch) then ReplaceLast(rd, Repeat(rd.branch[|rd.branch| - 1], ops)) else Push(rd, Skipped(ops))
  }

  /** An interval with nothing before it applies to the empty expression. */
  function Counted(rd: Reader, lower: seq<byte>, upper: UpperBound): Reader {
    if HasLast(rd.branch) then ReplaceLast(rd, Interval(rd.branch[|rd.branch| - 1], lower, upper))
    else Push(rd, Interval(Skipped([]), lower, upper))
  }

  function Opening(rd: Reader): Reader {
    Reader(rd.stack + [Frame(rd.done, rd.branch)], [], [])
  }

  function Closing(rd: Reader): Reader
    requires |rd.stack| > 0
  {
    var frame := rd.stack[|rd.stack| - 1];
    Reader(rd.stack[..|rd.stack| - 1], frame.done, frame.branch + [Group(rd.done + [Branch(rd.branch)])])
  }

  function Alternative(rd: Reader): Reader {
    Reader(rd.stack, rd.done + [Branch(rd.branch)], [])
  }

  predicate IsWordOp(c: byte) {
    c in ['w' as int, 'W' as int, '<' as int, '>' as int, 'b' as int, 'B' as int, '`' as int, '\'' as int]
  }

  /** A closing bracket without an opening one is an ordinary character. */
  function Unmatched(rd: Reader, next: byte): Reader {
    AddLiteral(if |rd.done| > 0 then Push(rd, Stray) else rd, Literal(CLOSE, false), next)
  }

  /** The character behind a backslash. */
  function NextQuoted(pattern: seq<byte>, p: nat, rd: Reader): (r: Next)
    requires p < |pattern|
    ensures r.Go? ==> p < r.p <= |pattern|
  {
    var c := pattern[p];
    if IsWordOp(c) then Stop(Unmodelled)
    else if IsDigit(c) && c != 48 && c - 48 > Opened(rd) then Stop(ESubReg)
    else if IsDigit(c) && c != 48 && !InStack(rd.stack, c - 48) then Stop(Unmodelled)
    else Go(AddLiteral(rd, Literal(c, true), Peek(pattern, p + 1)), p + 1)
  }

  function NextBracket(pattern: seq<byte>, p: nat, rd: Reader): (r: Next)
    requires p <= |pattern|
    ensures r.Go? ==> p < r.p <= |pattern|
  {
    if p == |pattern| then Stop(EBrack)
    else
      var negated := pattern[p] == CARET;
      var first := if negated then p + 1 else p;
      match ReadItems(pattern, first, first, [], false)
      case Items(items, e) => Go(Push(rd, CharSet(negated, items)), e)
      case BadBracket(error) => Stop(error)
  }

  /** One turn of the main loop of `regex_compile`. */
  function ReadNext(pattern: seq<byte>, p: nat, rd: Reader): (r: Next)
    requires p < |pattern|
    ensures r.Go? ==> p < r.p <= |pattern|
  {
    var c := pattern[p];
    if c == CARET || c == DOLLAR then Stop(Unmodelled)
    else if IsOp(c) then
      var ops := ReadOps(pattern, p);
      Go(Repeated(rd, ops), p + |ops|)
    else if c == DOT then Go(Push(rd, AnyChar), p + 1)
    else if c == LBRACKET then NextBracket(pattern, p + 1, rd)
    else if c == OPEN then Go(Opening(rd), p + 1)
    else if c == CLOSE then
      Go(if |rd.stack| > 0 then Closing(rd) else Unmatched(rd, Peek(pattern, p + 1)), p + 1)
    else if c == BAR then Go(Alternative(rd), p + 1)
    else if c == LBRACE then
      match ReadBraces(pattern, p + 1)
      case Some(b) => Go(Counted(rd, b.lower, b.upper), b.p)
      case None => Go(AddLiteral(rd, Literal(c, false), Peek(pattern, p + 1)), p + 1)
    else if c == BACKSLASH then
      if p + 1 == |pattern| then Stop(EEscape) else NextQuoted(pattern, p + 1, rd)
    else Go(AddLiteral(rd, Literal(c, false), Peek(pattern, p + 1)), p + 1)
  }

  datatype ReadResult = Read(alts: seq<Branch>) | Failed(error: ErrorCode)

  function ReadFrom(pattern: seq<byte>, p: nat, rd: Reader): ReadResult
    requires p <= |pattern|
    decreases |pattern| - p
  {
    if p == |pattern| then
      if |rd.stack| > 0 then Failed(EParen) else Read(rd.done + [Branch(rd.branch)])
    else
      match ReadNext(pattern, p, rd)
      case Go(rd', p') => ReadFrom(pattern, p', rd')
      case Stop(error) => Failed(error)
  }

  /** The expression a pattern stands for, or the error code. */
  function ReadPattern(pattern: seq<byte>): ReadResult {
    ReadFrom(pattern, 0, Reader([], [], []))
  }

  // ---- the reader loses nothing: the expression can be written out again ----

  function LiteralText(lit: Literal): seq<byte> {
    if lit.quoted then [BACKSLASH, lit.c] else [lit.c]
  }

  function LiteralsText(lits: seq<Literal>): seq<byte> {
    if |lits| == 0 then [] else LiteralsText(lits[..|lits| - 1]) + LiteralText(lits[|lits| - 1])
  }

  function OpText(op: RepeatOp): byte {
    match op case Star => STAR case Plus => PLUS case Quest => QUEST
  }

  function OpsText(ops: seq<RepeatOp>): seq<byte> {
    if |ops| == 0 then [] else [OpText(ops[0])] + OpsText(ops[1..])
  }

  function ItemText(item: SetItem): seq<byte> {
    match item
    case One(c) => [c]
    case Range(lo, hi) => [lo, MINUS, hi]
    case More(_, hi) => [MINUS, hi]
    case Class(name) => [LBRACKET, COLON] + name + [COLON, RBRACKET]
  }

  function ItemsText(items: seq<SetItem>): seq<byte> {
    if |items| == 0 then [] else ItemsText(items[..|items| - 1]) + ItemText(items[|items| - 1])
  }

  function BracesText(lower: seq<byte>, upper: UpperBound): seq<byte> {
    [LBRACE] + lower + UpperText(upper) + [RBRACE]
  }

  function NodeText(n: Node): seq<byte> {
    match n
    case Exact(lits) => LiteralsText(lits)
    case AnyChar => [DOT]
    case CharSet(negated, items) => [LBRACKET] + (if negated then [CARET] else []) + ItemsText(items) + [RBRACKET]
    case Group(alts) => [OPEN] + AltsText(alts) + [CLOSE]
    case Repeat(operand, ops) => NodeText(operand) + OpsText(ops)
    case Interval(operand, lower, upper) => NodeText(operand) + BracesText(lower, upper)
    case Skipped(ops) => OpsText(ops)
    case Stray => []
  }

  function BranchText(b: seq<Node>): seq<byte> {
    if |b| == 0 then [] else BranchText(b[..|b| - 1]) + NodeText(b[|b| - 1])
  }

  function AltsText(alts: seq<Branch>): seq<byte> {
    if |alts| == 0 then []
    else BranchText(alts[0].nodes) + if |alts| == 1 then [] else [BAR] + AltsText(alts[1..])
  }

  /** Finished alternatives, each with the bar behind it. */
  function DoneText(done: seq<Branch>): seq<byte> {
    if |done| == 0 then [] else DoneText(done[..|done| - 1]) + BranchText(done[|done| - 1].nodes) + [BAR]
  }

  function StackText(stack: seq<Frame>): seq<byte> {
    if |stack| == 0 then []
    else
      var init, last := stack[..|stack| - 1], stack[|stack| - 1];
      StackText(init) + DoneText(last.done) + BranchText(last.branch) + [OPEN]
  }

  function ReaderText(rd: Reader): seq<byte> {
    StackText(rd.stack) + DoneText(rd.done) + BranchText(rd.branch)
  }

  lemma AltsTextStep(alts: seq<Branch>)
    requires |alts| > 0
    ensures AltsText(alts) == BranchText(alts[0].nodes) + if |alts| == 1 then [] else [BAR] + AltsText(alts[1..])
  {
    hide BranchText;
  }

  lemma NoneDone()
    ensures DoneText([]) == []
  {}

  lemma Joined(a: seq<byte>, b: seq<byte>, c: seq<byte>, d: seq<byte>)
    ensures a + (b + (c + d)) == a + b + c + d && [] + a == a && a + [] == a
  {}

  lemma {:induction false} AltsTextSnoc(done: seq<Branch>, b: Branch)
    ensures AltsText(done + [b]) == DoneText(done) + BranchText(b.nodes)
  {
    hide AltsText, DoneText, BranchText;
    var all := done + [b];
    AltsTextStep(all);
    if |done| == 0 {
      assert all == [b];
      NoneDone();
      Joined(BranchText(b.nodes), [], [], []);
    } else {
      DoneTextCons(done);
      AltsTextSnoc(done[1..], b);
      assert all[1..] == done[1..] + [b] && all[0] == done[0];
      Joined(BranchText(done[0].nodes), [BAR], DoneText(done[1..]), BranchText(b.nodes));
    }
  }

  lemma DoneTextStep(done: seq<Branch>)
    requires |done| > 0
    ensures DoneText(done) == DoneText(done[..|done| - 1]) + BranchText(done[|done| - 1].nodes) + [BAR]
  {
    hide BranchText;
  }

  lemma {:induction false} DoneTextCons(done: seq<Branch>)
    requires |done| > 0
    ensures DoneText(done) == BranchText(done[0].nodes) + [BAR] + DoneText(done[1..])
  {
    hide DoneText, BranchText;
    DoneTextStep(done);
    NoneDone();
    if |done| > 1 {
      var init, rest := done[..|done| - 1], done[1..];
      DoneTextCons(init);
      DoneTextStep(rest);
      assert init[1..] == rest[..|rest| - 1] && rest[|rest| - 1] == done[|done| - 1];
      Regroup(BranchText(done[0].nodes), [BAR], DoneText(init[1..]), BranchText(done[|done| - 1].nodes));
    } else {
      assert done[..0] == [] && done[1..] == [];
      Joined(BranchText(done[0].nodes) + [BAR], [], [], []);
    }
  }

  lemma Regroup(a: seq<byte>, b: seq<byte>, c: seq<byte>, d: seq<byte>)
    ensures a + b + c + d + b == a + b + (c + d + b)
  {}

  lemma {:induction false} ReadOpsText(pattern: seq<byte>, p: nat)
    requires p <= |pattern|
    ensures var ops := ReadOps(pattern, p);
            OpsText(ops) == pattern[p..p + |ops|] && !IsOp(Peek(pattern, p + |ops|))
    decreases |pattern| - p
  {
    if p < |pattern| && IsOp(pattern[p]) {
      ReadOpsText(pattern, p + 1);
      var ops := ReadOps(pattern, p);
      assert ops[1..] == ReadOps(pattern, p + 1);
      assert pattern[p..p + |ops|] == [pattern[p]] + pattern[p + 1..p + |ops|];
    }
  }

  lemma {:induction false} ReadDigitsText(pattern: seq<byte>, p: nat)
    requires p <= |pattern|
    ensures var digits := ReadDigits(pattern, p);
            digits == pattern[p..p + |digits|] && !IsDigit(Peek(pattern, p + |digits|))
    decreases |pattern| - p
  {
    if p < |pattern| && IsDigit(pattern[p]) {
      ReadDigitsText(pattern, p + 1);
      var digits := ReadDigits(pattern, p);
      assert pattern[p..p + |digits|] == [pattern[p]] + pattern[p + 1..p + |digits|];
    }
  }

  function UpperText(upper: UpperBound): seq<byte> {
    match upper
    case Same => []
    case Unlimited => [COMMA]
    case AtMost(digits) => [COMMA] + digits
  }

  lemma JoinBraces(pattern: seq<byte>, p: nat, q: nat, e: nat, lower: seq<byte>, upper: UpperBound)
    requires 0 < p <= q < e <= |pattern| && pattern[p - 1] == LBRACE && pattern[e - 1] == RBRACE
    requires pattern[p..q] == lower && pattern[q..e - 1] == UpperText(upper)
    ensures BracesText(lower, upper) == pattern[p - 1..e]
  {
    hide UpperText;
    assert pattern[p - 1..e] == [LBRACE] + pattern[p..q] + pattern[q..e - 1] + [RBRACE];
  }

  lemma ReadBracesText(pattern: seq<byte>, p: nat)
    requires 0 < p <= |pattern| && pattern[p - 1] == LBRACE && ReadBraces(pattern, p).Some?
    ensures var b := ReadBraces(pattern, p).value;
            BracesText(b.lower, b.upper) == pattern[p - 1..b.p] && BoundsOk(b.lower, b.upper)
  {
    hide ReadDigits, BoundsOk, IsDigit, BracesText;
    var b := ReadBraces(pattern, p).value;
    ReadDigitsText(pattern, p);
    var q := p + |b.lower|;
    if pattern[q] == COMMA {
      ReadDigitsText(pattern, q + 1);
      assert pattern[q..b.p - 1] == [COMMA] + pattern[q + 1..b.p - 1];
    }
    JoinBraces(pattern, p, q, b.p, b.lower, b.upper);
  }

  lemma ItemsTextSnoc(items: seq<SetItem>, item: SetItem)
    ensures ItemsText(items + [item]) == ItemsText(items) + ItemText(item)
  {
    assert (items + [item])[..|items|] == items;
  }

  lemma NextItemsText(pattern: seq<byte>, p: nat, hadClass: bool)
    requires 0 < p < |pattern| && NextItems(pattern, p, hadClass).ItemsRead?
    ensures var r := NextItems(pattern, p, hadClass); ItemsText(r.items) == pattern[p..r.p]
  {
    hide ItemsText, ReadClass;
    var r := NextItems(pattern, p, hadClass);
    OneItemText(r.items[0]);
    if |r.items| == 2 {
      TwoItemsText(LBRACKET, COLON);
    } else if r.items[0].Class? {
      ReadClassText(pattern, p + 2);
      assert pattern[p..r.p] == [LBRACKET, COLON] + pattern[p + 2..r.p];
    }
  }

  lemma OneItemText(item: SetItem)
    ensures ItemsText([item]) == ItemText(item)
  {
    hide ItemText;
    NoItemsText();
    assert [item][..0] == [];
  }

  lemma TwoItemsText(a: byte, b: byte)
    ensures ItemsText([One(a), One(b)]) == [a, b]
  {
    hide ItemsText;
    OneItemText(One(a));
    ItemsTextSnoc([One(a)], One(b));
    assert [One(a)] + [One(b)] == [One(a), One(b)];
  }

  lemma {:induction false} ClassNameText(pattern: seq<byte>, p: nat, room: nat)
    requires p < |pattern|
    ensures var name := ClassName(pattern, p, room); name == pattern[p..p + |name|]
    decreases room
  {
    var name := ClassName(pattern, p, room);
    if |name| > 0 {
      ClassNameText(pattern, p + 1, room - 1);
      assert pattern[p..p + |name|] == [pattern[p]] + pattern[p + 1..p + |name|];
    }
  }

  lemma ReadClassText(pattern: seq<byte>, p: nat)
    requires p <= |pattern| && ReadClass(pattern, p).ClassAt?
    ensures var r := ReadClass(pattern, p); pattern[p..r.p] == r.name + [COLON, RBRACKET]
  {
    hide IsCharClass, ClassName;
    ClassNameText(pattern, p, CLASS_MAX);
  }

  lemma ItemsTextAppend(a: seq<SetItem>, b: seq<SetItem>)
    requires |b| <= 2
    ensures ItemsText(a + b) == ItemsText(a) + ItemsText(b)
  {
    hide ItemsText, ItemText;
    NoItemsText();
    if |b| == 0 {
      assert a + b == a;
    } else if |b| == 1 {
      assert b == [b[0]];
      ItemsTextSnoc(a, b[0]);
      OneItemText(b[0]);
    } else {
      assert a + b == (a + [b[0]]) + [b[1]] && b == [b[0]] + [b[1]];
      ItemsTextSnoc(a, b[0]);
      ItemsTextSnoc(a + [b[0]], b[1]);
      OneItemText(b[0]);
      ItemsTextSnoc([b[0]], b[1]);
    }
  }

  lemma {:induction false} ReadItemsText(pattern: seq<byte>, first: nat, p: nat, items: seq<SetItem>, hadClass: bool)
    requires 0 < first <= p <= |pattern| && ItemsText(items) == pattern[first..p] && ReadItems(pattern, first, p, items, hadClass).Items?
    ensures var r := ReadItems(pattern, first, p, items, hadClass);
            ItemsText(r.items) + [RBRACKET] == pattern[first..r.p]
    decreases |pattern| - p
  {
    hide ItemsText, ItemText, NextItems;
    if pattern[p] == RBRACKET && p != first {
      assert pattern[first..p + 1] == pattern[first..p] + [RBRACKET];
    } else {
      NextItemsText(pattern, p, hadClass);
      var r := NextItems(pattern, p, hadClass);
      assert pattern[first..r.p] == pattern[first..p] + pattern[p..r.p];
      ItemsTextAppend(items, r.items);
      ReadItemsText(pattern, first, r.p, items + r.items, r.hadClass);
    }
  }

  lemma BranchTextSnoc(b: seq<Node>, n: Node)
    ensures BranchText(b + [n]) == BranchText(b) + NodeText(n)
  {
    assert (b + [n])[..|b|] == b;
  }

  lemma PushText(rd: Reader, n: Node)
    ensures ReaderText(Push(rd, n)) == ReaderText(rd) + NodeText(n)
  {
    hide NodeText, BranchText;
    BranchTextSnoc(rd.branch, n);
  }

  lemma ReplaceLastText(rd: Reader, n: Node, more: seq<byte>)
    requires |rd.branch| > 0 && NodeText(n) == NodeText(rd.branch[|rd.branch| - 1]) + more
    ensures ReaderText(ReplaceLast(rd, n)) == ReaderText(rd) + more
  {
    hide NodeText, BranchText;
    var init, last := rd.branch[..|rd.branch| - 1], rd.branch[|rd.branch| - 1];
    assert rd.branch == init + [last];
    BranchTextSnoc(init, last);
    BranchTextSnoc(init, n);
  }

  lemma AddLiteralText(rd: Reader, lit: Literal, next: byte)
    ensures ReaderText(AddLiteral(rd, lit, next)) == ReaderText(rd) + LiteralText(lit)
  {
    hide ReaderText, LiteralsText, LiteralText;
    if Joins(rd.branch, next) {
      var lits := rd.branch[|rd.branch| - 1].lits;
      LiteralsTextSnoc(lits, lit);
      ReplaceLastText(rd, Exact(lits + [lit]), LiteralText(lit));
    } else {
      LiteralsTextSnoc([], lit);
      assert [] + [lit] == [lit];
      PushText(rd, Exact([lit]));
    }
  }

  lemma LiteralsTextSnoc(lits: seq<Literal>, lit: Literal)
    ensures LiteralsText(lits + [lit]) == LiteralsText(lits) + LiteralText(lit)
    ensures LiteralsText([]) == []
  {
    assert (lits + [lit])[..|lits|] == lits;
  }

  lemma ClosedText(rd: Reader)
    requires |rd.stack| > 0
    ensures ReaderText(Closing(rd)) == ReaderText(rd) + [CLOSE]
  {
    hide NodeText, BranchText, DoneText;
    var frame, n := rd.stack[|rd.stack| - 1], Group(rd.done + [Branch(rd.branch)]);
    BranchTextSnoc(frame.branch, n);
    GroupText(rd.done, rd.branch);
  }

  lemma GroupText(done: seq<Branch>, branch: seq<Node>)
    ensures NodeText(Group(done + [Branch(branch)])) == [OPEN] + DoneText(done) + BranchText(branch) + [CLOSE]
  {
    AltsTextSnoc(done, Branch(branch));
  }

  lemma OpeningText(rd: Reader)
    ensures ReaderText(Opening(rd)) == ReaderText(rd) + [OPEN]
  {
    hide BranchText, DoneText;
    assert Opening(rd).stack[..|rd.stack|] == rd.stack;
    EmptyText();
  }

  lemma EmptyText()
    ensures BranchText([]) == [] && DoneText([]) == []
  {}

  lemma AlternativeText(rd: Reader)
    ensures ReaderText(Alternative(rd)) == ReaderText(rd) + [BAR]
  {
    hide BranchText;
    var alt := Branch(rd.branch);
    assert (rd.done + [alt])[..|rd.done|] == rd.done;
    EmptyText();
  }

  lemma BracketText(pattern: seq<byte>, p: nat, rd: Reader)
    requires 0 < p <= |pattern| && pattern[p - 1] == LBRACKET && NextBracket(pattern, p, rd).Go?
    ensures var r := NextBracket(pattern, p, rd);
            ReaderText(r.rd) == ReaderText(rd) + pattern[p - 1..r.p]
  {
    hide ReaderText, ItemsText;
    var r := NextBracket(pattern, p, rd);
    var negated := pattern[p] == CARET;
    var first := if negated then p + 1 else p;
    NoItemsText();
    assert pattern[first..first] == [];
    ReadItemsText(pattern, first, first, [], false);
    var items := ReadItems(pattern, first, first, [], false).items;
    PushText(rd, CharSet(negated, items));
    assert pattern[p - 1..r.p] == [LBRACKET] + (if negated then [CARET] else []) + pattern[first..r.p];
  }

  lemma NoItemsText()
    ensures ItemsText([]) == []
  {}

  lemma QuotedText(pattern: seq<byte>, p: nat, rd: Reader)
    requires 0 < p < |pattern| && pattern[p - 1] == BACKSLASH && NextQuoted(pattern, p, rd).Go?
    ensures var r := NextQuoted(pattern, p, rd);
            ReaderText(r.rd) == ReaderText(rd) + pattern[p - 1..r.p]
  {
    hide ReaderText;
    AddLiteralText(rd, Literal(pattern[p], true), Peek(pattern, p + 1));
    assert pattern[p - 1..p + 1] == [BACKSLASH, pattern[p]];
  }

  lemma RepeatedText(rd: Reader, ops: seq<RepeatOp>)
    ensures ReaderText(Repeated(rd, ops)) == ReaderText(rd) + OpsText(ops)
  {
    hide ReaderText, OpsText;
    if HasLast(rd.branch) {
      ReplaceLastText(rd, Repeat(rd.branch[|rd.branch| - 1], ops), OpsText(ops));
    } else {
      PushText(rd, Skipped(ops));
    }
  }

  lemma CountedText(rd: Reader, lower: seq<byte>, upper: UpperBound)
    ensures ReaderText(Counted(rd, lower, upper)) == ReaderText(rd) + BracesText(lower, upper)
  {
    hide ReaderText, BracesText;
    if HasLast(rd.branch) {
      ReplaceLastText(rd, Interval(rd.branch[|rd.branch| - 1], lower, upper), BracesText(lower, upper));
    } else {
      assert NodeText(Skipped([])) == [];
      PushText(rd, Interval(Skipped([]), lower, upper));
    }
  }

  lemma UnmatchedText(rd: Reader, next: byte)
    ensures ReaderText(Unmatched(rd, next)) == ReaderText(rd) + [CLOSE]
  {
    hide ReaderText;
    PushText(rd, Stray);
    AddLiteralText(if |rd.done| > 0 then Push(rd, Stray) else rd, Literal(CLOSE, false), next);
  }

  /** Each turn reads the characters it moves over. */
  lemma ReadNextText(pattern: seq<byte>, p: nat, rd: Reader)
    requires p < |pattern| && ReadNext(pattern, p, rd).Go?
    ensures var r := ReadNext(pattern, p, rd);
            ReaderText(r.rd) == ReaderText(rd) + pattern[p..r.p]
  {
    hide ReaderText, ReadBraces, NextBracket, NextQuoted, Unmatched, AddLiteral, Repeated, Counted, Opening, Closing, Alternative,
         ReadOps, OpsText, BracesText, IsOp, Push;
    var c := pattern[p];
    assert pattern[p..p + 1] == [c];
    var lit := Literal(c, false);
    if c == CARET || c == DOLLAR {
    } else if IsOp(c) {
      RepeatedText(rd, ReadOps(pattern, p));
      ReadOpsText(pattern, p);
    } else if c == DOT {
      PushText(rd, AnyChar);
    } else if c == LBRACKET {
      BracketText(pattern, p + 1, rd);
    } else if c == OPEN {
      OpeningText(rd);
    } else if c == CLOSE {
      if |rd.stack| > 0 {
        ClosedText(rd);
      } else {
        UnmatchedText(rd, Peek(pattern, p + 1));
      }
    } else if c == BAR {
      AlternativeText(rd);
    } else if c == LBRACE && ReadBraces(pattern, p + 1).Some? {
      var b := ReadBraces(pattern, p + 1).value;
      CountedText(rd, b.lower, b.upper);
      ReadBracesText(pattern, p + 1);
    } else if c == BACKSLASH {
      QuotedText(pattern, p + 1, rd);
    } else {
      AddLiteralText(rd, lit, Peek(pattern, p + 1));
    }
  }

  lemma {:induction false} ReadFromText(pattern: seq<byte>, p: nat, rd: Reader)
    requires p <= |pattern| && ReaderText(rd) == pattern[..p] && ReadFrom(pattern, p, rd).Read?
    ensures AltsText(ReadFrom(pattern, p, rd).alts) == pattern
    decreases |pattern| - p
  {
    if p == |pattern| {
      AltsTextSnoc(rd.done, Branch(rd.branch));
      assert pattern[..p] == pattern;
    } else {
      hide ReaderText, ReadNext;
      ReadNextText(pattern, p, rd);
      var r := ReadNext(pattern, p, rd);
      assert pattern[..r.p] == pattern[..p] + pattern[p..r.p];
      ReadFromText(pattern, r.p, r.rd);
    }
  }

  /** Writing out the expression read from a pattern gives the pattern back. */
  lemma ReadText(pattern: seq<byte>)
    requires ReadPattern(pattern).Read?
    ensures AltsText(ReadPattern(pattern).alts) == pattern
  {
    ReadFromText(pattern, 0, Reader([], [], []));
  }
}
