/** The bytes that `regex_compile` leaves in the buffer for each expression. */
module Code {
  import opened Bytes
  import opened Opcodes
  import opened Regex

  const MAX_REGNUM := 255

  // ---- bitmaps of bracket expressions ----

  /** SET_LIST_BIT. */
  function SetBit(bm: seq<byte>, c: nat): (r: seq<byte>)
    requires |bm| == 32 && c < 256
    ensures |r| == 32
  {
    bm[c / 8 := OrByte(bm[c / 8], c % 8)]
  }

  /** The loop of `compile_range`. */
  function SetRange(bm: seq<byte>, lo: nat, hi: nat): (r: seq<byte>)
    requires |bm| == 32 && hi < 256
    ensures |r| == 32
    decreases hi + 1 - lo
  {
    if lo > hi then bm else SetRange(SetBit(bm, lo), lo + 1, hi)
  }

  /** The characters from `ch` on that are in a class. */
  function SetClass(bm: seq<byte>, name: seq<byte>, ch: nat): (r: seq<byte>)
    requires |bm| == 32 && ch <= 256
    ensures |r| == 32
    decreases 256 - ch
  {
    if ch == 256 then bm else SetClass(if InClass(name, ch) then SetBit(bm, ch) else bm, name, ch + 1)
  }

  function SetOne(bm: seq<byte>, item: SetItem): (r: seq<byte>)
    requires |bm| == 32
    ensures |r| == 32
  {
    match item
    case One(c) => SetBit(bm, c)
    case Range(lo, hi) => SetRange(bm, lo, hi)
    case More(lo, hi) => SetRange(bm, lo, hi)
    case Class(name) => SetClass(bm, name, 0)
  }

  function Bitmap(items: seq<SetItem>): (r: seq<byte>)
    ensures |r| == 32
  {
    if |items| == 0 then seq(32, _ => 0)
    else SetOne(Bitmap(items[..|items| - 1]), items[|items| - 1])
  }

  /** Zero bytes at the end of a bitmap are dropped. */
  function Trim(bm: seq<byte>): (r: seq<byte>)
    ensures r <= bm
  {
    if |bm| > 0 && bm[|bm| - 1] == 0 then Trim(bm[..|bm| - 1]) else bm
  }

  predicate InBitmap(bm: seq<byte>, c: nat) {
    c < 8 * |bm| && HasBit(bm[c / 8], c % 8)
  }

  lemma SetBitMeaning(bm: seq<byte>, c: nat, x: nat)
    requires |bm| == 32 && c < 256 && x < 256
    ensures InBitmap(SetBit(bm, c), x) <==> x == c || InBitmap(bm, x)
  {
    assert x == 8 * (x / 8) + x % 8 && c == 8 * (c / 8) + c % 8;
  }

  lemma {:induction false} SetRangeMeaning(bm: seq<byte>, lo: nat, hi: nat, x: nat)
    requires |bm| == 32 && hi < 256 && x < 256
    ensures InBitmap(SetRange(bm, lo, hi), x) <==> lo <= x <= hi || InBitmap(bm, x)
    decreases hi + 1 - lo
  {
    if lo <= hi {
      SetBitMeaning(bm, lo, x);
      SetRangeMeaning(SetBit(bm, lo), lo + 1, hi, x);
    }
  }

  lemma {:induction false} SetClassMeaning(bm: seq<byte>, name: seq<byte>, ch: nat, x: byte)
    requires |bm| == 32 && ch <= 256
    ensures InBitmap(SetClass(bm, name, ch), x) <==> (ch <= x && InClass(name, x)) || InBitmap(bm, x)
    decreases 256 - ch
  {
    hide InClass, SetBit, InBitmap;
    if ch < 256 {
      SetBitMeaning(bm, ch, x);
      SetClassMeaning(if InClass(name, ch) then SetBit(bm, ch) else bm, name, ch + 1, x);
    }
  }

  lemma {:induction false} BitmapBits(items: seq<SetItem>, x: byte)
    ensures InBitmap(Bitmap(items), x) <==> InItems(items, x)
  {
    if |items| == 0 {
      NoBits(x % 8);
    } else {
      var init, last := items[..|items| - 1], items[|items| - 1];
      BitmapBits(init, x);
      assert items == init + [last];
      assert InItems(items, x) <==> InItem(last, x) || InItems(init, x) by {
        assert forall k :: 0 <= k < |init| ==> init[k] == items[k];
        assert items[|init|] == last;
      }
      match last
      case One(c) => SetBitMeaning(Bitmap(init), c, x);
      case Range(lo, hi) => SetRangeMeaning(Bitmap(init), lo, hi, x);
      case More(lo, hi) => SetRangeMeaning(Bitmap(init), lo, hi, x);
      case Class(name) => SetClassMeaning(Bitmap(init), name, 0, x);
    }
  }

  lemma {:induction false} TrimBits(bm: seq<byte>, x: nat)
    ensures InBitmap(Trim(bm), x) <==> InBitmap(bm, x)
  {
    if |bm| > 0 && bm[|bm| - 1] == 0 {
      NoBits(x % 8);
      TrimBits(bm[..|bm| - 1], x);
    }
  }

  /** The bitmap stored for a bracket expression has exactly the bits of its items. */
  lemma BitmapMeaning(items: seq<SetItem>, x: byte)
    ensures |Trim(Bitmap(items))| <= 32
    ensures InBitmap(Trim(Bitmap(items)), x) <==> InItems(items, x)
  {
    BitmapBits(items, x);
    TrimBits(Bitmap(items), x);
  }

  // ---- groups are numbered in the order their brackets open ----

  function Groups(n: Node): nat {
    match n
    case Group(alts) => 1 + GroupsAlts(alts)
    case Repeat(operand, _) => Groups(operand)
    case Interval(operand, _, _) => Groups(operand)
    case _ => 0
  }

  function GroupsBranch(b: seq<Node>): nat {
    if |b| == 0 then 0 else GroupsBranch(b[..|b| - 1]) + Groups(b[|b| - 1])
  }

  function GroupsAlts(alts: seq<Branch>): nat {
    if |alts| == 0 then 0 else GroupsBranch(alts[0].nodes) + GroupsAlts(alts[1..])
  }

  // ---- code ----

  /** A three-byte jump command: `store_op1`. */
  function Op1(op: byte, arg: int): (s: seq<byte>)
    ensures |s| == 3
  {
    [op] + Store(arg)
  }

  /** `store_op2`. */
  function Op2(op: byte, arg1: int, arg2: int): (s: seq<byte>)
    ensures |s| == 5
  {
    [op] + Store(arg1) + Store(arg2)
  }

  function Chars(lits: seq<Literal>): (s: seq<byte>)
    ensures |s| == |lits|
  {
    seq(|lits|, k requires 0 <= k < |lits| => lits[k].c)
  }

  /** `g` groups have been opened before this expression. */
  function CodeNode(n: Node, g: nat): seq<byte>
  {
    match n
    case Exact(lits) => [EXACTN, (|lits| % 256) as byte] + Chars(lits)
    case AnyChar => [ANYCHAR]
    case CharSet(negated, items) =>
      var bm := Trim(Bitmap(items));
      [if negated then CHARSET_NOT else CHARSET, |bm| as byte] + bm
    case Group(alts) => CodeGroup(alts, g)
    case Repeat(operand, ops) => RepeatCode(CodeNode(operand, g), ZeroOk(ops), ManyOk(ops))
    case Interval(operand, _, _) => IntervalCode(CodeNode(operand, g), LowerOf(n), UpperOf(n))
    case Skipped(_) => []
    case Stray => [PUSH_DUMMY_FAILURE]
  }

  function RepeatCode(c: seq<byte>, zero: bool, many: bool): seq<byte> {
    var once := if many then Op1(ON_FAILURE_JUMP, |c| + 3) + c + Op1(MAYBE_POP_JUMP, -|c| - 6)
                else Op1(ON_FAILURE_JUMP, |c|) + c;
    if zero then once else Op1(DUMMY_FAILURE_JUMP, 3) + once
  }

  function IntervalCode(c: seq<byte>, lower: int, upper: int): seq<byte> {
    if upper == 0 then Op1(JUMP, |c|) + c
    else if upper == 1 then Op2(SET_NUMBER_AT, 5, lower) + Op2(SUCCEED_N, |c| + 2, lower) + c
    else
      Op2(SET_NUMBER_AT, |c| + 15, upper - 1) + Op2(SET_NUMBER_AT, 5, lower) +
      Op2(SUCCEED_N, |c| + 7, lower) + c + Op2(JUMP_N, -|c| - 8, upper - 1)
  }

  function CodeGroup(alts: seq<Branch>, g: nat): seq<byte>
    decreases alts, 1
  {
    var inner := CodeAlts(alts, g + 1) + if |alts| > 1 then [PUSH_DUMMY_FAILURE] else [];
    if g + 1 <= MAX_REGNUM then
      var nested := (GroupsAlts(alts) % 256) as byte;
      [START_MEMORY, (g + 1) as byte, nested] + inner + [STOP_MEMORY, (g + 1) as byte, nested]
    else inner
  }

  function CodeBranch(b: seq<Node>, g: nat): seq<byte> {
    if |b| == 0 then []
    else CodeBranch(b[..|b| - 1], g) + CodeNode(b[|b| - 1], g + GroupsBranch(b[..|b| - 1]))
  }

  /** An alternative that is not the last: a choice before it and a jump behind it. */
  function AltCode(c: seq<byte>, past: int): seq<byte> {
    Op1(ON_FAILURE_JUMP, |c| + 3) + c + Op1(JUMP_PAST_ALT, past)
  }

  /** Alternatives: every one but the last ends in a jump to the jump behind the next alternative, the last
      of these jumps goes to the end. */
  function CodeAlts(alts: seq<Branch>, g: nat): seq<byte>
    decreases alts, 0
  {
    if |alts| == 0 then []
    else
      var c := CodeBranch(alts[0].nodes, g);
      if |alts| == 1 then c
      else
        var h := g + GroupsBranch(alts[0].nodes);
        AltCode(c, |CodeBranch(alts[1].nodes, h)| + if |alts| > 2 then 3 else 0) + CodeAlts(alts[1..], h)
  }

  // ---- placement ----

  predicate At(code: seq<byte>, k: int, c: seq<byte>) {
    0 <= k && k + |c| <= |code| && code[k..k + |c|] == c
  }

  lemma AtSplit(code: seq<byte>, k: int, a: seq<byte>, b: seq<byte>)
    ensures At(code, k, a + b) <==> At(code, k, a) && At(code, k + |a|, b)
  {
    if At(code, k, a + b) {
      var s := code[k..k + |a + b|];
      assert code[k..k + |a|] == s[..|a|] == a;
      assert code[k + |a|..k + |a| + |b|] == s[|a|..] == b;
    }
    if At(code, k, a) && At(code, k + |a|, b) {
      assert code[k..k + |a| + |b|] == code[k..k + |a|] + code[k + |a|..k + |a| + |b|];
    }
  }

  lemma AtOp1(code: seq<byte>, k: int, op: byte, arg: int)
    requires At(code, k, Op1(op, arg)) && -32768 <= arg < 32768
    ensures 0 <= k && k + 3 <= |code| && code[k] == op && Extract(code, k + 1) == arg
  {
    assert code[k] == code[k..k + 3][0];
    assert code[k + 1..k + 3] == code[k..k + 3][1..] == Store(arg);
    ExtractAt(code, k + 1, arg);
  }

  lemma AtOp2(code: seq<byte>, k: int, op: byte, arg1: int, arg2: int)
    requires At(code, k, Op2(op, arg1, arg2)) && -32768 <= arg1 < 32768 && -32768 <= arg2 < 32768
    ensures 0 <= k && k + 5 <= |code| && code[k] == op && Extract(code, k + 1) == arg1 && Extract(code, k + 3) == arg2
  {
    var s := code[k..k + 5];
    assert code[k] == s[0];
    assert code[k + 1..k + 3] == s[1..3] == Store(arg1);
    assert code[k + 3..k + 5] == s[3..5] == Store(arg2);
    ExtractAt(code, k + 1, arg1);
    ExtractAt(code, k + 3, arg2);
  }
}
