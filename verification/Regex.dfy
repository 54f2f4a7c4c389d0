/** Regular expressions as `regex_compile` reads them, and the strings each one stands for. */
module Regex {
  import opened Bytes

  /** A literal character, written alone or after a backslash. */
  datatype Literal = Literal(c: byte, quoted: bool)

  datatype RepeatOp = Star | Plus | Quest

  /** `Class` is a character class such as `[:alpha:]`; `More` is a range `-hi` whose first character has been read before, as in `a-c-e`. */
  datatype SetItem = One(c: byte) | Range(lo: byte, hi: byte) | More(lo: byte, hi: byte) | Class(name: seq<byte>)

  /** Upper bound of an interval: `{m}`, `{m,}` or `{m,n}`. */
  datatype UpperBound = Same | Unlimited | AtMost(digits: seq<byte>)

  /** `Exact` is a maximal run of literals that share one `exactn` command.
      `Repeat` is an operand followed by a whole run of `*`, `+` and `?`.
      `Skipped` is such a run where there is nothing to repeat: the compiler ignores it.
      `Stray` is the push_dummy_failure that a closing bracket without an opening one leaves behind alternatives. */
  datatype Node =
    | Exact(lits: seq<Literal>)
    | AnyChar
    | CharSet(negated: bool, items: seq<SetItem>)
    | Group(alts: seq<Branch>)
    | Repeat(operand: Node, ops: seq<RepeatOp>)
    | Interval(operand: Node, lower: seq<byte>, upper: UpperBound)
    | Skipped(ops: seq<RepeatOp>)
    | Stray

  datatype Branch = Branch(nodes: seq<Node>)

  const RE_DUP_MAX := 32767

  /** The value of a string of decimal digits. */
  function Number(digits: seq<byte>): int {
    if |digits| == 0 then 0
    else Number(digits[..|digits| - 1]) * 10 + digits[|digits| - 1] as int - 48
  }

  function LowerOf(n: Node): int
    requires n.Interval?
  {
    Number(n.lower)
  }

  function UpperOf(n: Node): int
    requires n.Interval?
  {
    match n.upper
    case Same => Number(n.lower)
    case Unlimited => RE_DUP_MAX
    case AtMost(digits) => Number(digits)
  }

  predicate InItem(item: SetItem, c: byte) {
    match item
    case One(x) => x == c
    case Range(lo, hi) => lo <= c <= hi
    case More(lo, hi) => lo <= c <= hi
    case Class(name) => InClass(name, c)
  }

  // ---- character classes, for ASCII ----

  predicate IsUpper(c: byte) { 65 <= c <= 90 }

  predicate IsLower(c: byte) { 97 <= c <= 122 }

  predicate IsAlpha(c: byte) { IsUpper(c) || IsLower(c) }

  predicate IsNumeral(c: byte) { 48 <= c <= 57 }

  predicate IsAlnum(c: byte) { IsAlpha(c) || IsNumeral(c) }

  predicate IsGraph(c: byte) { 33 <= c <= 126 }

  predicate Named(name: seq<byte>, s: string) {
    |name| == |s| && forall k :: 0 <= k < |s| ==> name[k] as int == s[k] as int
  }

  /** IS_CHAR_CLASS. */
  predicate IsCharClass(name: seq<byte>) {
    Named(name, "alpha") || Named(name, "upper") || Named(name, "lower") || Named(name, "digit") || Named(name, "alnum") ||
    Named(name, "xdigit") || Named(name, "space") || Named(name, "print") || Named(name, "punct") || Named(name, "graph") ||
    Named(name, "cntrl") || Named(name, "blank")
  }

  predicate InClass(name: seq<byte>, c: byte) {
    || (Named(name, "alnum") && IsAlnum(c))
    || (Named(name, "alpha") && IsAlpha(c))
    || (Named(name, "blank") && (c == 32 || c == 9))
    || (Named(name, "cntrl") && (c < 32 || c == 127))
    || (Named(name, "digit") && IsNumeral(c))
    || (Named(name, "graph") && IsGraph(c))
    || (Named(name, "lower") && IsLower(c))
    || (Named(name, "print") && (IsGraph(c) || c == 32))
    || (Named(name, "punct") && IsGraph(c) && !IsAlnum(c))
    || (Named(name, "space") && (c == 32 || 9 <= c <= 13))
    || (Named(name, "upper") && IsUpper(c))
    || (Named(name, "xdigit") && (IsNumeral(c) || 65 <= c <= 70 || 97 <= c <= 102))
  }

  predicate InItems(items: seq<SetItem>, c: byte) {
    exists k :: 0 <= k < |items| && InItem(items[k], c)
  }

  // ---- the language: `t[i..j]` is one of the strings the expression stands for ----

  ghost predicate Lang(n: Node, t: seq<byte>, i: int, j: int)
    decreases n, 0, 0
  {
    0 <= i <= j <= |t| &&
    match n
    case Exact(lits) => j == i + |lits| && forall k :: 0 <= k < |lits| ==> t[i + k] == lits[k].c
    case AnyChar => j == i + 1 && t[i] != 0
    case CharSet(negated, items) => j == i + 1 && InItems(items, t[i]) != negated
    case Group(alts) => LangAlts(alts, t, i, j)
    case Repeat(operand, ops) => LangOps(operand, ops, t, i, j)
    case Interval(operand, _, _) =>
      exists k: nat :: LowerOf(n) <= k <= UpperOf(n) && Power(operand, [], k, t, i, j)
    case Skipped(_) => i == j
    case Stray => i == j
  }

  /** One of the alternatives. */
  ghost predicate LangAlts(alts: seq<Branch>, t: seq<byte>, i: int, j: int)
    decreases alts, 0, 0
  {
    |alts| > 0 && (LangBranch(alts[0].nodes, t, i, j) || LangAlts(alts[1..], t, i, j))
  }

  /** The pieces of a branch one after the other. */
  ghost predicate LangBranch(b: seq<Node>, t: seq<byte>, i: int, j: int)
    decreases b, 0, 0
  {
    if |b| == 0 then 0 <= i == j <= |t|
    else
      var init, last := b[..|b| - 1], b[|b| - 1];
      exists m :: LangBranch(init, t, i, m) && Lang(last, t, m, j)
  }

  /** An operand with repetition operators applied from left to right. */
  ghost predicate LangOps(n: Node, ops: seq<RepeatOp>, t: seq<byte>, i: int, j: int)
    decreases n, |ops| + 1, 0
  {
    if |ops| == 0 then Lang(n, t, i, j)
    else
      var rest := ops[..|ops| - 1];
      match ops[|ops| - 1]
      case Star => exists k: nat :: Power(n, rest, k, t, i, j)
      case Plus => exists k: nat :: k >= 1 && Power(n, rest, k, t, i, j)
      case Quest => 0 <= i == j <= |t| || LangOps(n, rest, t, i, j)
  }

  /** `k` copies of an operand with its operators. */
  ghost predicate Power(n: Node, ops: seq<RepeatOp>, k: nat, t: seq<byte>, i: int, j: int)
    decreases n, |ops| + 1, k + 1
  {
    if k == 0 then 0 <= i == j <= |t|
    else exists m :: LangOps(n, ops, t, i, m) && Power(n, ops, k - 1, t, m, j)
  }

  // ---- collapsing a run of repetition operators ----

  /** The compiler's `zero_times_ok` and `many_times_ok` after a run of operators. */
  predicate ZeroOk(ops: seq<RepeatOp>) {
    exists k :: 0 <= k < |ops| && ops[k] != Plus
  }

  predicate ManyOk(ops: seq<RepeatOp>) {
    exists k :: 0 <= k < |ops| && ops[k] != Quest
  }

  /** The numbers of copies the two flags let through. */
  predicate CountOk(k: nat, zero: bool, many: bool) {
    (k == 0 ==> zero) && (k >= 2 ==> many)
  }

  lemma FlagsSnoc(ops: seq<RepeatOp>, op: RepeatOp)
    ensures ZeroOk(ops + [op]) <==> ZeroOk(ops) || op != Plus
    ensures ManyOk(ops + [op]) <==> ManyOk(ops) || op != Quest
  {
    var all := ops + [op];
    assert all[|ops|] == op;
    assert forall k :: 0 <= k < |ops| ==> all[k] == ops[k];
  }

  lemma {:induction false} PowerBounds(n: Node, ops: seq<RepeatOp>, k: nat, t: seq<byte>, i: int, j: int)
    requires Power(n, ops, k, t, i, j)
    ensures 0 <= i <= j <= |t|
    decreases n, |ops| + 1, k + 1
  {
    if k > 0 {
      var m :| LangOps(n, ops, t, i, m) && Power(n, ops, k - 1, t, m, j);
      OpsBounds(n, ops, t, i, m);
      PowerBounds(n, ops, k - 1, t, m, j);
    }
  }

  lemma {:induction false} OpsBounds(n: Node, ops: seq<RepeatOp>, t: seq<byte>, i: int, j: int)
    requires LangOps(n, ops, t, i, j)
    ensures 0 <= i <= j <= |t|
    decreases n, |ops| + 1, 0
  {
    if |ops| > 0 {
      var rest := ops[..|ops| - 1];
      match ops[|ops| - 1]
      case Star =>
        var k: nat :| Power(n, rest, k, t, i, j);
        PowerBounds(n, rest, k, t, i, j);
      case Plus =>
        var k: nat :| k >= 1 && Power(n, rest, k, t, i, j);
        PowerBounds(n, rest, k, t, i, j);
      case Quest =>
        if !(0 <= i == j <= |t|) {
          OpsBounds(n, rest, t, i, j);
        }
    }
  }

  lemma {:induction false} PowerAppend(n: Node, ops: seq<RepeatOp>, a: nat, b: nat, t: seq<byte>, i: int, m: int, j: int)
    requires Power(n, ops, a, t, i, m) && Power(n, ops, b, t, m, j)
    ensures Power(n, ops, a + b, t, i, j)
    decreases a
  {
    if a > 0 {
      var x :| LangOps(n, ops, t, i, x) && Power(n, ops, a - 1, t, x, m);
      PowerAppend(n, ops, a - 1, b, t, x, m, j);
    }
  }

  lemma PowerFirst(n: Node, ops: seq<RepeatOp>, k: nat, t: seq<byte>, i: int, j: int) returns (m: int)
    requires k > 0 && Power(n, ops, k, t, i, j)
    ensures LangOps(n, ops, t, i, m) && Power(n, ops, k - 1, t, m, j)
  {
    m :| LangOps(n, ops, t, i, m) && Power(n, ops, k - 1, t, m, j);
  }

  lemma PowerOne(n: Node, ops: seq<RepeatOp>, t: seq<byte>, i: int, j: int)
    ensures Power(n, ops, 1, t, i, j) <==> LangOps(n, ops, t, i, j)
  {
    if LangOps(n, ops, t, i, j) {
      OpsBounds(n, ops, t, i, j);
      assert Power(n, ops, 0, t, j, j);
    }
    if Power(n, ops, 1, t, i, j) {
      var m := PowerFirst(n, ops, 1, t, i, j);
    }
  }

  /** Copies of something that is itself a number of copies. */
  lemma {:induction false} FlattenPower(n: Node, ops: seq<RepeatOp>, k: nat, t: seq<byte>, i: int, j: int) returns (total: nat)
    requires Power(n, ops, k, t, i, j)
    ensures Power(n, [], total, t, i, j)
    ensures total == 0 ==> k == 0 || ZeroOk(ops)
    decreases |ops|, k + 1
  {
    if k == 0 {
      total := 0;
    } else {
      var m :| LangOps(n, ops, t, i, m) && Power(n, ops, k - 1, t, m, j);
      var first := CollapseSound(n, ops, t, i, m);
      var rest := FlattenPower(n, ops, k - 1, t, m, j);
      PowerAppend(n, [], first, rest, t, i, m, j);
      total := first + rest;
    }
  }

  lemma {:induction false} CollapseSound(n: Node, ops: seq<RepeatOp>, t: seq<byte>, i: int, j: int) returns (k: nat)
    requires LangOps(n, ops, t, i, j)
    ensures CountOk(k, ZeroOk(ops), ManyOk(ops)) && Power(n, [], k, t, i, j)
    decreases |ops|, 0
  {
    if |ops| == 0 {
      k := 1;
      PowerOne(n, [], t, i, j);
      assert ops == [];
    } else {
      var rest, op := ops[..|ops| - 1], ops[|ops| - 1];
      assert ops == rest + [op];
      FlagsSnoc(rest, op);
      match op
      case Star =>
        var c: nat :| Power(n, rest, c, t, i, j);
        k := FlattenPower(n, rest, c, t, i, j);
      case Plus =>
        var c: nat :| c >= 1 && Power(n, rest, c, t, i, j);
        k := FlattenPower(n, rest, c, t, i, j);
      case Quest =>
        if LangOps(n, rest, t, i, j) {
          k := CollapseSound(n, rest, t, i, j);
        } else {
          k := 0;
        }
    }
  }

  lemma {:induction false} LiftPower(n: Node, ops: seq<RepeatOp>, k: nat, t: seq<byte>, i: int, j: int)
    requires Power(n, [], k, t, i, j)
    ensures Power(n, ops, k, t, i, j)
    decreases |ops|, k + 1
  {
    if k > 0 {
      var m :| LangOps(n, [], t, i, m) && Power(n, [], k - 1, t, m, j);
      PowerOne(n, [], t, i, m);
      CollapseComplete(n, ops, 1, t, i, m);
      LiftPower(n, ops, k - 1, t, m, j);
    }
  }

  lemma {:induction false} CollapseComplete(n: Node, ops: seq<RepeatOp>, k: nat, t: seq<byte>, i: int, j: int)
    requires CountOk(k, ZeroOk(ops), ManyOk(ops)) && Power(n, [], k, t, i, j)
    ensures LangOps(n, ops, t, i, j)
    decreases |ops|, 0
  {
    if |ops| == 0 {
      PowerOne(n, [], t, i, j);
      assert ops == [];
    } else {
      var rest, op := ops[..|ops| - 1], ops[|ops| - 1];
      assert ops == rest + [op];
      FlagsSnoc(rest, op);
      match op
      case Star =>
        LiftPower(n, rest, k, t, i, j);
      case Plus =>
        if k == 0 {
          CollapseComplete(n, rest, k, t, i, j);
          PowerOne(n, rest, t, i, j);
        } else {
          LiftPower(n, rest, k, t, i, j);
        }
      case Quest =>
        if k > 0 {
          CollapseComplete(n, rest, k, t, i, j);
        }
    }
  }

  /** A run of operators such as `+?` means what the single operator with its two flags means. */
  lemma CollapseRun(n: Node, ops: seq<RepeatOp>, t: seq<byte>, i: int, j: int)
    ensures LangOps(n, ops, t, i, j) <==>
            exists k: nat :: CountOk(k, ZeroOk(ops), ManyOk(ops)) && Power(n, [], k, t, i, j)
  {
    if LangOps(n, ops, t, i, j) {
      var k := CollapseSound(n, ops, t, i, j);
    }
    if k: nat :| CountOk(k, ZeroOk(ops), ManyOk(ops)) && Power(n, [], k, t, i, j) {
      CollapseComplete(n, ops, k, t, i, j);
    }
  }

  lemma IntervalCount(n: Node, t: seq<byte>, i: int, j: int) returns (k: nat)
    requires n.Interval? && Lang(n, t, i, j)
    ensures LowerOf(n) <= k <= UpperOf(n) && Power(n.operand, [], k, t, i, j)
  {
    match n
    case Interval(operand, _, _) =>
      k :| LowerOf(n) <= k <= UpperOf(n) && Power(operand, [], k, t, i, j);
  }
}
