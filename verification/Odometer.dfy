/** Lists of list variables (`2Dlist.c`): a path pattern expands to one entry for each combination of its lists' members. */
module Odometer {
  import opened Wrappers

  /** `struct TwoDimList`; `current` is the index in the list, its length for a null pointer. */
  class Fragment {
    const items: seq<string>
    const is2d: bool
    var current: nat
    var rounds: nat

    /** `AppendTwoDimItem`. */
    constructor (items: seq<string>)
      ensures this.items == items && is2d == (|items| > 1) && current == 0 && rounds == 0
    {
      this.items, is2d := items, |items| > 1;
      current, rounds := 0, 0;
    }

    /** Go on to the next member, from the last one back to the first. */
    method Advance() returns (wrapped: bool)
      requires current < |items|
      modifies this
      ensures wrapped <==> old(current) + 1 == |items|
      ensures current == (if wrapped then 0 else old(current) + 1) && rounds == old(rounds) + (if wrapped then 1 else 0)
    {
      current := current + 1;
      if current == |items| {
        current := 0;
        rounds := rounds + 1;
        return true;
      }
      return false;
    }
  }

  // ---- what the entries should be ----

  function Size(items: seq<string>): (n: nat)
    ensures n > 0
  {
    if |items| > 1 then |items| else 1
  }

  /** The number of combinations. */
  function Count(lists: seq<seq<string>>): (n: nat)
    ensures n > 0
  {
    if |lists| == 0 then 1
    else
      var n := Count(lists[1..]);
      assert Size(lists[0]) * n > 0;
      Size(lists[0]) * n
  }

  function Member(items: seq<string>, k: nat): string {
    if k < |items| then items[k] else ""
  }

  /** All combinations of the members from `from` on of the first list with all members of the others, in order. */
  function ProductFrom(lists: seq<seq<string>>, from: nat): seq<string>
    requires |lists| > 0 && from <= Size(lists[0])
    decreases |lists|, 1, Size(lists[0]) - from
  {
    if from == Size(lists[0]) then []
    else Prefixed(Member(lists[0], from), Product(lists[1..])) + ProductFrom(lists, from + 1)
  }

  function Product(lists: seq<seq<string>>): seq<string>
    decreases |lists|, 2, 0
  {
    if |lists| == 0 then [""] else ProductFrom(lists, 0)
  }

  function Prefixed(s: string, all: seq<string>): (r: seq<string>)
    ensures |r| == |all| && forall k :: 0 <= k < |all| ==> r[k] == s + all[k]
  {
    seq(|all|, k requires 0 <= k < |all| => s + all[k])
  }

  // ---- the list ----

  ghost predicate Distinct(list: seq<Fragment>) {
    forall i, j :: 0 <= i < j < |list| ==> list[i] != list[j]
  }

  function Lists(list: seq<Fragment>): (l: seq<seq<string>>)
    ensures |l| == |list| && forall k :: 0 <= k < |list| ==> l[k] == list[k].items
  {
    seq(|list|, k requires 0 <= k < |list| => list[k].items)
  }

  ghost function Currents(list: seq<Fragment>): (c: seq<nat>)
    reads list
    ensures |c| == |list| && forall k :: 0 <= k < |list| ==> c[k] == list[k].current
  {
    seq(|list|, k requires 0 <= k < |list| reads list => list[k].current)
  }

  ghost function Rounds(list: seq<Fragment>): (r: seq<nat>)
    reads list
    ensures |r| == |list| && forall k :: 0 <= k < |list| ==> r[k] == list[k].rounds
  {
    seq(|list|, k requires 0 <= k < |list| reads list => list[k].rounds)
  }

  predicate Is2d(items: seq<string>) {
    |items| > 1
  }

  /** Every fragment points into its list. */
  predicate Pointing(lists: seq<seq<string>>, cur: seq<nat>) {
    |cur| == |lists| && forall k :: 0 <= k < |lists| ==> cur[k] < Size(lists[k])
  }

  ghost predicate Valid(list: seq<Fragment>)
    reads list
  {
    Distinct(list) && Pointing(Lists(list), Currents(list)) && forall k :: 0 <= k < |list| ==> list[k].is2d == Is2d(list[k].items)
  }

  /** The number of the combination that `cur` stands at. */
  function Position(lists: seq<seq<string>>, cur: seq<nat>): nat
    requires |cur| == |lists|
  {
    if |lists| == 0 then 0 else cur[0] * Count(lists[1..]) + Position(lists[1..], cur[1..])
  }

  /** After `t` increments every list variable has gone round as often as its share of `t` says. */
  ghost predicate Turned(lists: seq<seq<string>>, cur: seq<nat>, rounds: seq<nat>, t: nat)
    requires |cur| == |lists| == |rounds|
  {
    forall k :: 0 <= k < |lists| && Is2d(lists[k]) ==> rounds[k] * Count(lists[k..]) + Position(lists[k..], cur[k..]) == t
  }

  lemma {:induction false} PositionBound(lists: seq<seq<string>>, cur: seq<nat>)
    requires Pointing(lists, cur)
    ensures Position(lists, cur) < Count(lists)
  {
    if |lists| > 0 {
      PositionBound(lists[1..], cur[1..]);
      DigitBound(cur[0], Size(lists[0]), Position(lists[1..], cur[1..]), Count(lists[1..]));
    }
  }

  lemma DigitBound(c: nat, size: nat, p: nat, n: nat)
    requires c < size && p < n
    ensures c * n + p < size * n
    ensures c * n + p + 1 == size * n <==> c + 1 == size && p + 1 == n
  {
    assert (c + 1) * n == c * n + n;
    if c + 1 < size {
      assert (c + 2) * n <= size * n;
      assert (c + 2) * n == c * n + 2 * n;
    }
  }

  lemma {:induction false} SkipSingle(lists: seq<seq<string>>, cur: seq<nat>, j: nat)
    requires Pointing(lists, cur) && j <= |lists| && forall k :: 0 <= k < j ==> !Is2d(lists[k])
    ensures Count(lists) == Count(lists[j..]) && Position(lists, cur) == Position(lists[j..], cur[j..])
    decreases j
  {
    if j > 0 {
      SkipSingle(lists[1..], cur[1..], j - 1);
      assert lists[1..][j - 1..] == lists[j..] && cur[1..][j - 1..] == cur[j..];
      assert Size(lists[0]) == 1;
    } else {
      assert lists[0..] == lists && cur[0..] == cur;
    }
  }

  /** `IncrementTwoDimList` on a list (the rest of the whole list); the result says whether it wrapped. */
  method Increment(list: seq<Fragment>, ghost t: nat) returns (wrapped: bool)
    requires Valid(list) && Turned(Lists(list), Currents(list), Rounds(list), t)
    modifies list
    ensures Valid(list) && Turned(Lists(list), Currents(list), Rounds(list), t + 1)
    ensures wrapped <==> old(Position(Lists(list), Currents(list))) + 1 == Count(Lists(list))
    ensures Position(Lists(list), Currents(list)) == if wrapped then 0 else old(Position(Lists(list), Currents(list))) + 1
    ensures forall k :: 0 <= k < |list| && !list[k].is2d ==> list[k].rounds == old(list[k].rounds)
    decreases |list|
  {
    hide Position, Count, Turned, Pointing, Valid, Is2d, Distinct, Lists, Currents, Rounds, Size;
    var tp := First2d(list);
    ghost var lists, cur, rounds := Lists(list), Currents(list), Rounds(list);
    ValidFlags(list);
    SkipSingle(lists, cur, tp);
    if tp == |list| {
      NoLists(lists, cur, rounds, t);
      return true;
    }
    SameFragments(list, tp + 1);
    ValidRest(list, tp);
    TurnedRest(lists, cur, rounds, t, tp + 1);
    var rest := list[tp + 1..];
    wrapped := Increment(rest, t);
    SameFragments(list, tp + 1);
    assert forall k :: 0 <= k <= tp ==> list[k].current == cur[k] && list[k].rounds == rounds[k];
    wrapped := Carry(list, tp, wrapped, cur, rounds, t);
  }

  /** The fragment at `tp` goes on when everything behind it has gone round. */
  method Carry(list: seq<Fragment>, tp: nat, carried: bool, ghost cur: seq<nat>, ghost rounds: seq<nat>, ghost t: nat) returns (wrapped: bool)
    requires tp < |list| == |cur| == |rounds| && Distinct(list) && list[tp].is2d && Valid(list[tp + 1..])
    requires forall k :: 0 <= k < |list| ==> list[k].is2d == Is2d(list[k].items) && (k < tp ==> !list[k].is2d)
    requires forall k :: 0 <= k <= tp ==> list[k].current == cur[k] && list[k].rounds == rounds[k]
    requires Pointing(Lists(list), cur) && Turned(Lists(list), cur, rounds, t)
    requires Turned(Lists(list)[tp + 1..], Currents(list)[tp + 1..], Rounds(list)[tp + 1..], t + 1)
    requires carried <==> Position(Lists(list)[tp + 1..], cur[tp + 1..]) + 1 == Count(Lists(list)[tp + 1..])
    requires Position(Lists(list)[tp + 1..], Currents(list)[tp + 1..]) == if carried then 0 else Position(Lists(list)[tp + 1..], cur[tp + 1..]) + 1
    modifies list[tp]
    ensures Valid(list) && Turned(Lists(list), Currents(list), Rounds(list), t + 1)
    ensures wrapped <==> Position(Lists(list), cur) + 1 == Count(Lists(list))
    ensures Position(Lists(list), Currents(list)) == if wrapped then 0 else Position(Lists(list), cur) + 1
  {
    hide Position, Count, Turned, Valid, Is2d, Distinct, Pointing;
    OthersDiffer(list, tp);
    PointsInside(Lists(list), cur, tp);
    ghost var cur1, rounds1 := Currents(list), Rounds(list);
    ManyItems(list[tp].items);
    wrapped := false;
    if carried {
      wrapped := list[tp].Advance();
    }
    ghost var cur2, rounds2 := Currents(list), Rounds(list);
    OthersSame(cur, rounds, cur1, rounds1, cur2, rounds2, tp);
    SameFragments(list, tp + 1);
    ValidWhole(list, tp);
    ValidFlags(list);
    Incremented(Lists(list), cur, rounds, cur2, rounds2, t, tp, carried, wrapped);
  }

  lemma OthersDiffer(list: seq<Fragment>, tp: nat)
    requires Distinct(list) && tp < |list|
    ensures forall k :: 0 <= k < |list| && k != tp ==> list[k] != list[tp]
  {}

  lemma PointsInside(lists: seq<seq<string>>, cur: seq<nat>, tp: nat)
    requires Pointing(lists, cur) && tp < |lists|
    ensures forall k :: 0 <= k < |lists| ==> cur[k] < Size(lists[k])
  {}

  /** Only one fragment has moved. */
  lemma OthersSame(cur: seq<nat>, rounds: seq<nat>, cur1: seq<nat>, rounds1: seq<nat>, cur2: seq<nat>, rounds2: seq<nat>, tp: nat)
    requires tp < |cur| == |rounds| == |cur1| == |rounds1| == |cur2| == |rounds2|
    requires forall k :: 0 <= k < |cur| && k != tp ==> cur2[k] == cur1[k] && rounds2[k] == rounds1[k]
    requires forall k :: 0 <= k < tp ==> cur1[k] == cur[k]
    ensures cur2[tp + 1..] == cur1[tp + 1..] && rounds2[tp + 1..] == rounds1[tp + 1..] && cur2[..tp] == cur[..tp]
  {}

  /** The first fragment with more than one value. */
  method First2d(list: seq<Fragment>) returns (tp: nat)
    ensures tp <= |list| && (tp < |list| ==> list[tp].is2d) && forall k :: 0 <= k < tp ==> !list[k].is2d
  {
    tp := 0;
    while tp < |list| && !list[tp].is2d
      invariant tp <= |list| && forall k :: 0 <= k < tp ==> !list[k].is2d
    {
      tp := tp + 1;
    }
  }

  lemma ValidFlags(list: seq<Fragment>)
    requires Valid(list)
    ensures Pointing(Lists(list), Currents(list)) && Distinct(list)
    ensures forall k :: 0 <= k < |list| ==> list[k].is2d == Is2d(list[k].items)
  {}

  lemma ValidRest(list: seq<Fragment>, i: nat)
    requires Valid(list) && i < |list|
    ensures Valid(list[i + 1..]) && Distinct(list) && list[i].current < Size(list[i].items) && list[i].is2d == Is2d(list[i].items)
    ensures forall k :: 0 <= k <= i ==> list[k] !in list[i + 1..]
    ensures forall k :: 0 <= k < |list| ==> list[k].current < Size(list[k].items)
    ensures forall k :: 0 <= k < i ==> list[k] != list[i]
  {
    SameFragments(list, i + 1);
  }

  lemma ValidWhole(list: seq<Fragment>, i: nat)
    requires Distinct(list) && i < |list| && Valid(list[i + 1..]) && list[i].current < Size(list[i].items)
    requires forall k :: 0 <= k < |list| ==> list[k].is2d == Is2d(list[k].items)
    requires forall k :: 0 <= k < i ==> list[k].current < Size(list[k].items)
    ensures Valid(list)
  {
    forall k | i < k < |list|
      ensures list[k].current < Size(list[k].items)
    {
      assert list[i + 1..][k - i - 1] == list[k] && Currents(list[i + 1..])[k - i - 1] == list[k].current;
    }
  }

  lemma NoLists(lists: seq<seq<string>>, cur: seq<nat>, rounds: seq<nat>, t: nat)
    requires |cur| == |lists| == |rounds| && Pointing(lists, cur) && forall k :: 0 <= k < |lists| ==> !Is2d(lists[k])
    ensures Turned(lists, cur, rounds, t + 1) && Count(lists) == 1 && Position(lists, cur) == 0
  {
    SkipSingle(lists, cur, |lists|);
    assert lists[|lists|..] == [] && cur[|lists|..] == [];
  }

  lemma SameFragments(list: seq<Fragment>, i: nat)
    requires i <= |list|
    ensures Lists(list[i..]) == Lists(list)[i..] && Currents(list[i..]) == Currents(list)[i..] && Rounds(list[i..]) == Rounds(list)[i..]
  {}

  lemma TurnedRest(lists: seq<seq<string>>, cur: seq<nat>, rounds: seq<nat>, t: nat, i: nat)
    requires |cur| == |lists| == |rounds| && Turned(lists, cur, rounds, t) && i <= |lists|
    ensures Turned(lists[i..], cur[i..], rounds[i..], t)
  {
    forall k | 0 <= k < |lists| - i && Is2d(lists[i..][k])
      ensures rounds[i..][k] * Count(lists[i..][k..]) + Position(lists[i..][k..], cur[i..][k..]) == t
    {
      assert lists[i..][k..] == lists[i + k..] && cur[i..][k..] == cur[i + k..];
    }
  }

  /** What one increment does, from what it does to the fragments behind the first list variable, at `tp`. */
  lemma Incremented(lists: seq<seq<string>>, cur: seq<nat>, rounds: seq<nat>, cur': seq<nat>, rounds': seq<nat>, t: nat, tp: nat,
                    carried: bool, wrapped: bool)
    requires |cur| == |lists| == |rounds| == |cur'| == |rounds'| && tp < |lists| && Pointing(lists, cur) && Pointing(lists, cur')
    requires Is2d(lists[tp]) && (forall k :: 0 <= k < tp ==> !Is2d(lists[k])) && cur'[..tp] == cur[..tp]
    requires Turned(lists, cur, rounds, t) && Turned(lists[tp + 1..], cur'[tp + 1..], rounds'[tp + 1..], t + 1)
    requires var p, n := Position(lists[tp + 1..], cur[tp + 1..]), Count(lists[tp + 1..]);
             && (carried <==> p + 1 == n) && Position(lists[tp + 1..], cur'[tp + 1..]) == (if carried then 0 else p + 1)
    requires wrapped <==> carried && cur[tp] + 1 == |lists[tp]|
    requires cur'[tp] == (if !carried then cur[tp] else if wrapped then 0 else cur[tp] + 1)
    requires rounds'[tp] == rounds[tp] + if wrapped then 1 else 0
    ensures Turned(lists, cur', rounds', t + 1)
    ensures wrapped <==> Position(lists, cur) + 1 == Count(lists)
    ensures Position(lists, cur') == if wrapped then 0 else Position(lists, cur) + 1
  {
    hide Position, Count, Turned, Is2d;
    SkipSingle(lists, cur, tp);
    SkipSingle(lists, cur', tp);
    var l, c, c' := lists[tp..], cur[tp..], cur'[tp..];
    assert l[1..] == lists[tp + 1..] && c[1..] == cur[tp + 1..] && c'[1..] == cur'[tp + 1..];
    var p, p', n := Position(l[1..], c[1..]), Position(l[1..], c'[1..]), Count(l[1..]);
    PositionBound(l[1..], c[1..]);
    Unfold(l, c);
    Unfold(l, c');
    TurnedAt(lists, cur, rounds, t, tp);
    ManyItems(lists[tp]);
    Digit(c[0], |l[0]|, p, n, c'[0], p', rounds[tp], rounds'[tp], t);
    TurnedFrom(lists, cur', rounds', t + 1, tp);
  }

  lemma ManyItems(items: seq<string>)
    requires Is2d(items)
    ensures Size(items) == |items| > 1
  {}

  lemma Unfold(lists: seq<seq<string>>, cur: seq<nat>)
    requires |lists| == |cur| > 0
    ensures Position(lists, cur) == cur[0] * Count(lists[1..]) + Position(lists[1..], cur[1..])
    ensures Count(lists) == Size(lists[0]) * Count(lists[1..])
  {}

  lemma TurnedAt(lists: seq<seq<string>>, cur: seq<nat>, rounds: seq<nat>, t: nat, k: nat)
    requires |cur| == |lists| == |rounds| && Turned(lists, cur, rounds, t) && k < |lists| && Is2d(lists[k])
    ensures rounds[k] * Count(lists[k..]) + Position(lists[k..], cur[k..]) == t
  {}

  lemma TurnedFrom(lists: seq<seq<string>>, cur: seq<nat>, rounds: seq<nat>, t: nat, tp: nat)
    requires |cur| == |lists| == |rounds| && tp < |lists| && forall k :: 0 <= k < tp ==> !Is2d(lists[k])
    requires rounds[tp] * Count(lists[tp..]) + Position(lists[tp..], cur[tp..]) == t
    requires Turned(lists[tp + 1..], cur[tp + 1..], rounds[tp + 1..], t)
    ensures Turned(lists, cur, rounds, t)
  {
    hide Position, Count, Is2d;
    forall k | 0 <= k < |lists| && Is2d(lists[k])
      ensures rounds[k] * Count(lists[k..]) + Position(lists[k..], cur[k..]) == t
    {
      if k > tp {
        var i := k - tp - 1;
        assert lists[tp + 1..][i..] == lists[k..] && cur[tp + 1..][i..] == cur[k..];
        TurnedAt(lists[tp + 1..], cur[tp + 1..], rounds[tp + 1..], t, i);
      }
    }
  }

  /** One digit and its carry. */
  lemma Digit(c: nat, size: nat, p: nat, n: nat, c': nat, p': nat, r: nat, r': nat, t: nat)
    requires c < size && p < n && r * (size * n) + (c * n + p) == t
    requires p' == if p + 1 == n then 0 else p + 1
    requires c' == if p + 1 != n then c else if c + 1 == size then 0 else c + 1
    requires r' == if p + 1 == n && c + 1 == size then r + 1 else r
    ensures r' * (size * n) + (c' * n + p') == t + 1
    ensures c * n + p + 1 == size * n <==> p + 1 == n && c + 1 == size
    ensures c' * n + p' == if p + 1 == n && c + 1 == size then 0 else c * n + p + 1
  {
    DigitBound(c, size, p, n);
    assert (c + 1) * n == c * n + n;
    assert (r + 1) * (size * n) == r * (size * n) + size * n;
  }

  // ---- the entries ----

  /** The entry that `cur` stands for. */
  function Text(lists: seq<seq<string>>, cur: seq<nat>): string
    requires |cur| == |lists|
  {
    if |lists| == 0 then "" else Member(lists[0], cur[0]) + Text(lists[1..], cur[1..])
  }

  lemma {:induction false} ProductFromAt(lists: seq<seq<string>>, from: nat, c: nat, p: nat)
    requires |lists| > 0 && from <= c < Size(lists[0]) && p < |Product(lists[1..])|
    ensures var n := |Product(lists[1..])|;
            && 0 <= (c - from) * n + p < |ProductFrom(lists, from)|
            && ProductFrom(lists, from)[(c - from) * n + p] == Member(lists[0], c) + Product(lists[1..])[p]
    decreases c - from
  {
    hide Product;
    hide ProductFrom, Member;
    var n := |Product(lists[1..])|;
    ProductFromStep(lists, from);
    var here := Prefixed(Member(lists[0], from), Product(lists[1..]));
    if from == c {
      NoneBefore(n, p);
    } else {
      ProductFromAt(lists, from + 1, c, p);
      OneMore(c - from, n);
      IndexInto(here, ProductFrom(lists, from + 1), (c - from - 1) * n + p);
    }
  }

  lemma NoneBefore(n: nat, p: nat)
    ensures 0 * n + p == p
  {}

  lemma OneMore(k: nat, n: nat)
    requires k > 0
    ensures k * n == n + (k - 1) * n && (k - 1) * n >= 0
  {}

  lemma IndexInto(a: seq<string>, b: seq<string>, k: nat)
    requires k < |b|
    ensures (a + b)[|a| + k] == b[k]
  {}

  lemma ProductFromStep(lists: seq<seq<string>>, from: nat)
    requires |lists| > 0 && from < Size(lists[0])
    ensures ProductFrom(lists, from) == Prefixed(Member(lists[0], from), Product(lists[1..])) + ProductFrom(lists, from + 1)
  {
    hide Product;
  }

  lemma {:induction false} ProductFromLength(lists: seq<seq<string>>, from: nat)
    requires |lists| > 0 && from <= Size(lists[0])
    ensures |ProductFrom(lists, from)| == (Size(lists[0]) - from) * |Product(lists[1..])|
    decreases Size(lists[0]) - from
  {
    hide Product, Size;
    if from < Size(lists[0]) {
      ProductFromLength(lists, from + 1);
      OneMore(Size(lists[0]) - from, |Product(lists[1..])|);
    }
  }

  lemma ProductIs(lists: seq<seq<string>>)
    requires |lists| > 0
    ensures Product(lists) == ProductFrom(lists, 0)
  {
    hide ProductFrom;
  }

  lemma NothingAt(lists: seq<seq<string>>, cur: seq<nat>)
    requires |lists| == |cur| == 0
    ensures Product(lists) == [""] && Count(lists) == 1 && Position(lists, cur) == 0 && Text(lists, cur) == ""
  {}

  lemma TextStep(lists: seq<seq<string>>, cur: seq<nat>)
    requires |lists| == |cur| > 0
    ensures Text(lists, cur) == Member(lists[0], cur[0]) + Text(lists[1..], cur[1..])
  {
    hide Member;
  }

  lemma PointingRest(lists: seq<seq<string>>, cur: seq<nat>)
    requires Pointing(lists, cur) && |lists| > 0
    ensures Pointing(lists[1..], cur[1..]) && cur[0] < Size(lists[0])
  {}

  /** There are as many combinations as the product of the list lengths says, and the one at the position of `cur`
      is the text of `cur`. */
  lemma {:induction false} ProductAt(lists: seq<seq<string>>, cur: seq<nat>)
    requires Pointing(lists, cur)
    ensures |Product(lists)| == Count(lists) && Position(lists, cur) < Count(lists)
    ensures Product(lists)[Position(lists, cur)] == Text(lists, cur)
  {
    hide Product, ProductFrom, Count, Position, Text, Member, Size;
    PositionBound(lists, cur);
    if |lists| == 0 {
      NothingAt(lists, cur);
    } else {
      PointingRest(lists, cur);
      hide Pointing;
      ProductAt(lists[1..], cur[1..]);
      ProductFromLength(lists, 0);
      ProductFromAt(lists, 0, cur[0], Position(lists[1..], cur[1..]));
      ProductIs(lists);
      Unfold(lists, cur);
      TextStep(lists, cur);
    }
  }

  // ---- the order of the entries, on the sequences ----

  lemma {:induction false} CountSnoc(a: seq<seq<string>>, xs: seq<string>)
    ensures Count(a + [xs]) == Count(a) * Size(xs)
  {
    hide Size;
    if |a| == 0 {
      assert a + [xs] == [xs] && [xs][1..] == [];
      assert Count([]) == 1;
    } else {
      var rest := a[1..];
      assert (a + [xs])[1..] == rest + [xs];
      CountSnoc(rest, xs);
      Associates(Size(a[0]), Count(rest), Size(xs));
    }
  }

  lemma Associates(a: nat, b: nat, c: nat)
    ensures a * (b * c) == (a * b) * c
  {}

  lemma {:induction false} PositionSnoc(a: seq<seq<string>>, cur: seq<nat>, xs: seq<string>, k: nat)
    requires |cur| == |a|
    ensures Position(a + [xs], cur + [k]) == Position(a, cur) * Size(xs) + k
  {
    hide Size, Count;
    if |a| == 0 {
      assert a + [xs] == [xs] && cur + [k] == [k] && [xs][1..] == [] && [k][1..] == [];
      NoCount();
    } else {
      var rest, front := a[1..], cur[1..];
      assert (a + [xs])[1..] == rest + [xs] && (cur + [k])[1..] == front + [k];
      PositionSnoc(rest, front, xs, k);
      CountSnoc(rest, xs);
      Associates(cur[0], Count(rest), Size(xs));
    }
  }

  lemma NoCount()
    ensures Count([]) == 1
  {}

  lemma {:induction false} TextSnoc(a: seq<seq<string>>, cur: seq<nat>, xs: seq<string>, k: nat)
    requires |cur| == |a|
    ensures Text(a + [xs], cur + [k]) == Text(a, cur) + Member(xs, k)
  {
    hide Member;
    if |a| == 0 {
      assert a + [xs] == [xs] && cur + [k] == [k] && [xs][1..] == [] && [k][1..] == [];
      assert Text([], []) == "" && "" + Member(xs, k) == Member(xs, k) == Member(xs, k) + "";
    } else {
      assert (a + [xs])[1..] == a[1..] + [xs] && (cur + [k])[1..] == cur[1..] + [k];
      TextSnoc(a[1..], cur[1..], xs, k);
      assert Member(a[0], cur[0]) + (Text(a[1..], cur[1..]) + Member(xs, k)) ==
             Member(a[0], cur[0]) + Text(a[1..], cur[1..]) + Member(xs, k);
    }
  }

  /** The pointers that stand at combination `p`. */
  lemma {:induction false} PointersAt(lists: seq<seq<string>>, p: nat) returns (cur: seq<nat>)
    requires p < Count(lists)
    ensures Pointing(lists, cur) && Position(lists, cur) == p
  {
    hide Size;
    if |lists| == 0 {
      cur := [];
    } else {
      var n := Count(lists[1..]);
      var rest := PointersAt(lists[1..], p % n);
      Quotient(p, n, Size(lists[0]));
      cur := [p / n] + rest;
      assert cur[1..] == rest;
    }
  }

  lemma Quotient(p: nat, n: nat, size: nat)
    requires n > 0 && p < size * n
    ensures 0 <= p / n < size && p / n * n + p % n == p
  {
    Larger(p / n, size, n);
  }

  lemma Larger(q: nat, size: nat, n: nat)
    ensures q >= size ==> q * n >= size * n
  {}

  lemma PointingSnoc(a: seq<seq<string>>, cur: seq<nat>, xs: seq<string>, k: nat)
    requires Pointing(a, cur) && k < Size(xs)
    ensures Pointing(a + [xs], cur + [k])
  {
    hide Size;
  }

  lemma {:induction false} EntrySnoc(a: seq<seq<string>>, xs: seq<string>, p: nat, k: nat)
    requires p < Count(a) && k < Size(xs)
    ensures |Product(a)| == Count(a) && |Product(a + [xs])| == Count(a) * Size(xs) && p * Size(xs) + k < Count(a) * Size(xs)
    ensures Product(a + [xs])[p * Size(xs) + k] == Product(a)[p] + Member(xs, k)
  {
    hide Product, Count, Position, Text, Member, Size, Pointing;
    var cur := PointersAt(a, p);
    PointingLength(a, cur);
    PointingSnoc(a, cur, xs, k);
    ProductAt(a, cur);
    ProductAt(a + [xs], cur + [k]);
    CountSnoc(a, xs);
    PositionSnoc(a, cur, xs, k);
    TextSnoc(a, cur, xs, k);
  }

  lemma PointingLength(a: seq<seq<string>>, cur: seq<nat>)
    requires Pointing(a, cur)
    ensures |cur| == |a|
  {}

  lemma CountIs(a: seq<seq<string>>)
    ensures |Product(a)| == Count(a)
  {
    hide Product;
    var cur := PointersAt(a, 0);
    ProductAt(a, cur);
  }

  /** The rightmost list goes round the fastest: behind every entry of the lists before it come its members in turn. */
  lemma ProductOrder(a: seq<seq<string>>, xs: seq<string>, p: nat, k: nat)
    requires |xs| > 1 && p < |Product(a)| && k < |xs|
    ensures |Product(a + [xs])| == |Product(a)| * |xs|
    ensures p * |xs| + k < |Product(a + [xs])| && Product(a + [xs])[p * |xs| + k] == Product(a)[p] + xs[k]
  {
    hide Product, Count;
    CountIs(a);
    assert Size(xs) == |xs| && Member(xs, k) == xs[k];
    hide Size, Member;
    EntrySnoc(a, xs, p, k);
  }

  /** A fragment with one value adds that value to every entry, one without any adds nothing, and with nothing in front there
      is the empty entry alone. */
  lemma ProductOne(a: seq<seq<string>>, xs: seq<string>, p: nat)
    requires |xs| <= 1 && p < |Product(a)|
    ensures |Product(a + [xs])| == |Product(a)| && Product([]) == [""]
    ensures Product(a + [xs])[p] == Product(a)[p] + if |xs| == 1 then xs[0] else ""
  {
    NothingAt([], []);
    hide Product, Count;
    CountIs(a);
    assert Size(xs) == 1 && Member(xs, 0) == if |xs| == 1 then xs[0] else "";
    hide Size, Member;
    EntrySnoc(a, xs, p, 0);
  }

  /** A single list variable gives its members as they stand in the list. */
  lemma OneList(xs: seq<string>)
    requires |xs| > 1
    ensures Product([xs]) == xs
  {
    hide Product;
    NothingAt([], []);
    assert [] + [xs] == [xs];
    ProductOrder([], xs, 0, 0);
    forall k | 0 <= k < |xs|
      ensures Product([xs])[k] == xs[k]
    {
      ProductOrder([], xs, 0, k);
    }
  }

  // ---- the end of the enumeration ----

  /** The loop of `EndOfTwoDimList` from fragment `i` on: whether every fragment so far has gone round, and the
      last list variable looked at.  The loop stops at the second fragment that has not (at the first one for
      shell commands). */
  function Look(lists: seq<seq<string>>, rounds: seq<nat>, i: nat, done: bool, tp: int): (bool, int)
    requires i <= |lists| == |rounds|
    decreases |lists| - i
  {
    if i == |lists| then (done, tp)
    else
      var tp' := if Is2d(lists[i]) then i else tp;
      if rounds[i] == 0 then
        if !done then (done, tp') else Look(lists, rounds, i + 1, false, tp')
      else Look(lists, rounds, i + 1, done, tp')
  }

  lemma {:induction false} LookRange(lists: seq<seq<string>>, rounds: seq<nat>, i: nat, done: bool, tp: int)
    requires i <= |lists| == |rounds| && (tp == -1 || (0 <= tp < |lists| && Is2d(lists[tp])))
    ensures var r := Look(lists, rounds, i, done, tp).1; r == -1 || (0 <= r < |lists| && Is2d(lists[r]))
    decreases |lists| - i
  {
    if i < |lists| {
      var tp' := if Is2d(lists[i]) then i else tp;
      LookRange(lists, rounds, i + 1, false, tp');
      LookRange(lists, rounds, i + 1, done, tp');
    }
  }

  /** `EndOfTwoDimList`, and whether it marks the first fragment. */
  function Ended(lists: seq<seq<string>>, rounds: seq<nat>, shell: bool): bool
    requires |lists| == |rounds|
  {
    LookRange(lists, rounds, 0, !shell, -1);
    var (done, tp) := Look(lists, rounds, 0, !shell, -1);
    if done || |lists| == 0 then true
    else if tp == -1 then rounds[0] != 0
    else rounds[tp] > 0
  }

  function Marks(lists: seq<seq<string>>, rounds: seq<nat>, shell: bool): bool
    requires |lists| == |rounds|
  {
    var (done, tp) := Look(lists, rounds, 0, !shell, -1);
    |lists| > 0 && !done && tp == -1 && rounds[0] == 0
  }

  /** `EndOfTwoDimList`. */
  method EndOf(list: seq<Fragment>, shell: bool) returns (ended: bool)
    requires Distinct(list) && forall k :: 0 <= k < |list| ==> list[k].is2d == Is2d(list[k].items)
    modifies list
    ensures Currents(list) == old(Currents(list))
    ensures ended == Ended(Lists(list), old(Rounds(list)), shell)
    ensures Rounds(list) == if Marks(Lists(list), old(Rounds(list)), shell) then old(Rounds(list))[0 := 1] else old(Rounds(list))
  {
    hide Pointing;
    ghost var lists, rounds := Lists(list), Rounds(list);
    var tp, done, lp := -1, !shell, 0;
    LookRange(lists, rounds, 0, !shell, -1);
    while lp < |list|
      invariant 0 <= lp <= |list| && -1 <= tp < lp
      invariant Look(lists, rounds, lp, done, tp) == Look(lists, rounds, 0, !shell, -1)
      modifies {}
    {
      if list[lp].is2d {
        tp := lp;
      }
      if list[lp].rounds == 0 {
        if !done {
          break;
        }
        done := false;
      }
      lp := lp + 1;
    }
    assert (done, tp) == Look(lists, rounds, 0, !shell, -1);
    if done || |list| == 0 {
      return true;
    }
    if tp == -1 {
      if list[0].rounds == 0 {
        list[0].rounds := 1;
        assert Currents(list) == old(Currents(list));
        assert Rounds(list) == rounds[0 := 1];
        return false;
      }
      return true;
    }
    return list[tp].rounds > 0;
  }

  /** The leftmost list variable. */
  function Leftmost(lists: seq<seq<string>>): (j: nat)
    ensures j <= |lists| && (j < |lists| ==> Is2d(lists[j])) && forall k :: 0 <= k < j ==> !Is2d(lists[k])
  {
    if |lists| == 0 then 0 else if Is2d(lists[0]) then 0 else 1 + Leftmost(lists[1..])
  }

  /** How many entries are returned before the end is reported. */
  function Reported(lists: seq<seq<string>>, shell: bool): nat {
    var j := Leftmost(lists);
    if |lists| == 0 then 0
    else if j == |lists| then 1
    else if shell then if j <= 1 then Count(lists) else 1
    else if j >= 3 then 1
    else if j == 0 && |lists| > 1 && Is2d(lists[1]) then Count(lists[1..])
    else Count(lists)
  }

  /** Where the enumeration is complete. */
  predicate Complete(lists: seq<seq<string>>, shell: bool) {
    var j := Leftmost(lists);
    && |lists| > 0
    && (j == |lists| || (if shell then j <= 1 else j <= 2 && !(j == 0 && |lists| > 1 && Is2d(lists[1]))))
  }

  lemma CountSplit(lists: seq<seq<string>>)
    requires |lists| > 0
    ensures Count(lists) == Size(lists[0]) * Count(lists[1..]) && Count(lists) >= Count(lists[1..])
    ensures Is2d(lists[0]) ==> Count(lists) > Count(lists[1..])
  {
    Scale(Size(lists[0]), Count(lists[1..]));
  }

  lemma Scale(size: nat, n: nat)
    requires size > 0
    ensures size * n >= n && (size > 1 && n > 0 ==> size * n > n)
  {
    assert size * n == (size - 1) * n + n;
    if size > 1 {
      assert (size - 1) * n == (size - 2) * n + n;
    }
  }

  lemma {:induction false} CountRest(lists: seq<seq<string>>, k: nat)
    requires k <= |lists|
    ensures Count(lists) >= Count(lists[k..])
    decreases k
  {
    if k == 0 {
      assert lists[0..] == lists;
    } else {
      CountSplit(lists);
      CountRest(lists[1..], k - 1);
      assert lists[1..][k - 1..] == lists[k..];
    }
  }

  lemma NoListsCount(lists: seq<seq<string>>)
    requires Leftmost(lists) == |lists|
    ensures Count(lists) == 1
  {
    var cur: seq<nat> := seq(|lists|, _ => 0);
    SkipSingle(lists, cur, |lists|);
    assert lists[|lists|..] == [];
  }

  /** All combinations are returned exactly for these shapes. */
  lemma CompleteIff(lists: seq<seq<string>>, shell: bool)
    ensures Reported(lists, shell) == Count(lists) <==> Complete(lists, shell)
  {
    var j := Leftmost(lists);
    if |lists| > 0 {
      if j == |lists| {
        NoListsCount(lists);
      } else {
        CountRest(lists, j);
        CountSplit(lists[j..]);
        assert Count(lists[j..]) > 1;
        if j == 0 {
          assert lists[0..] == lists;
          CountSplit(lists);
        }
      }
    }
  }

  /** Two lists in front, of two members each: only two of the four combinations are returned. */
  lemma HalfReported()
    ensures Count([["a", "b"], ["c", "d"]]) == 4 && Reported([["a", "b"], ["c", "d"]], false) == 2
  {
    var lists := [["a", "b"], ["c", "d"]];
    assert lists[1..] == [["c", "d"]] && lists[1..][1..] == [];
    assert Count([]) == 1 && Count(lists[1..]) == 2;
  }

  /** The rounds after `t` entries, all of them but the last before the end. */
  predicate RoundsAt(lists: seq<seq<string>>, rounds: seq<nat>, t: nat, shell: bool) {
    && |rounds| == |lists|
    && (forall k :: 0 <= k < |lists| && Is2d(lists[k]) ==> (rounds[k] == 0 <==> t < Count(lists[k..])))
    && (forall k :: 0 < k < |lists| && !Is2d(lists[k]) ==> rounds[k] == 0)
    && (|lists| > 0 && !Is2d(lists[0]) ==> rounds[0] == if t > 0 && Leftmost(lists) >= (if shell || Leftmost(lists) == |lists| then 1 else 2) then 1 else 0)
  }

  lemma {:induction false} AllRound(lists: seq<seq<string>>, rounds: seq<nat>, i: nat, done: bool, tp: int)
    requires i <= |lists| == |rounds| && 0 <= tp < |lists| && rounds[tp] > 0
    requires forall k :: i <= k < |lists| && Is2d(lists[k]) ==> rounds[k] > 0
    ensures var r := Look(lists, rounds, i, done, tp); 0 <= r.1 < |lists| && rounds[r.1] > 0
    decreases |lists| - i
  {
    if i < |lists| {
      var tp' := if Is2d(lists[i]) then i else tp;
      AllRound(lists, rounds, i + 1, false, tp');
      AllRound(lists, rounds, i + 1, done, tp');
    }
  }

  lemma LookOn(lists: seq<seq<string>>, rounds: seq<nat>, i: nat, done: bool, tp: int)
    requires i < |lists| == |rounds|
    ensures var tp' := if Is2d(lists[i]) then i as int else tp;
            Look(lists, rounds, i, done, tp) ==
            if rounds[i] == 0 && !done then (done, tp') else Look(lists, rounds, i + 1, done && rounds[i] != 0, tp')
  {}

  lemma LookEnd(lists: seq<seq<string>>, rounds: seq<nat>, done: bool, tp: int)
    requires |lists| == |rounds|
    ensures Look(lists, rounds, |lists|, done, tp) == (done, tp)
  {}

  /** Before the last entry the end is not reported; the first call marks a first fragment that holds no list. */
  lemma NotEnded(lists: seq<seq<string>>, rounds: seq<nat>, t: nat, shell: bool)
    requires RoundsAt(lists, rounds, t, shell) && t < Reported(lists, shell)
    ensures !Ended(lists, rounds, shell)
    ensures Marks(lists, rounds, shell) <==> t == 0 && Leftmost(lists) >= (if shell || Leftmost(lists) == |lists| then 1 else 2)
  {
    hide Count, Look, Is2d, Leftmost;
    var j := Leftmost(lists);
    FrontCounts(lists);
    LookOn(lists, rounds, 0, !shell, -1);
    LookEnd(lists, rounds, !shell && rounds[0] != 0, if Is2d(lists[0]) then 0 else -1);
    if |lists| > 1 {
      var tp := if Is2d(lists[0]) then 0 else -1;
      LookOn(lists, rounds, 1, !shell && rounds[0] != 0, tp);
      var tp' := if Is2d(lists[1]) then 1 else tp;
      LookEnd(lists, rounds, !shell && rounds[0] != 0 && rounds[1] != 0, tp');
      if |lists| > 2 {
        LookOn(lists, rounds, 2, !shell && rounds[0] != 0 && rounds[1] != 0, tp');
      }
    }
  }

  lemma FrontCounts(lists: seq<seq<string>>)
    ensures |lists| > 0 ==> lists[0..] == lists && Count(lists[1..]) <= Count(lists)
    ensures Leftmost(lists) < |lists| ==> Count(lists[Leftmost(lists)..]) == Count(lists)
    ensures |lists| > 0 && Is2d(lists[0]) ==> Count(lists[1..]) < Count(lists)
  {
    if |lists| > 0 {
      CountSplit(lists);
    }
    var cur: seq<nat> := seq(|lists|, _ => 0);
    SkipSingle(lists, cur, Leftmost(lists));
  }

  /** After the last entry it is. */
  lemma EndedAfter(lists: seq<seq<string>>, rounds: seq<nat>, shell: bool)
    requires RoundsAt(lists, rounds, Reported(lists, shell), shell)
    ensures Ended(lists, rounds, shell) && !Marks(lists, rounds, shell)
  {
    if |lists| > 0 {
      var t := Reported(lists, shell);
      var j := Leftmost(lists);
      FrontCounts(lists);
      forall k | j < k < |lists| && Is2d(lists[k])
        ensures Count(lists[k..]) <= Count(lists[1..])
      {
        CountRest(lists[1..], k - 1);
        assert lists[1..][k - 1..] == lists[k..];
      }
      EndedShape(lists, rounds, t, shell);
    }
  }

  lemma EndedShape(lists: seq<seq<string>>, rounds: seq<nat>, t: nat, shell: bool)
    requires |lists| > 0 && RoundsAt(lists, rounds, t, shell) && t == Reported(lists, shell)
    requires lists[0..] == lists && Count(lists[1..]) <= Count(lists) && (Is2d(lists[0]) ==> Count(lists[1..]) < Count(lists))
    requires Leftmost(lists) < |lists| ==> Count(lists[Leftmost(lists)..]) == Count(lists)
    requires forall k :: Leftmost(lists) < k < |lists| && Is2d(lists[k]) ==> Count(lists[k..]) <= Count(lists[1..])
    ensures Ended(lists, rounds, shell) && !Marks(lists, rounds, shell)
  {
    hide Count, Look, Is2d, Leftmost, Ended, Marks;
    var j := Leftmost(lists);
    if j == 0 && |lists| > 1 && Is2d(lists[1]) && !shell {
      TwoInFront(lists, rounds);
    } else if j == 0 {
      FirstIsList(lists, rounds, shell);
    } else if j == 1 && |lists| > 1 {
      SecondIsList(lists, rounds, shell);
    } else if j == 2 && |lists| > 2 && !shell {
      ThirdIsList(lists, rounds);
    } else {
      NoListInFront(lists, rounds, shell);
    }
  }

  lemma TwoInFront(lists: seq<seq<string>>, rounds: seq<nat>)
    requires |lists| == |rounds| && |lists| > 1 && Is2d(lists[0]) && Is2d(lists[1]) && rounds[0] == 0
    requires forall k :: 1 <= k < |lists| && Is2d(lists[k]) ==> rounds[k] > 0
    ensures Ended(lists, rounds, false) && !Marks(lists, rounds, false)
  {
    hide Look;
    LookOn(lists, rounds, 0, true, -1);
    LookOn(lists, rounds, 1, false, 0);
    AllRound(lists, rounds, 2, false, 1);
  }

  lemma FirstIsList(lists: seq<seq<string>>, rounds: seq<nat>, shell: bool)
    requires |lists| == |rounds| && |lists| > 0 && Is2d(lists[0])
    requires forall k :: 0 <= k < |lists| && Is2d(lists[k]) ==> rounds[k] > 0
    ensures Ended(lists, rounds, shell) && !Marks(lists, rounds, shell)
  {
    hide Look;
    LookOn(lists, rounds, 0, !shell, -1);
    AllRound(lists, rounds, 1, !shell, 0);
  }

  lemma SecondIsList(lists: seq<seq<string>>, rounds: seq<nat>, shell: bool)
    requires |lists| == |rounds| && |lists| > 1 && !Is2d(lists[0]) && Is2d(lists[1]) && (shell ==> rounds[0] > 0)
    requires forall k :: 0 <= k < |lists| && Is2d(lists[k]) ==> rounds[k] > 0
    ensures Ended(lists, rounds, shell) && !Marks(lists, rounds, shell)
  {
    hide Look;
    LookOn(lists, rounds, 0, !shell, -1);
    LookOn(lists, rounds, 1, !shell && rounds[0] != 0, -1);
    AllRound(lists, rounds, 2, !shell && rounds[0] != 0, 1);
  }

  lemma ThirdIsList(lists: seq<seq<string>>, rounds: seq<nat>)
    requires |lists| == |rounds| && |lists| > 2 && !Is2d(lists[0]) && !Is2d(lists[1]) && Is2d(lists[2]) && rounds[0] > 0 && rounds[1] == 0
    requires forall k :: 0 <= k < |lists| && Is2d(lists[k]) ==> rounds[k] > 0
    ensures Ended(lists, rounds, false) && !Marks(lists, rounds, false)
  {
    hide Look;
    LookOn(lists, rounds, 0, true, -1);
    LookOn(lists, rounds, 1, true, -1);
    LookOn(lists, rounds, 2, false, -1);
    AllRound(lists, rounds, 3, false, 2);
  }

  lemma NoListInFront(lists: seq<seq<string>>, rounds: seq<nat>, shell: bool)
    requires |lists| == |rounds| && |lists| > 0 && rounds[0] > 0
    requires forall k :: 0 <= k < |lists| && k < (if shell then 2 else 3) ==> !Is2d(lists[k])
    requires forall k :: 0 < k < |lists| && !Is2d(lists[k]) ==> rounds[k] == 0
    ensures Ended(lists, rounds, shell) && !Marks(lists, rounds, shell)
  {
    hide Look;
    LookOn(lists, rounds, 0, !shell, -1);
    if |lists| == 1 {
      LookEnd(lists, rounds, !shell, -1);
    } else {
      LookOn(lists, rounds, 1, !shell, -1);
      if |lists| == 2 {
        LookEnd(lists, rounds, false, -1);
      } else {
        LookOn(lists, rounds, 2, false, -1);
      }
    }
  }

  // ---- whole enumerations ----

  /** After `t` entries. */
  ghost predicate After(list: seq<Fragment>, t: nat, shell: bool)
    reads list
  {
    var lists, cur, rounds := Lists(list), Currents(list), Rounds(list);
    && Valid(list) && Turned(lists, cur, rounds, t) && RoundsAt(lists, rounds, t, shell)
    && t <= Reported(lists, shell) && (t < Count(lists) ==> Position(lists, cur) == t)
  }

  lemma ReportedBound(lists: seq<seq<string>>, shell: bool)
    ensures Reported(lists, shell) <= Count(lists)
  {
    if |lists| > 0 {
      CountSplit(lists);
    }
  }

  lemma {:induction false} RoundsTurned(lists: seq<seq<string>>, cur: seq<nat>, rounds: seq<nat>, t: nat, k: nat)
    requires Pointing(lists, cur) && |rounds| == |lists| && Turned(lists, cur, rounds, t) && k < |lists| && Is2d(lists[k])
    ensures rounds[k] == 0 <==> t < Count(lists[k..])
  {
    TurnedAt(lists, cur, rounds, t, k);
    PositionBound(lists[k..], cur[k..]);
    if rounds[k] > 0 {
      Scale(rounds[k], Count(lists[k..]));
    } else {
      assert rounds[k] * Count(lists[k..]) == 0;
    }
  }

  /** The text of the current members, as `Get2DListEnt` puts it together. */
  method TextOf(list: seq<Fragment>) returns (entry: string)
    ensures entry == Text(Lists(list), Currents(list))
  {
    hide Text;
    entry := "";
    var tp := 0;
    ghost var lists, cur := Lists(list), Currents(list);
    assert lists[0..] == lists && cur[0..] == cur;
    while tp < |list|
      invariant 0 <= tp <= |list| && entry + Text(lists[tp..], cur[tp..]) == Text(lists, cur)
    {
      TextUnfold(lists[tp..], cur[tp..]);
      assert lists[tp..][1..] == lists[tp + 1..] && cur[tp..][1..] == cur[tp + 1..];
      ghost var rest := Text(lists[tp + 1..], cur[tp + 1..]);
      assert entry + (Member(list[tp].items, list[tp].current) + rest) == entry + Member(list[tp].items, list[tp].current) + rest;
      if list[tp].current < |list[tp].items| {
        entry := entry + list[tp].items[list[tp].current];
      } else {
        assert entry + "" == entry;
      }
      tp := tp + 1;
    }
    TextEnd(lists[tp..], cur[tp..]);
    assert entry + "" == entry;
  }

  lemma TextUnfold(lists: seq<seq<string>>, cur: seq<nat>)
    requires |lists| == |cur| > 0
    ensures Text(lists, cur) == Member(lists[0], cur[0]) + Text(lists[1..], cur[1..])
  {}

  lemma TextEnd(lists: seq<seq<string>>, cur: seq<nat>)
    requires |lists| == |cur| == 0
    ensures Text(lists, cur) == ""
  {}

  lemma NextAfter(lists: seq<seq<string>>, cur: seq<nat>, rounds: seq<nat>, t: nat, shell: bool)
    requires Pointing(lists, cur) && |rounds| == |lists| && Turned(lists, cur, rounds, t)
    requires forall k :: 0 < k < |lists| && !Is2d(lists[k]) ==> rounds[k] == 0
    requires |lists| > 0 && !Is2d(lists[0]) ==>
               rounds[0] == if t > 0 && Leftmost(lists) >= (if shell || Leftmost(lists) == |lists| then 1 else 2) then 1 else 0
    ensures RoundsAt(lists, rounds, t, shell)
  {
    forall k | 0 <= k < |lists| && Is2d(lists[k])
      ensures rounds[k] == 0 <==> t < Count(lists[k..])
    {
      RoundsTurned(lists, cur, rounds, t, k);
    }
  }

  /** Marking the first fragment, which holds no list, changes nothing for the others. */
  lemma Marked(lists: seq<seq<string>>, cur: seq<nat>, rounds: seq<nat>, t: nat)
    requires |cur| == |lists| == |rounds| && |lists| > 0 && !Is2d(lists[0]) && Turned(lists, cur, rounds, t)
    ensures Turned(lists, cur, rounds[0 := 1], t)
  {
    hide Count, Position, Is2d;
  }

  /** `Get2DListEnt` on a list that is not tied: the next combination, until the end is reported. */
  method GetEntry(list: seq<Fragment>, shell: bool, ghost t: nat) returns (entry: Option<string>)
    requires After(list, t, shell)
    modifies list
    ensures var lists := Lists(list);
            && |Product(lists)| == Count(lists) >= Reported(lists, shell)
            && entry == if t < Reported(lists, shell) then Some(Product(lists)[t]) else None
    ensures entry.Some? ==> After(list, t + 1, shell)
  {
    hide Turned, RoundsAt, Position, Count, Product, Text, Reported, Pointing, Ended, Marks, Valid;
    ghost var lists, cur, rounds := Lists(list), Currents(list), Rounds(list);
    ValidFlags(list);
    ProductAt(lists, cur);
    ReportedBound(lists, shell);
    var ended := EndOf(list, shell);
    if ended {
      StillGoing(lists, rounds, t, shell);
      return None;
    }
    StillValid(list);
    var s := TextOf(list);
    entry := Some(s);
    EntryStep(lists, cur, rounds, t, shell);
    ghost var marked := Rounds(list);
    var wrapped := Increment(list, t);
    ValidFlags(list);
    StepDone(lists, marked, Currents(list), Rounds(list), t, shell);
    assert t + 1 < Count(lists) ==> Position(lists, Currents(list)) == t + 1;
  }

  lemma StillValid(list: seq<Fragment>)
    requires Distinct(list) && Pointing(Lists(list), Currents(list))
    requires forall k :: 0 <= k < |list| ==> list[k].is2d == Is2d(list[k].items)
    ensures Valid(list)
  {}

  lemma StillGoing(lists: seq<seq<string>>, rounds: seq<nat>, t: nat, shell: bool)
    requires RoundsAt(lists, rounds, t, shell) && t <= Reported(lists, shell)
    ensures Ended(lists, rounds, shell) <==> t == Reported(lists, shell)
  {
    if t < Reported(lists, shell) {
      NotEnded(lists, rounds, t, shell);
    } else {
      EndedAfter(lists, rounds, shell);
    }
  }

  /** The first fragment is marked by the first call, where that happens. */
  predicate FirstMark(lists: seq<seq<string>>, rounds: seq<nat>, t: nat, shell: bool) {
    && |rounds| == |lists| && (forall k :: 0 < k < |lists| && !Is2d(lists[k]) ==> rounds[k] == 0)
    && (|lists| > 0 && !Is2d(lists[0]) ==>
          rounds[0] == if t > 0 && Leftmost(lists) >= (if shell || Leftmost(lists) == |lists| then 1 else 2) then 1 else 0)
  }

  lemma EntryStep(lists: seq<seq<string>>, cur: seq<nat>, rounds: seq<nat>, t: nat, shell: bool)
    requires |cur| == |lists| && RoundsAt(lists, rounds, t, shell) && t <= Reported(lists, shell) && !Ended(lists, rounds, shell)
    requires Turned(lists, cur, rounds, t)
    ensures t < Reported(lists, shell)
    ensures var marked := if Marks(lists, rounds, shell) then rounds[0 := 1] else rounds;
            Turned(lists, cur, marked, t) && FirstMark(lists, marked, t + 1, shell)
  {
    hide Turned, Count, Position, Ended;
    StillGoing(lists, rounds, t, shell);
    NotEnded(lists, rounds, t, shell);
    if Marks(lists, rounds, shell) {
      hide Marks;
      Marked(lists, cur, rounds, t);
    }
  }

  lemma StepDone(lists: seq<seq<string>>, marked: seq<nat>, cur: seq<nat>, rounds: seq<nat>, t: nat, shell: bool)
    requires Pointing(lists, cur) && |rounds| == |lists| == |marked| && Turned(lists, cur, rounds, t + 1) && FirstMark(lists, marked, t + 1, shell)
    requires forall k :: 0 <= k < |lists| && !Is2d(lists[k]) ==> rounds[k] == marked[k]
    ensures RoundsAt(lists, rounds, t + 1, shell)
  {
    hide Turned, Count;
    NextAfter(lists, cur, rounds, t + 1, shell);
  }

  lemma AtStart(lists: seq<seq<string>>, cur: seq<nat>, rounds: seq<nat>, shell: bool)
    requires |cur| == |lists| == |rounds| && forall k :: 0 <= k < |lists| ==> cur[k] == 0 && rounds[k] == 0
    ensures Pointing(lists, cur) && Turned(lists, cur, rounds, 0) && RoundsAt(lists, rounds, 0, shell) && Position(lists, cur) == 0
  {
    hide Position, Count, RoundsAt, Leftmost;
    hide Turned;
    ZeroTurned(lists, cur, rounds);
    ZeroPosition(lists, cur);
    NextAfter(lists, cur, rounds, 0, shell);
  }

  lemma ZeroTurned(lists: seq<seq<string>>, cur: seq<nat>, rounds: seq<nat>)
    requires |cur| == |lists| == |rounds| && forall k :: 0 <= k < |lists| ==> cur[k] == 0 && rounds[k] == 0
    ensures Turned(lists, cur, rounds, 0)
  {
    hide Position, Count, Is2d;
    forall k | 0 <= k < |lists| && Is2d(lists[k])
      ensures rounds[k] * Count(lists[k..]) + Position(lists[k..], cur[k..]) == 0
    {
      ZeroPosition(lists[k..], cur[k..]);
    }
  }

  lemma {:induction false} ZeroPosition(lists: seq<seq<string>>, cur: seq<nat>)
    requires |cur| == |lists| && forall k :: 0 <= k < |lists| ==> cur[k] == 0
    ensures Position(lists, cur) == 0
  {
    if |lists| > 0 {
      ZeroPosition(lists[1..], cur[1..]);
    }
  }

  /** All entries of a fresh list that is not tied: the combinations in order, each once, as many as are reported. */
  method AllEntries(list: seq<Fragment>, shell: bool) returns (entries: seq<string>)
    requires Distinct(list) && forall k :: 0 <= k < |list| ==> list[k].is2d == Is2d(list[k].items)
    requires forall k :: 0 <= k < |list| ==> list[k].current == 0 && list[k].rounds == 0
    modifies list
    ensures var lists := Lists(list);
            && |Product(lists)| == Count(lists) >= Reported(lists, shell) == |entries|
            && entries == Product(lists)[..Reported(lists, shell)]
            && (entries == Product(lists) <==> Complete(lists, shell))
  {
    hide Turned, RoundsAt, Position, Count, Product, Reported, Pointing, Is2d, Complete, After, Distinct;
    entries := [];
    ghost var lists, t := Lists(list), 0;
    AfterStart(list, shell);
    CompleteIff(lists, shell);
    while true
      invariant After(list, t, shell) && t <= Reported(lists, shell) <= Count(lists) == |Product(lists)|
      invariant |entries| == t && entries == Product(lists)[..t]
      decreases Reported(lists, shell) - t
      modifies list
    {
      var entry := GetEntry(list, shell, t);
      if entry.None? {
        return;
      }
      entries := entries + [entry.value];
      t := t + 1;
      AfterBound(list, t, shell);
    }
  }

  lemma AfterStart(list: seq<Fragment>, shell: bool)
    requires Distinct(list) && forall k :: 0 <= k < |list| ==> list[k].is2d == Is2d(list[k].items)
    requires forall k :: 0 <= k < |list| ==> list[k].current == 0 && list[k].rounds == 0
    ensures After(list, 0, shell)
    ensures var lists := Lists(list); 0 <= Reported(lists, shell) <= Count(lists) == |Product(lists)|
  {
    hide Turned, RoundsAt, Position, Count, Product, Reported, Is2d;
    var lists := Lists(list);
    AtStart(lists, Currents(list), Rounds(list), shell);
    ProductAt(lists, Currents(list));
    ReportedBound(lists, shell);
  }

  lemma AfterBound(list: seq<Fragment>, t: nat, shell: bool)
    requires After(list, t, shell)
    ensures t <= Reported(Lists(list), shell)
  {}

  // ---- tied lists ----

  /** `TieIncrementTwoDimList`: all pointers go on together.  It stops at a null pointer that it would have to follow. */
  method TieIncrement(list: seq<Fragment>) returns (ok: bool)
    requires Distinct(list)
    modifies list
    ensures ok <==> forall k :: 0 <= k < |list| && list[k].is2d ==> old(list[k].current) < |list[k].items|
    ensures ok ==> forall k :: 0 <= k < |list| ==>
              && list[k].current == old(list[k].current) + (if list[k].is2d then 1 else 0)
              && list[k].rounds == (if !list[k].is2d || old(list[k].current) + 1 == |list[k].items| then 1 else old(list[k].rounds))
  {
    var tp := 0;
    while tp < |list|
      invariant 0 <= tp <= |list|
      invariant forall k :: 0 <= k < tp && list[k].is2d ==> old(list[k].current) < |list[k].items|
      invariant forall k :: 0 <= k < tp ==>
                  && list[k].current == old(list[k].current) + (if list[k].is2d then 1 else 0)
                  && list[k].rounds == (if !list[k].is2d || old(list[k].current) + 1 == |list[k].items| then 1 else old(list[k].rounds))
      invariant forall k :: tp <= k < |list| ==> list[k].current == old(list[k].current) && list[k].rounds == old(list[k].rounds)
      modifies list
    {
      if list[tp].is2d {
        if list[tp].current >= |list[tp].items| {
          return false;
        }
        list[tp].current := list[tp].current + 1;
        if list[tp].current == |list[tp].items| {
          list[tp].rounds := 1;
        }
      } else {
        list[tp].rounds := 1;
      }
      tp := tp + 1;
    }
    return true;
  }

  /** All list variables stand at their member `t`. */
  function Abreast(lists: seq<seq<string>>, t: nat): (cur: seq<nat>)
    ensures |cur| == |lists|
  {
    seq(|lists|, k requires 0 <= k < |lists| => if Is2d(lists[k]) then t else 0)
  }

  /** Entry number `t` of tied lists. */
  function TiedEntry(lists: seq<seq<string>>, t: nat): string {
    Text(lists, Abreast(lists, t))
  }

  /** It is made of the members with that number, one behind the other; a fragment with one value always adds it. */
  lemma TiedOrder(a: seq<seq<string>>, xs: seq<string>, t: nat)
    ensures TiedEntry([], t) == ""
    ensures |xs| > 1 && t < |xs| ==> TiedEntry(a + [xs], t) == TiedEntry(a, t) + xs[t]
    ensures |xs| <= 1 ==> TiedEntry(a + [xs], t) == TiedEntry(a, t) + if |xs| == 1 then xs[0] else ""
  {
    var k := if Is2d(xs) then t else 0;
    assert Abreast(a + [xs], t) == Abreast(a, t) + [k];
    hide Text;
    TextEnd([], []);
    assert Abreast([], t) == [];
    TextSnoc(a, Abreast(a, t), xs, k);
  }

  /** The length of the shortest list variable; 1 when there are none. */
  function Shortest(lists: seq<seq<string>>): (n: nat)
    ensures n > 0 && forall k :: 0 <= k < |lists| && Is2d(lists[k]) ==> 1 < n <= |lists[k]|
  {
    if |lists| == 0 then 1
    else
      var rest := Shortest(lists[1..]);
      assert forall k :: 0 < k < |lists| ==> lists[k] == lists[1..][k - 1];
      if Is2d(lists[0]) && (rest == 1 || |lists[0]| < rest) then |lists[0]| else rest
  }

  /** A list variable that is longer than the shortest. */
  predicate Longer(lists: seq<seq<string>>, k: int) {
    0 <= k < |lists| && Is2d(lists[k]) && |lists[k]| > Shortest(lists)
  }

  /** The only longer list variable is followed by another list variable. */
  predicate OneLonger(lists: seq<seq<string>>, i: int) {
    && Longer(lists, i) && (forall k :: 0 <= k < |lists| && Longer(lists, k) ==> k == i)
    && exists k :: i < k < |lists| && Is2d(lists[k])
  }

  /** Where the end of tied lists is seen before a pointer runs out. */
  predicate TiedSafe(lists: seq<seq<string>>, shell: bool) {
    (forall k :: 0 <= k < |lists| ==> !Longer(lists, k)) || (!shell && exists i :: 0 <= i < |lists| && OneLonger(lists, i))
  }

  /** After `t` entries of tied lists. */
  ghost predicate Marching(list: seq<Fragment>, t: nat)
    reads list
  {
    && Distinct(list) && (forall k :: 0 <= k < |list| ==> list[k].is2d == Is2d(list[k].items))
    && Currents(list) == Abreast(Lists(list), t) && TiedRounds(Lists(list), Rounds(list), t)
  }

  /** A list variable has gone round when its last member has been returned, another fragment after the first entry. */
  predicate TiedRounds(lists: seq<seq<string>>, rounds: seq<nat>, t: nat) {
    |rounds| == |lists| && forall k :: 0 <= k < |lists| ==> rounds[k] == if t == 0 || (Is2d(lists[k]) && t < |lists[k]|) then 0 else 1
  }

  lemma {:induction false} LookKeeps(lists: seq<seq<string>>, rounds: seq<nat>, i: nat, tp: int)
    requires i <= |lists| == |rounds| && 0 <= tp < |lists| && Is2d(lists[tp])
    ensures var r := Look(lists, rounds, i, false, tp); !r.0 && 0 <= r.1 < |lists| && Is2d(lists[r.1])
    decreases |lists| - i
  {
    if i < |lists| {
      LookKeeps(lists, rounds, i + 1, if Is2d(lists[i]) then i else tp);
    }
  }

  /** While the list variables have not gone round, one of them is what the end is judged by. */
  lemma {:induction false} LookFinds(lists: seq<seq<string>>, rounds: seq<nat>, i: nat, j: nat, done: bool)
    requires i <= j < |lists| == |rounds| && Is2d(lists[j]) && rounds[j] == 0
    requires forall k :: i <= k < j ==> !Is2d(lists[k]) && rounds[k] > 0
    ensures var r := Look(lists, rounds, i, done, -1); !r.0 && 0 <= r.1 < |lists| && Is2d(lists[r.1])
    decreases j - i
  {
    if i < j {
      LookFinds(lists, rounds, i + 1, j, done);
    } else {
      LookKeeps(lists, rounds, i + 1, i);
    }
  }

  lemma {:induction false} LookNone(lists: seq<seq<string>>, rounds: seq<nat>, i: nat, done: bool, tp: int)
    requires i <= |lists| == |rounds| && (forall k :: i <= k < |lists| ==> rounds[k] > 0) && (tp == -1 || 0 <= tp < |lists|)
    ensures var r := Look(lists, rounds, i, done, tp);
            && r.0 == done && (r.1 == -1 || 0 <= r.1 < |lists|)
            && (r.1 == tp || i <= r.1) && (r.1 == tp <== forall k :: i <= k < |lists| ==> !Is2d(lists[k]))
            && (r.1 != tp <== tp < i && exists k :: i <= k < |lists| && Is2d(lists[k]))
    decreases |lists| - i
  {
    if i < |lists| {
      LookNone(lists, rounds, i + 1, done, if Is2d(lists[i]) then i else tp);
    }
  }

  /** The first list variable that has not gone round: a search that has seen one before stops there. */
  lemma {:induction false} LookTo(lists: seq<seq<string>>, rounds: seq<nat>, i: nat, j: nat, done: bool, tp: int)
    requires i <= j < |lists| == |rounds| && Is2d(lists[j]) && rounds[j] == 0 && forall k :: i <= k < j ==> rounds[k] > 0
    ensures Look(lists, rounds, i, done, tp) == if done then Look(lists, rounds, j + 1, false, j) else (false, j)
    decreases j - i
  {
    if i < j {
      LookTo(lists, rounds, i + 1, j, done, if Is2d(lists[i]) then i else tp);
    }
  }

  /** When the shortest list has run out, the end is reported exactly where it is seen in time. */
  lemma TiedEnd(lists: seq<seq<string>>, rounds: seq<nat>, t: nat, shell: bool)
    requires |lists| > 0 && t <= Shortest(lists) && TiedRounds(lists, rounds, t)
    ensures Ended(lists, rounds, shell) <==> t == Shortest(lists) && TiedSafe(lists, shell)
    ensures Marks(lists, rounds, shell) ==> t == 0 && !Is2d(lists[0])
  {
    hide Look, Count, Shortest, TiedSafe, Longer, Leftmost;
    if t == 0 {
      TiedStart(lists, rounds, shell);
    } else if t < Shortest(lists) && Leftmost(lists) < |lists| {
      LookFinds(lists, rounds, 0, Leftmost(lists), !shell);
    } else {
      NoneBelow(lists);
      TiedOut(lists, rounds, shell);
    }
  }

  lemma {:induction false} NoneBelow(lists: seq<seq<string>>)
    ensures Leftmost(lists) == |lists| ==> Shortest(lists) == 1
  {
    if |lists| > 0 {
      NoneBelow(lists[1..]);
    }
  }

  lemma TiedOut(lists: seq<seq<string>>, rounds: seq<nat>, shell: bool)
    requires |lists| > 0 && TiedRounds(lists, rounds, Shortest(lists))
    ensures Ended(lists, rounds, shell) <==> TiedSafe(lists, shell)
    ensures !Marks(lists, rounds, shell)
  {
    hide Look, Shortest, TiedRounds, Longer, OneLonger, Ended, Marks;
    RoundsLonger(lists, rounds);
    if i: nat :| Longer(lists, i) {
      hide Is2d;
      var i1 := FirstLonger(lists, 0, i);
      LookTo(lists, rounds, 0, i1, !shell, -1);
      if shell {
        EndsBy(lists, rounds, shell, false, i1);
      } else if j: nat :| Longer(lists, j) && j > i1 {
        SecondLonger(lists, rounds, i1, j);
      } else {
        LastLonger(lists, rounds, i1);
      }
    } else {
      LookNone(lists, rounds, 0, !shell, -1);
      var tp := Look(lists, rounds, 0, !shell, -1).1;
      EndsBy(lists, rounds, shell, !shell, tp);
    }
  }

  lemma EndsBy(lists: seq<seq<string>>, rounds: seq<nat>, shell: bool, done: bool, tp: int)
    requires |rounds| == |lists| > 0 && Look(lists, rounds, 0, !shell, -1) == (done, tp) && -1 <= tp < |lists|
    ensures Ended(lists, rounds, shell) <==> done || rounds[if tp == -1 then 0 else tp] > 0
    ensures Marks(lists, rounds, shell) <==> !done && tp == -1 && rounds[0] == 0
  {
    hide Look, Is2d;
  }

  /** Of two list variables that have not gone round, the second is what the end is judged by. */
  lemma SecondLonger(lists: seq<seq<string>>, rounds: seq<nat>, i1: nat, j: nat)
    requires Longer(lists, i1) && Longer(lists, j) && i1 < j < |lists| == |rounds| && Look(lists, rounds, 0, true, -1) == Look(lists, rounds, i1 + 1, false, i1)
    requires forall k: nat :: k < |lists| ==> (Longer(lists, k) ==> Is2d(lists[k])) && (rounds[k] == 0 <==> Longer(lists, k))
    ensures !Ended(lists, rounds, false) && !TiedSafe(lists, false) && !Marks(lists, rounds, false)
  {
    hide Look, Longer, Ended, Marks, Is2d;
    var i2 := FirstLonger(lists, i1 + 1, j);
    LookTo(lists, rounds, i1 + 1, i2, false, i1);
    EndsBy(lists, rounds, false, false, i2);
  }

  /** Where there is only one, it is the last list variable that counts. */
  lemma LastLonger(lists: seq<seq<string>>, rounds: seq<nat>, i1: nat)
    requires Longer(lists, i1) && i1 < |lists| == |rounds| && Look(lists, rounds, 0, true, -1) == Look(lists, rounds, i1 + 1, false, i1)
    requires forall k: nat :: k < |lists| ==> (rounds[k] == 0 <==> Longer(lists, k)) && (Longer(lists, k) ==> k == i1)
    ensures Ended(lists, rounds, false) <==> TiedSafe(lists, false)
    ensures !Marks(lists, rounds, false)
  {
    hide Look, Longer, Ended, Marks, Is2d;
    LookNone(lists, rounds, i1 + 1, false, i1);
    EndsBy(lists, rounds, false, false, Look(lists, rounds, 0, true, -1).1);
    assert OneLonger(lists, i1) <==> exists k :: i1 < k < |lists| && Is2d(lists[k]);
  }

  lemma RoundsLonger(lists: seq<seq<string>>, rounds: seq<nat>)
    requires TiedRounds(lists, rounds, Shortest(lists))
    ensures |rounds| == |lists|
    ensures forall k: nat :: k < |lists| ==> (Longer(lists, k) ==> Is2d(lists[k])) && (rounds[k] == 0 <==> Longer(lists, k))
    ensures forall k :: Longer(lists, k) ==> 0 <= k < |lists|
  {
    hide Shortest;
  }

  lemma {:induction false} FirstLonger(lists: seq<seq<string>>, from: nat, i: nat) returns (j: nat)
    requires from <= i && Longer(lists, i)
    ensures from <= j <= i && Longer(lists, j) && forall k: nat :: from <= k < j ==> !Longer(lists, k)
    decreases i - from
  {
    hide Longer;
    j := from;
    if !Longer(lists, from) {
      j := FirstLonger(lists, from + 1, i);
    }
  }

  lemma TiedStart(lists: seq<seq<string>>, rounds: seq<nat>, shell: bool)
    requires |rounds| == |lists| > 0 && forall k :: 0 <= k < |lists| ==> rounds[k] == 0
    ensures !Ended(lists, rounds, shell) && (Marks(lists, rounds, shell) ==> !Is2d(lists[0]))
  {
    hide Look;
    LookOn(lists, rounds, 0, !shell, -1);
    if |lists| == 1 {
      LookEnd(lists, rounds, false, if Is2d(lists[0]) then 0 else -1);
    } else {
      LookOn(lists, rounds, 1, false, if Is2d(lists[0]) then 0 else -1);
    }
  }

  /** What a call of `Get2DListEnt` comes to; `NullPointer` where it follows one. */
  datatype Tied = Entry(text: string) | Finished | NullPointer

  /** `Get2DListEnt` on a tied list. */
  method GetTied(list: seq<Fragment>, shell: bool, ghost t: nat) returns (r: Tied)
    requires |list| > 0 && Marching(list, t) && t <= Shortest(Lists(list))
    modifies list
    ensures var lists := Lists(list);
            r == if t < Shortest(lists) then Entry(TiedEntry(lists, t)) else if TiedSafe(lists, shell) then Finished else NullPointer
    ensures r.Entry? ==> Marching(list, t + 1)
  {
    hide Shortest, Text, Ended, Marks, Is2d, TiedSafe, TiedRounds;
    ghost var lists := Lists(list);
    TiedValid(list, t);
    TiedEnd(lists, Rounds(list), t, shell);
    MarkedFirst(lists, Rounds(list), t);
    var ended := EndOf(list, shell);
    if ended {
      return Finished;
    }
    var s := TextOf(list);
    ghost var cur, rounds := Currents(list), Rounds(list);
    RunsOut(list, t, shell);
    var ok := TieIncrement(list);
    if !ok {
      return NullPointer;
    }
    r := Entry(s);
    MarchingNext(list, cur, rounds, t);
  }

  /** The mark on the first fragment changes nothing, as every entry marks it. */
  lemma MarkedFirst(lists: seq<seq<string>>, rounds: seq<nat>, t: nat)
    requires |lists| > 0 && TiedRounds(lists, rounds, t)
    ensures forall k :: 0 <= k < |lists| && Is2d(lists[k]) ==> rounds[k] == if t < |lists[k]| then 0 else 1
    ensures |rounds| == |lists|
  {}

  /** A list variable has run out exactly when as many entries have been returned as the shortest one has members. */
  lemma RunsOut(list: seq<Fragment>, t: nat, shell: bool)
    requires (forall k :: 0 <= k < |list| ==> list[k].is2d == Is2d(list[k].items)) && t <= Shortest(Lists(list))
    requires Currents(list) == Abreast(Lists(list), t) && (t == Shortest(Lists(list)) ==> !TiedSafe(Lists(list), shell))
    ensures t < Shortest(Lists(list)) <==> forall k :: 0 <= k < |list| && list[k].is2d ==> list[k].current < |list[k].items|
  {
    hide Is2d, Shortest;
    var lists := Lists(list);
    ShortestIs(lists);
  }

  lemma {:induction false} ShortestIs(lists: seq<seq<string>>)
    ensures Shortest(lists) == 1 || exists k :: 0 <= k < |lists| && Is2d(lists[k]) && |lists[k]| == Shortest(lists)
    ensures Shortest(lists) == 1 <==> forall k :: 0 <= k < |lists| ==> !Is2d(lists[k])
  {
    if |lists| > 0 {
      var rest := lists[1..];
      ShortestIs(rest);
      if k :| 0 <= k < |rest| && Is2d(rest[k]) && |rest[k]| == Shortest(rest) {
        assert lists[k + 1] == rest[k];
      }
    }
  }

  lemma MarchingNext(list: seq<Fragment>, cur: seq<nat>, rounds: seq<nat>, t: nat)
    requires |rounds| == |list| && cur == Abreast(Lists(list), t) && Distinct(list)
    requires forall k :: 0 <= k < |list| ==> list[k].is2d == Is2d(list[k].items) && (list[k].is2d ==> t < |list[k].items| && rounds[k] == 0)
    requires forall k :: 0 <= k < |list| ==>
               && list[k].current == cur[k] + (if list[k].is2d then 1 else 0)
               && list[k].rounds == (if !list[k].is2d || cur[k] + 1 == |list[k].items| then 1 else rounds[k])
    ensures Marching(list, t + 1)
  {
    hide Distinct, Is2d;
    assert forall k :: 0 <= k < |list| ==> Currents(list)[k] == Abreast(Lists(list), t + 1)[k];
  }

  lemma TiedValid(list: seq<Fragment>, t: nat)
    requires Marching(list, t)
    ensures Distinct(list) && (forall k :: 0 <= k < |list| ==> list[k].is2d == Is2d(list[k].items))
    ensures Currents(list) == Abreast(Lists(list), t) && TiedRounds(Lists(list), Rounds(list), t)
  {}

  /** All entries of a fresh tied list: the members with the same number go together, as far as the shortest list variable
      reaches.  Then the end is reported, or a null pointer is followed, exactly as the lengths and the action say. */
  method AllTied(list: seq<Fragment>, shell: bool) returns (entries: seq<string>, ok: bool)
    requires |list| > 0 && Marching(list, 0)
    modifies list
    ensures var lists := Lists(list);
            |entries| == Shortest(lists) && forall t: nat :: t < Shortest(lists) ==> entries[t] == TiedEntry(lists, t)
    ensures ok <==> TiedSafe(Lists(list), shell)
  {
    hide Shortest, Is2d, Marching, TiedEntry, TiedSafe;
    entries := [];
    ghost var lists, t := Lists(list), 0;
    while true
      invariant Marching(list, t) && |entries| == t <= Shortest(lists)
      invariant forall u: nat :: u < t ==> entries[u] == TiedEntry(lists, u)
      decreases Shortest(lists) - t
      modifies list
    {
      var r := GetTied(list, shell, t);
      if !r.Entry? {
        return entries, r.Finished?;
      }
      entries := entries + [r.text];
      t := t + 1;
    }
  }

  /** Three members beside two end well, except for shell commands; two beside three do not. */
  lemma UnevenLists()
    ensures TiedSafe([["a", "b", "c"], ["d", "e"]], false) && !TiedSafe([["a", "b", "c"], ["d", "e"]], true)
    ensures !TiedSafe([["a", "b"], ["c", "d", "e"]], false)
  {
    ShortFirst();
    var lists := [["a", "b", "c"], ["d", "e"]];
    assert Shortest(lists) == 2 by {
      assert lists[1..] == [["d", "e"]] && lists[1..][1..] == [];
      assert Shortest([["d", "e"]]) == 2;
    }
    assert Longer(lists, 0) && !Longer(lists, 1) && Is2d(lists[1]);
    assert OneLonger(lists, 0);
  }

  lemma ShortFirst()
    ensures !TiedSafe([["a", "b"], ["c", "d", "e"]], false)
  {
    var lists := [["a", "b"], ["c", "d", "e"]];
    assert Shortest(lists) == 2 by {
      assert lists[1..] == [["c", "d", "e"]] && lists[1..][1..] == [];
      assert Shortest([["c", "d", "e"]]) == 3;
    }
    assert Longer(lists, 1) && !Longer(lists, 0);
  }
}
