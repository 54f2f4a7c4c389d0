/** `getopt`: the scan of `argv` spread over many calls, with the arguments permuted in place. */
module Getopt {
  import opened GetoptSpec
  import opened Wrappers

  /** The static variables of `getopt.c`; an empty `nextchar` stands for a null pointer as well. */
  class Getopt {
    const argv: array<string>
    const optstring: string
    const posixlyCorrect: bool
    var optind: int
    var nextchar: string
    var optarg: Option<string>
    var optopt: char
    var ordering: Ordering
    var firstNonopt: int
    var lastNonopt: int
    ghost const args: seq<string>
    ghost var events: seq<Event>

    constructor (argv: array<string>, optstring: string, posixlyCorrect: bool)
      requires argv.Length > 0
      ensures this.argv == argv && this.optstring == optstring && this.posixlyCorrect == posixlyCorrect && args == argv[..]
      ensures optind == 0 && events == [] && Valid()
    {
      this.argv, this.optstring, this.posixlyCorrect := argv, optstring, posixlyCorrect;
      optind, nextchar, optarg, optopt, ordering := 0, "", None, '?', Permute;
      firstNonopt, lastNonopt := 0, 0;
      args, events := argv[..], [];
    }

    /** The ordering that the list of option characters or the environment asks for. */
    function OrderingAsked(): Ordering
    {
      if |optstring| > 0 && optstring[0] == '-' then ReturnInOrder
      else if |optstring| > 0 && optstring[0] == '+' then RequireOrder
      else if posixlyCorrect then RequireOrder
      else Permute
    }

    /** The list of option characters the first call works with. */
    function Stripped(): string
    {
      if |optstring| > 0 && (optstring[0] == '-' || optstring[0] == '+') then optstring[1..] else optstring
    }

    /** What the whole scan comes to. */
    ghost function All(): Scan
      requires |args| > 0
    {
      ScanArgs(Stripped(), optstring, OrderingAsked(), args[1..])
    }

    /** Option elements scanned so far, and ordinary arguments passed over. */
    ghost function Units(): seq<string>
      requires 1 <= firstNonopt <= lastNonopt <= optind <= argv.Length
      reads `firstNonopt, `lastNonopt, `optind, argv
    {
      argv[1..firstNonopt] + argv[lastNonopt..optind]
    }

    ghost function Others(): seq<string>
      requires 1 <= firstNonopt <= lastNonopt <= argv.Length
      reads `firstNonopt, `lastNonopt, argv
    {
      argv[firstNonopt..lastNonopt]
    }

    /** Indices in order, the first argument in its place and the arguments still to come as they were. */
    ghost predicate InOrder()
      reads `firstNonopt, `lastNonopt, `optind, argv
    {
      && argv.Length == |args| > 0
      && 1 <= firstNonopt <= lastNonopt <= optind <= argv.Length
      && argv[0] == args[0] && argv[optind..] == args[optind..]
    }

    /** What is left of the scan. */
    ghost function Left(now: string): Scan
      requires 0 <= optind <= argv.Length && (nextchar != "" ==> optind < argv.Length)
      reads `optind, `nextchar, argv
    {
      if nextchar != "" then ScanElement(now, optstring, OrderingAsked(), nextchar, argv[optind..])
      else ScanArgs(now, optstring, OrderingAsked(), argv[optind..])
    }

    /** Between two calls: what has been reported and what is left make up the whole scan. */
    ghost predicate Valid()
      reads this, argv
    {
      && argv.Length == |args| > 0
      && if optind == 0 then argv[..] == args && events == [] && nextchar == ""
         else Going(optstring)
    }

    /** The same inside a call that works with the option characters `now`. */
    ghost predicate Going(now: string)
      reads this, argv
    {
      && InOrder() && ordering == OrderingAsked() && (nextchar != "" ==> optind < argv.Length)
      && (ordering != Permute ==> firstNonopt == 1 == lastNonopt)
      && All() == Ahead(events, Units(), Others(), Left(now))
    }

    /** Swap two blocks of the same length that do not overlap. */
    method SwapBlocks(i: int, j: int, len: int)
      requires 0 <= i && 0 <= len && i + len <= j && j + len <= argv.Length
      modifies argv
      ensures Swapped(old(argv[..]), argv[..], i, j, len)
    {
      var k := 0;
      while k < len
        invariant 0 <= k <= len
        invariant forall m :: i <= m < i + k ==> argv[m] == old(argv[m - i + j])
        invariant forall m :: j <= m < j + k ==> argv[m] == old(argv[m - j + i])
        invariant forall m :: 0 <= m < argv.Length && !(i <= m < i + k) && !(j <= m < j + k) ==> argv[m] == old(argv[m])
      {
        var tem := argv[i + k];
        argv[i + k] := argv[j + k];
        argv[j + k] := tem;
        k := k + 1;
      }
      SameSlice(old(argv[..]), argv[..], i, j, len);
    }

    /** `exchange`: the ordinary arguments move behind the options that follow them. */
    method Exchange()
      requires 0 <= firstNonopt <= lastNonopt <= optind <= argv.Length
      modifies `firstNonopt, `lastNonopt, argv
      ensures argv[..] == Rotated(old(argv[..]), old(firstNonopt), old(lastNonopt), optind)
      ensures firstNonopt == old(firstNonopt) + (optind - old(lastNonopt)) && lastNonopt == optind
    {
      Rotate(firstNonopt, lastNonopt, optind);
      firstNonopt := firstNonopt + (optind - lastNonopt);
      lastNonopt := optind;
    }

    /** Exchange the shorter block with the far end of the longer one until both are in place. */
    method Rotate(first: int, last: int, end: int)
      requires 0 <= first <= last <= end <= argv.Length
      modifies argv
      ensures argv[..] == Rotated(old(argv[..]), first, last, end)
    {
      hide Exchanging, Swapped, Rotated;
      var bottom, middle, top := first, last, end;
      ghost var all := Rotated(argv[..], first, last, end);
      ExchangeStarts(argv[..], first, last, end);
      while top > middle && middle > bottom
        invariant Exchanging(argv[..], all, bottom, middle, top)
        decreases top - bottom
        modifies argv
      {
        ghost var before := argv[..];
        ExchangeBounds(before, all, bottom, middle, top);
        if top - middle > middle - bottom {
          var len := middle - bottom;
          SwapBlocks(bottom, top - len, len);
          BottomShorter(before, argv[..], all, bottom, middle, top);
          top := top - len;
        } else {
          var len := top - middle;
          SwapBlocks(bottom, middle, len);
          TopShorter(before, argv[..], all, bottom, middle, top);
          bottom := bottom + len;
        }
      }
      ExchangeBounds(argv[..], all, bottom, middle, top);
      Exchanged(argv[..], all, bottom, middle, top);
    }

    /** `_getopt_initialize`. */
    method Initialize()
      requires Valid() && optind == 0
      modifies `firstNonopt, `lastNonopt, `optind, `nextchar, `ordering
      ensures Going(Stripped()) && nextchar == "" && optind > 0
    {
      firstNonopt, lastNonopt, optind := 1, 1, 1;
      nextchar := "";
      ordering := OrderingAsked();
      assert argv[1..] == args[1..];
      assert Units() == [] && Others() == [];
    }

    /** Move the options just scanned, or a `--`, in front of the ordinary arguments before them. */
    method Regroup()
      requires InOrder()
      modifies `firstNonopt, argv, `lastNonopt
      ensures argv.Length == |args| > 0 && argv[0] == args[0] && argv[optind..] == args[optind..]
      ensures 1 <= firstNonopt <= optind <= argv.Length
      ensures argv[1..firstNonopt] == old(Units()) && argv[firstNonopt..optind] == old(Others())
    {
      ghost var before := argv[..];
      assert before[optind..] == args[optind..] && before[1..firstNonopt] + before[lastNonopt..optind] == Units();
      if firstNonopt != lastNonopt && lastNonopt != optind {
        Exchange();
        Regrouped(before, argv[..], old(firstNonopt), old(lastNonopt), optind);
      } else if lastNonopt != optind {
        firstNonopt := optind;
        assert before[1..optind] == before[1..lastNonopt] + before[lastNonopt..optind];
      }
    }

    /** Move options to the front and skip the next ordinary arguments. */
    method SkipOrdinary(ghost now: string)
      requires Going(now) && ordering == Permute && nextchar == ""
      modifies `firstNonopt, `lastNonopt, `optind, argv
      ensures Going(now) && lastNonopt == optind && (optind < argv.Length ==> !IsOrdinary(argv[optind]))
    {
      hide ScanArgs, ScanElement, Ahead, IsOrdinary;
      Regroup();
      while optind < argv.Length && IsOrdinary(argv[optind])
        invariant 1 <= firstNonopt <= optind <= argv.Length && argv[optind..] == args[optind..]
        invariant All() == Ahead(events, argv[1..firstNonopt], argv[firstNonopt..optind], ScanArgs(now, optstring, Permute, argv[optind..]))
        modifies `optind
      {
        SkipOne(events, argv[1..firstNonopt], argv[firstNonopt..optind], now, optstring, argv[optind..]);
        assert argv[optind..][1..] == argv[optind + 1..];
        assert argv[firstNonopt..optind] + [argv[optind]] == argv[firstNonopt..optind + 1];
        optind := optind + 1;
      }
      lastNonopt := optind;
      assert Units() == argv[1..firstNonopt];
    }

    /** The arguments as a scan leaves them, and the index of the first one that is no option. */
    ghost predicate Finished()
      reads `optind, `events, argv
    {
      && |args| > 0 && events == All().events && argv[..] == args[..1] + All().units + All().others
      && optind == 1 + |All().units|
    }

    lemma AtEndOfOptions(now: string)
      requires Going(now) && nextchar == "" && optind < argv.Length && argv[optind] == "--"
      ensures InOrder()
      ensures All() == Scan(events, Units() + ["--"], Others() + argv[optind + 1..]) && argv[optind + 1..] == args[optind + 1..]
    {
      hide ScanArgs, Ahead;
      EndScan(events, Units(), Others(), now, optstring, OrderingAsked(), argv[optind..]);
      assert argv[optind..][1..] == argv[optind + 1..] && argv[optind..][0] == "--";
    }

    /** `--`: everything behind it is an ordinary argument. */
    method EndOfOptions(ghost now: string)
      requires Going(now) && nextchar == "" && optind < argv.Length && argv[optind] == "--"
      requires ordering == Permute ==> lastNonopt == optind
      modifies `firstNonopt, `lastNonopt, `optind, argv
      ensures 1 <= firstNonopt <= lastNonopt == optind == argv.Length && argv[0] == args[0]
      ensures All() == Scan(events, argv[1..firstNonopt], argv[firstNonopt..])
    {
      hide ScanArgs, Ahead, Going, All;
      AtEndOfOptions(now);
      ghost var units, others, rest := Units(), Others(), argv[optind + 1..];
      optind := optind + 1;
      UnitsMore(argv[..], firstNonopt, lastNonopt, optind);
      assert argv[optind - 1] == "--" && Units() == units + ["--"] && Others() == others;
      Regroup();
      Tail(argv[..], firstNonopt, optind);
      assert argv[firstNonopt..] == others + rest;
      lastNonopt := argv.Length;
      optind := argv.Length;
    }

    /** All arguments have been scanned. */
    lemma AllScanned(now: string)
      requires Going(now) && nextchar == "" && optind == argv.Length && (ordering == Permute ==> lastNonopt == optind)
      ensures events == All().events
      ensures argv[..] == args[..1] + All().units + All().others
      ensures (if firstNonopt != lastNonopt then firstNonopt else optind) == 1 + |All().units|
    {
      hide ScanArgs, Ahead;
      assert argv[optind..] == [];
      NothingAhead(events, Units(), Others(), now, optstring, OrderingAsked());
      assert argv[..] == [argv[0]] + argv[1..firstNonopt] + argv[firstNonopt..lastNonopt] + argv[lastNonopt..optind];
    }

    /** Without permuting, the first ordinary argument ends the scan. */
    lemma StoppedEarly(now: string)
      requires Going(now) && nextchar == "" && optind < argv.Length && ordering == RequireOrder
      requires IsOrdinary(argv[optind]) && argv[optind] != "--"
      ensures Finished()
    {
      hide ScanArgs, Ahead, IsOrdinary;
      StoppedScan(events, Units(), Others(), now, optstring, argv[optind..]);
      FirstAndRest(argv[..], optind);
    }

    /** An ordinary argument that is reported. */
    method TakeOrdinary(ghost now: string) returns (c: int)
      requires Going(now) && nextchar == "" && optind < argv.Length && ordering == ReturnInOrder
      requires IsOrdinary(argv[optind]) && argv[optind] != "--"
      modifies `optarg, `optind, `events
      ensures Going(optstring) && events == old(events) + [Ordinary(old(argv[optind]))] && optind > 0 && |events| <= |All().events|
      ensures c == 1 && optarg == Some(old(argv[optind]))
    {
      ghost var a, units := argv[optind], Units();
      assert argv[optind..][1..] == argv[optind + 1..];
      AheadTwice(events, units, Others(), [Ordinary(a)], [a], [], ScanArgs(optstring, optstring, ordering, argv[optind + 1..]));
      assert Others() + [] == Others();
      optarg := Some(argv[optind]);
      optind := optind + 1;
      events := events + [Ordinary(a)];
      assert Units() == units + [a];
      c := 1;
    }

    /** The next option character of the element at `optind`. */
    method TakeLetter(list: string) returns (c: int)
      requires Going(list) && nextchar != "" && optarg == None
      modifies `optarg, `optopt, `nextchar, `optind, `events
      ensures Going(optstring) && optind > 0 && |events| == |old(events)| + 1 && events[..|old(events)|] == old(events)
      ensures var e := events[|old(events)|];
              && c == Code(e) && optarg == ArgOf(e) && |events| <= |All().events|
              && optopt == (if e.Unknown? || e.Missing? then e.c else old(optopt))
    {
      hide ScanArgs, ScanElement, Ahead, ReadLetter, Code, ArgOf;
      ghost var letter, units, rest := ReadLetter(list, nextchar, argv[optind + 1..]), Units(), argv[optind..];
      assert rest[1..] == argv[optind + 1..];
      ReadLetterNext(list, nextchar, rest);
      ghost var n := if letter.takesNext then 2 else 1;
      LetterScan(events, units, Others(), list, optstring, ordering, nextchar, rest);
      c := Decode(list);
      events := events + [letter.event];
      AheadLength(events, units + if letter.rest != "" then [] else rest[..n], Others(), Left(optstring));
      if letter.rest == "" {
        assert argv[optind..] == rest[n..];
        assert Units() == units + rest[..n];
      } else {
        assert units + [] == units;
      }
    }

    /** What the option character at `nextchar` comes to. */
    method Decode(list: string) returns (c: int)
      requires nextchar != "" && 0 <= optind < argv.Length && optarg == None
      modifies `optarg, `optopt, `nextchar, `optind
      ensures var letter := ReadLetter(list, old(nextchar), argv[old(optind) + 1..]);
              var e := letter.event;
              && c == Code(e) && optarg == ArgOf(e) && nextchar == letter.rest
              && optopt == (if e.Unknown? || e.Missing? then e.c else old(optopt))
              && optind == old(optind) + (if letter.rest != "" then 0 else if letter.takesNext then 2 else 1)
    {
      var ch := nextchar[0];
      var temp := Index(list, ch);
      nextchar := nextchar[1..];
      if nextchar == "" {
        optind := optind + 1;
      }
      if temp == None || ch == ':' {
        optopt := ch;
        return '?' as int;
      }
      var text := temp.value;
      c := ch as int;
      if |text| > 1 && text[1] == ':' {
        if |text| > 2 && text[2] == ':' {
          if nextchar != "" {
            optarg := Some(nextchar);
            optind := optind + 1;
          } else {
            optarg := None;
          }
          nextchar := "";
        } else {
          if nextchar != "" {
            optarg := Some(nextchar);
            optind := optind + 1;
          } else if optind == argv.Length {
            optopt := ch;
            c := if |list| > 0 && list[0] == ':' then ':' as int else '?' as int;
          } else {
            optarg := Some(argv[optind]);
            optind := optind + 1;
          }
          nextchar := "";
        }
      }
    }

    /** Advance to the next argument that is reported, or to the end of the options. */
    method StartArgument(list: string) returns (ended: bool, ordinary: bool)
      requires Going(list) && nextchar == ""
      modifies `firstNonopt, `lastNonopt, `optind, `nextchar, argv
      ensures ended ==> Finished()
      ensures !ended ==> Going(list) && optind < argv.Length
      ensures !ended && ordinary ==> nextchar == "" && ordering == ReturnInOrder && IsOrdinary(argv[optind]) && argv[optind] != "--"
      ensures !ended && !ordinary ==> nextchar != ""
    {
      hide ScanArgs, ScanElement, Ahead, IsOrdinary;
      if ordering == Permute {
        SkipOrdinary(list);
      }
      if optind != argv.Length && argv[optind] == "--" {
        EndOfOptions(list);
        FinishEnded();
        return true, false;
      }
      if optind == argv.Length {
        AllScanned(list);
        if firstNonopt != lastNonopt {
          optind := firstNonopt;
        }
        return true, false;
      }
      if IsOrdinary(argv[optind]) {
        if ordering == RequireOrder {
          StoppedEarly(list);
          return true, false;
        }
        return false, true;
      }
      StartElement(list);
      return false, false;
    }

    /** After `--` the index goes to the first ordinary argument. */
    method FinishEnded()
      requires 1 <= firstNonopt <= lastNonopt == optind == argv.Length && |args| > 0 && argv[0] == args[0]
      requires All() == Scan(events, argv[1..firstNonopt], argv[firstNonopt..])
      modifies `optind
      ensures Finished()
    {
      hide All;
      if firstNonopt != lastNonopt {
        optind := firstNonopt;
      }
      WholeAgain(argv[..], args, firstNonopt, All());
    }

    /** Skip the hyphen of an option element. */
    method StartElement(list: string)
      requires Going(list) && nextchar == "" && optind < argv.Length && !IsOrdinary(argv[optind]) && argv[optind] != "--"
      modifies `nextchar
      ensures Going(list) && nextchar != ""
    {
      hide ScanElement, Ahead;
      assert argv[optind..][0] == argv[optind];
      nextchar := argv[optind][1..];
    }

    /** One call of `getopt`: the code of the next event, or -1 at the end of the options. */
    method Next() returns (c: int)
      requires Valid()
      modifies this, argv
      ensures c == -1 ==> events == old(events) && Finished()
      ensures c != -1 ==>
              && Valid() && optind > 0 && |events| == |old(events)| + 1 && events[..|old(events)|] == old(events)
              && var e := events[|old(events)|];
                 && c == Code(e) && optarg == ArgOf(e) && |events| <= |All().events|
                 && optopt == (if e.Unknown? || e.Missing? then e.c else old(optopt))
    {
      hide ScanArgs, ScanElement, Ahead, IsOrdinary, InOrder;
      var list := optstring;
      optarg := None;
      if optind == 0 {
        Initialize();
        list := Stripped();
      }
      if nextchar == "" {
        var ended, ordinary := StartArgument(list);
        if ended {
          return -1;
        }
        if ordinary {
          c := TakeOrdinary(list);
          return;
        }
      }
      c := TakeLetter(list);
    }
  }

  /** Call `getopt` until the end of the options. */
  method ScanAll(argv: array<string>, optstring: string, posixlyCorrect: bool)
      returns (codes: seq<int>, optargs: seq<Option<string>>, optind: int, ghost whole: Scan)
    requires argv.Length > 0
    modifies argv
    ensures whole == ScanArgs(
                       if |optstring| > 0 && (optstring[0] == '-' || optstring[0] == '+') then optstring[1..] else optstring, optstring,
                       if |optstring| > 0 && optstring[0] == '-' then ReturnInOrder
                       else if (|optstring| > 0 && optstring[0] == '+') || posixlyCorrect then RequireOrder else Permute,
                       old(argv[1..]))
    ensures |codes| == |optargs| == |whole.events|
    ensures forall k :: 0 <= k < |codes| ==> codes[k] == Code(whole.events[k]) && optargs[k] == ArgOf(whole.events[k])
    ensures argv[..] == [old(argv[0])] + whole.units + whole.others && optind == 1 + |whole.units|
  {
    hide ScanArgs, Ahead, Code, ArgOf;
    var g := new Getopt(argv, optstring, posixlyCorrect);
    whole := g.All();
    assert g.args[1..] == argv[1..];
    codes, optargs := [], [];
    while true
      invariant g.Valid() && |codes| == |optargs| == |g.events| <= |whole.events|
      invariant forall k :: 0 <= k < |codes| ==> codes[k] == Code(g.events[k]) && optargs[k] == ArgOf(g.events[k])
      decreases |whole.events| - |g.events|
      modifies g, argv
    {
      ghost var before := g.events;
      var c := g.Next();
      if c == -1 {
        optind := g.optind;
        assert argv[..] == g.args[..1] + whole.units + whole.others;
        return;
      }
      assert forall k :: 0 <= k < |before| ==> g.events[k] == g.events[..|before|][k];
      codes, optargs := codes + [c], optargs + [g.optarg];
    }
  }

  lemma SameSlice(was: seq<string>, now: seq<string>, i: int, j: int, len: int)
    requires |was| == |now| && 0 <= i && 0 <= len && i + len <= j && j + len <= |was|
    requires forall m :: i <= m < i + len ==> now[m] == was[m - i + j]
    requires forall m :: j <= m < j + len ==> now[m] == was[m - j + i]
    requires forall m :: 0 <= m < |was| && !(i <= m < i + len) && !(j <= m < j + len) ==> now[m] == was[m]
    ensures Swapped(was, now, i, j, len)
  {}

  /** The blocks of `len` elements at `i` and at `j` have changed places. */
  ghost predicate Swapped(was: seq<string>, now: seq<string>, i: int, j: int, len: int) {
    && |was| == |now| && 0 <= i && 0 <= len && i + len <= j && j + len <= |was|
    && now[..i] == was[..i] && now[i + len..j] == was[i + len..j] && now[j + len..] == was[j + len..]
    && now[i..i + len] == was[j..j + len] && now[j..j + len] == was[i..i + len]
  }

  /** What is still to be exchanged between `bottom` and `top`, and what is in its final place already. */
  ghost predicate Exchanging(now: seq<string>, all: seq<string>, bottom: int, middle: int, top: int) {
    && 0 <= bottom <= middle <= top <= |now| == |all|
    && now[..bottom] == all[..bottom] && now[top..] == all[top..]
    && all[bottom..top] == now[middle..top] + now[bottom..middle]
  }

  /** A scan that stops at an ordinary argument. */
  lemma StoppedScan(events: seq<Event>, units: seq<string>, others: seq<string>, now: string, later: string, rest: seq<string>)
    requires |rest| > 0 && IsOrdinary(rest[0]) && rest[0] != "--"
    ensures Ahead(events, units, others, ScanArgs(now, later, RequireOrder, rest)) == Scan(events, units, others + rest)
  {
    assert events + [] == events && units + [] == units;
    hide IsOrdinary;
  }

  lemma WholeAgain(s: seq<string>, args: seq<string>, first: int, all: Scan)
    requires 1 <= first <= |s| && |args| > 0 && s[0] == args[0] && all.units == s[1..first] && all.others == s[first..]
    ensures s == args[..1] + all.units + all.others && first == 1 + |all.units|
  {
    assert args[..1] == s[..1];
    Tail(s, 1, first);
    Tail(s, 0, 1);
  }

  lemma FirstAndRest(s: seq<string>, k: int)
    requires 1 <= k <= |s|
    ensures s == [s[0]] + s[1..1] + s[1..k] + s[k..] && s == [s[0]] + s[1..k] + s[k..]
    ensures s[..1] == [s[0]] && s[1..1] + s[1..k] == s[1..k] && s[1..1] == []
  {}

  lemma FivePieces(s: seq<string>, i: int, j: int, k: int, l: int)
    requires 0 <= i <= j <= k <= l <= |s|
    ensures s == s[..i] + s[i..j] + s[j..k] + s[k..l] + s[l..]
  {}

  /** One more element behind the options. */
  lemma UnitsMore(s: seq<string>, first: int, last: int, k: int)
    requires 1 <= first <= last < k <= |s|
    ensures s[1..first] + s[last..k] == s[1..first] + s[last..k - 1] + [s[k - 1]]
  {
    TwoParts(s, last, k - 1, k);
  }

  lemma Tail(s: seq<string>, i: int, j: int)
    requires 0 <= i <= j <= |s|
    ensures s[i..] == s[i..j] + s[j..]
  {}

  lemma TwoParts(s: seq<string>, i: int, j: int, k: int)
    requires 0 <= i <= j <= k <= |s|
    ensures s[i..k] == s[i..j] + s[j..k]
  {}

  /** What a swap of two blocks of the same length does to the pieces. */
  lemma SwappedPieces(was: seq<string>, now: seq<string>, i: int, j: int, len: int)
    requires Swapped(was, now, i, j, len)
    ensures 0 <= i <= i + len <= j <= j + len <= |was|
    ensures was == was[..i] + was[i..i + len] + was[i + len..j] + was[j..j + len] + was[j + len..]
    ensures now == was[..i] + was[j..j + len] + was[i + len..j] + was[i..i + len] + was[j + len..]
  {
    FivePieces(was, i, i + len, j, j + len);
    FivePieces(now, i, i + len, j, j + len);
  }

  lemma ExchangingPieces(was: seq<string>, all: seq<string>, bottom: int, middle: int, top: int)
    requires Exchanging(was, all, bottom, middle, top)
    ensures 0 <= bottom <= middle <= top <= |was|
    ensures all == was[..bottom] + (was[middle..top] + was[bottom..middle]) + was[top..]
  {
    FivePieces(all, bottom, bottom, bottom, top);
  }

  /** The block `z` at the end has been swapped with `x`; `y` and `z` are left. */
  lemma FrontLeft(p: seq<string>, x: seq<string>, y: seq<string>, z: seq<string>, s: seq<string>)
    requires |x| == |z|
    ensures Exchanging(p + z + y + x + s, p + ((y + z) + x) + s, |p|, |p| + |z|, |p| + |z| + |y|)
  {
    var now, all := p + z + y + x + s, p + ((y + z) + x) + s;
    assert now[|p|..|p| + |z|] == z && now[|p| + |z|..|p| + |z| + |y|] == y;
    assert all[|p|..|p| + |z| + |y|] == y + z;
    assert now[|p| + |z| + |y|..] == x + s == all[|p| + |z| + |y|..];
  }

  lemma BackLeft(p: seq<string>, x: seq<string>, y: seq<string>, z: seq<string>, s: seq<string>)
    requires |x| == |z|
    ensures Exchanging(p + z + y + x + s, p + (z + (x + y)) + s, |p| + |z|, |p| + |z| + |y|, |p| + |z| + |y| + |x|)
  {
    var now, all := p + z + y + x + s, p + (z + (x + y)) + s;
    var h := |p| + |z|;
    assert now[h..h + |y|] == y && now[h + |y|..h + |y| + |x|] == x;
    assert all[h..h + |y| + |x|] == x + y;
    assert now[..h] == p + z == all[..h];
  }

  lemma BottomShorter(was: seq<string>, now: seq<string>, all: seq<string>, bottom: int, middle: int, top: int)
    requires Exchanging(was, all, bottom, middle, top) && top - middle > middle - bottom
    requires Swapped(was, now, bottom, top - (middle - bottom), middle - bottom)
    ensures Exchanging(now, all, bottom, middle, top - (middle - bottom))
  {
    hide Exchanging, Swapped;
    var low := top - (middle - bottom);
    ExchangingPieces(was, all, bottom, middle, top);
    SwappedPieces(was, now, bottom, low, middle - bottom);
    TwoParts(was, middle, low, top);
    FrontLeft(was[..bottom], was[bottom..middle], was[middle..low], was[low..top], was[top..]);
  }

  lemma TopShorter(was: seq<string>, now: seq<string>, all: seq<string>, bottom: int, middle: int, top: int)
    requires Exchanging(was, all, bottom, middle, top) && top - middle <= middle - bottom
    requires Swapped(was, now, bottom, middle, top - middle)
    ensures Exchanging(now, all, bottom + (top - middle), middle, top)
  {
    hide Exchanging, Swapped;
    var high := bottom + (top - middle);
    ExchangingPieces(was, all, bottom, middle, top);
    SwappedPieces(was, now, bottom, middle, top - middle);
    TwoParts(was, bottom, high, middle);
    BackLeft(was[..bottom], was[bottom..high], was[high..middle], was[middle..top], was[top..]);
  }

  /** The block that starts at `last` and ends at `top` has moved in front of the one that starts at `first`. */
  function Rotated(s: seq<string>, first: int, last: int, top: int): seq<string>
    requires 0 <= first <= last <= top <= |s|
  {
    s[..first] + s[last..top] + s[first..last] + s[top..]
  }

  lemma ExchangeStarts(was: seq<string>, first: int, last: int, top: int)
    requires 0 <= first <= last <= top <= |was|
    ensures Exchanging(was, Rotated(was, first, last, top), first, last, top)
  {
    var all := Rotated(was, first, last, top);
    assert all[first..top] == was[last..top] + was[first..last];
  }

  lemma ExchangeBounds(now: seq<string>, all: seq<string>, bottom: int, middle: int, top: int)
    requires Exchanging(now, all, bottom, middle, top)
    ensures 0 <= bottom <= middle <= top <= |now| == |all|
  {}

  lemma Exchanged(now: seq<string>, all: seq<string>, bottom: int, middle: int, top: int)
    requires Exchanging(now, all, bottom, middle, top) && (middle == bottom || middle == top)
    ensures now == all
  {
    assert now == now[..bottom] + now[bottom..top] + now[top..];
    assert all == all[..bottom] + all[bottom..top] + all[top..];
  }

  /** Exchanging keeps the options in order and the ordinary arguments in order. */
  lemma Regrouped(was: seq<string>, now: seq<string>, first: int, last: int, top: int)
    requires 1 <= first <= last <= top <= |was|
    requires now == Rotated(was, first, last, top)
    ensures |now| == |was| && now[0] == was[0]
    ensures now[1..first + (top - last)] == was[1..first] + was[last..top]
    ensures now[first + (top - last)..top] == was[first..last] && now[top..] == was[top..]
  {}

  lemma NothingAhead(e: seq<Event>, u: seq<string>, o: seq<string>, now: string, later: string, ordering: Ordering)
    ensures Ahead(e, u, o, ScanArgs(now, later, ordering, [])) == Scan(e, u, o)
  {
    assert e + [] == e && u + [] == u && o + [] == o;
  }

  lemma EndScan(e: seq<Event>, u: seq<string>, o: seq<string>, now: string, later: string, ordering: Ordering, args: seq<string>)
    requires |args| > 0 && args[0] == "--"
    ensures Ahead(e, u, o, ScanArgs(now, later, ordering, args)) == Scan(e, u + ["--"], o + args[1..])
  {
    assert e + [] == e;
  }

  lemma AheadLength(e: seq<Event>, u: seq<string>, o: seq<string>, s: Scan)
    ensures |e| <= |Ahead(e, u, o, s).events|
  {}

  lemma SkipOne(e: seq<Event>, u: seq<string>, o: seq<string>, now: string, later: string, args: seq<string>)
    requires |args| > 0 && IsOrdinary(args[0])
    ensures Ahead(e, u, o, ScanArgs(now, later, Permute, args)) ==
            Ahead(e, u, o + [args[0]], ScanArgs(now, later, Permute, args[1..]))
  {
    AheadTwice(e, u, o, [], [], [args[0]], ScanArgs(now, later, Permute, args[1..]));
    assert e + [] == e && u + [] == u;
  }

  lemma ReadLetterNext(list: string, text: string, args: seq<string>)
    requires |text| > 0 && |args| > 0
    ensures ReadLetter(list, text, args[1..]).takesNext ==> |args| > 1 && ReadLetter(list, text, args[1..]).rest == ""
  {}

  lemma LetterScan(e: seq<Event>, u: seq<string>, o: seq<string>, list: string, later: string, ordering: Ordering, text: string, args: seq<string>)
    requires |text| > 0 && |args| > 0
    ensures var letter := ReadLetter(list, text, args[1..]);
            var n := if letter.takesNext then 2 else 1;
            Ahead(e, u, o, ScanElement(list, later, ordering, text, args)) ==
            if letter.rest != "" then Ahead(e + [letter.event], u + [], o, ScanElement(later, later, ordering, letter.rest, args))
            else Ahead(e + [letter.event], u + args[..n], o, ScanArgs(later, later, ordering, args[n..]))
  {
    hide Index;
    var letter := ReadLetter(list, text, args[1..]);
    var n := if letter.takesNext then 2 else 1;
    assert o + [] == o;
    if letter.rest != "" {
      AheadTwice(e, u, o, [letter.event], [], [], ScanElement(later, later, ordering, letter.rest, args));
    } else {
      AheadTwice(e, u, o, [letter.event], args[..n], [], ScanArgs(later, later, ordering, args[n..]));
    }
  }

  lemma AheadTwice(e: seq<Event>, u: seq<string>, o: seq<string>, e': seq<Event>, u': seq<string>, o': seq<string>, s: Scan)
    ensures Ahead(e, u, o, Ahead(e', u', o', s)) == Ahead(e + e', u + u', o + o', s)
  {
    assert e + (e' + s.events) == e + e' + s.events;
    assert u + (u' + s.units) == u + u' + s.units;
    assert o + (o' + s.others) == o + o' + s.others;
  }
}
