/** What a scan of command-line arguments for short options comes to, read from left to right. */
module GetoptSpec {
  import opened Wrappers

  /** How options behind ordinary arguments are dealt with. */
  datatype Ordering = RequireOrder | Permute | ReturnInOrder

  /** What one call of `getopt` reports: an option with its argument, a character that is no option, an
      option whose argument is missing, or an ordinary argument. */
  datatype Event =
    | Opt(c: char, arg: Option<string>)
    | Unknown(c: char)
    | Missing(c: char, colon: bool)
    | Ordinary(text: string)

  /** The value `getopt` returns, and what it leaves in `optarg`. */
  function Code(e: Event): int {
    match e
    case Opt(c, _) => c as int
    case Unknown(_) => '?' as int
    case Missing(_, colon) => if colon then ':' as int else '?' as int
    case Ordinary(_) => 1
  }

  function ArgOf(e: Event): Option<string> {
    match e
    case Opt(_, arg) => arg
    case Ordinary(text) => Some(text)
    case _ => None
  }

  /** An argument that is neither an option nor `--`. */
  predicate IsOrdinary(s: string) {
    |s| == 0 || s[0] != '-' || |s| == 1
  }

  /** `my_index`: the part of `s` that starts with the first `c`. */
  function Index(s: string, c: char): Option<string> {
    if |s| == 0 then None else if s[0] == c then Some(s) else Index(s[1..], c)
  }

  datatype Wants = Nothing | Needed | Allowed | NoOption

  /** What the list of option characters says about `c`. */
  function WantsOf(optstring: string, c: char): Wants {
    match Index(optstring, c)
    case None => NoOption
    case Some(temp) =>
      if c == ':' then NoOption
      else if |temp| < 2 || temp[1] != ':' then Nothing
      else if |temp| < 3 || temp[2] != ':' then Needed
      else Allowed
  }

  /** What the option character at the start of `text` comes to: the event, the rest of the element, and
      whether the following argument belongs to the option. */
  datatype Letter = Letter(event: Event, rest: string, takesNext: bool)

  function ReadLetter(optstring: string, text: string, following: seq<string>): Letter
    requires |text| > 0
  {
    var c, rest := text[0], text[1..];
    match WantsOf(optstring, c)
    case NoOption => Letter(Unknown(c), rest, false)
    case Nothing => Letter(Opt(c, None), rest, false)
    case Allowed => Letter(Opt(c, if rest == "" then None else Some(rest)), "", false)
    case Needed =>
      if rest != "" then Letter(Opt(c, Some(rest)), "", false)
      else if |following| > 0 then Letter(Opt(c, Some(following[0])), "", true)
      else Letter(Missing(c, |optstring| > 0 && optstring[0] == ':'), "", false)
  }

  /** A whole scan: the events, the option elements with their arguments (and `--`), and all other arguments. */
  datatype Scan = Scan(events: seq<Event>, units: seq<string>, others: seq<string>)

  function Ahead(e: seq<Event>, u: seq<string>, o: seq<string>, s: Scan): Scan {
    Scan(e + s.events, u + s.units, o + s.others)
  }

  /** The rest of a scan that stands inside the element `args[0]`, with `text` left of it.  `now` is the list of
      option characters for this call of `getopt`, `later` the one for the calls after it: they differ only when
      the first call drops a leading sign. */
  function ScanElement(now: string, later: string, ordering: Ordering, text: string, args: seq<string>): (s: Scan)
    requires |args| > 0 && |text| > 0
    decreases |args|, |text| + 1
  {
    var letter := ReadLetter(now, text, args[1..]);
    if letter.rest != "" then Ahead([letter.event], [], [], ScanElement(later, later, ordering, letter.rest, args))
    else
      var n := if letter.takesNext then 2 else 1;
      Ahead([letter.event], args[..n], [], ScanArgs(later, later, ordering, args[n..]))
  }

  /** The scan of `args` from left to right. */
  function ScanArgs(now: string, later: string, ordering: Ordering, args: seq<string>): (s: Scan)
    decreases |args|, if |args| > 0 then |args[0]| + 2 else 0
  {
    if |args| == 0 then Scan([], [], [])
    else if args[0] == "--" then Scan([], ["--"], args[1..])
    else if IsOrdinary(args[0]) then
      match ordering
      case RequireOrder => Scan([], [], args)
      case Permute => Ahead([], [], [args[0]], ScanArgs(now, later, ordering, args[1..]))
      case ReturnInOrder => Ahead([Ordinary(args[0])], [args[0]], [], ScanArgs(later, later, ordering, args[1..]))
    else ScanElement(now, later, ordering, args[0][1..], args)
  }

  // ---- no argument is lost, and both groups keep their order ----

  /** `s` is made up of the elements of `a` and those of `b`, each in their own order. */
  ghost predicate Interleaves(s: seq<string>, a: seq<string>, b: seq<string>) {
    if |s| == 0 then a == [] && b == []
    else (|a| > 0 && a[0] == s[0] && Interleaves(s[1..], a[1..], b)) || (|b| > 0 && b[0] == s[0] && Interleaves(s[1..], a, b[1..]))
  }

  lemma {:induction false} OnlyOthers(s: seq<string>)
    ensures Interleaves(s, [], s)
  {
    if |s| > 0 {
      OnlyOthers(s[1..]);
    }
  }

  /** Putting arguments in front of the options. */
  lemma {:induction false} MoreUnits(front: seq<string>, s: seq<string>, a: seq<string>, b: seq<string>)
    requires Interleaves(s, a, b)
    ensures Interleaves(front + s, front + a, b)
  {
    if |front| == 0 {
      assert front + s == s && front + a == a;
    } else {
      MoreUnits(front[1..], s, a, b);
      assert (front + s)[1..] == front[1..] + s && (front + a)[1..] == front[1..] + a;
    }
  }

  /** Every argument ends up either among the options or among the others, and the order inside each group is
      that of the command line. */
  lemma {:induction false} ScanKeepsOrder(now: string, later: string, ordering: Ordering, args: seq<string>)
    ensures var s := ScanArgs(now, later, ordering, args); Interleaves(args, s.units, s.others)
    decreases |args|, if |args| > 0 then |args[0]| + 2 else 0
  {
    if |args| == 0 {
    } else if args[0] == "--" {
      OnlyOthers(args[1..]);
      MoreUnits(["--"], args[1..], [], args[1..]);
      assert ["--"] + args[1..] == args && ["--"] + [] == ["--"];
    } else if IsOrdinary(args[0]) {
      match ordering
      case RequireOrder => OnlyOthers(args);
      case Permute =>
        ScanKeepsOrder(now, later, ordering, args[1..]);
        var s, r := ScanArgs(now, later, ordering, args), ScanArgs(now, later, ordering, args[1..]);
        assert s.others == [args[0]] + r.others && s.others[1..] == r.others && s.units == r.units;
      case ReturnInOrder =>
        ScanKeepsOrder(later, later, ordering, args[1..]);
        var r := ScanArgs(later, later, ordering, args[1..]);
        MoreUnits([args[0]], args[1..], r.units, r.others);
        assert [args[0]] + args[1..] == args && [] + r.others == r.others;
    } else {
      ElementKeepsOrder(now, later, ordering, args[0][1..], args);
    }
  }

  lemma {:induction false} ElementKeepsOrder(now: string, later: string, ordering: Ordering, text: string, args: seq<string>)
    requires |args| > 0 && |text| > 0
    ensures var s := ScanElement(now, later, ordering, text, args); Interleaves(args, s.units, s.others)
    decreases |args|, |text| + 1
  {
    hide Interleaves, WantsOf;
    var letter := ReadLetter(now, text, args[1..]);
    if letter.rest != "" {
      ElementKeepsOrder(later, later, ordering, letter.rest, args);
      var r := ScanElement(later, later, ordering, letter.rest, args);
      assert [] + r.units == r.units && [] + r.others == r.others;
    } else {
      var n := if letter.takesNext then 2 else 1;
      ScanKeepsOrder(later, later, ordering, args[n..]);
      var r := ScanArgs(later, later, ordering, args[n..]);
      MoreUnits(args[..n], args[n..], r.units, r.others);
      assert args[..n] + args[n..] == args && [] + r.others == r.others;
    }
  }

  // ---- a program that takes options in order sees the same in the permuted arguments ----

  /** The scan ends at a `--`. */
  predicate Ended(list: string, args: seq<string>)
    decreases |args|, if |args| > 0 then |args[0]| + 2 else 0
  {
    |args| > 0 &&
    (args[0] == "--" || if IsOrdinary(args[0]) then Ended(list, args[1..]) else EndedElement(list, args[0][1..], args))
  }

  predicate EndedElement(list: string, text: string, args: seq<string>)
    requires |args| > 0 && |text| > 0
    decreases |args|, |text| + 1
  {
    var letter := ReadLetter(list, text, args[1..]);
    if letter.rest != "" then EndedElement(list, letter.rest, args)
    else Ended(list, args[if letter.takesNext then 2 else 1..])
  }

  predicate EndsMissing(events: seq<Event>) {
    |events| > 0 && events[|events| - 1].Missing?
  }

  lemma EndsMissingAfter(e: Event, events: seq<Event>)
    ensures |events| > 0 ==> (EndsMissing([e] + events) <==> EndsMissing(events))
  {}

  /** Scanning the options in order, with other arguments `o` behind them that stop the scan: the same events, unless the
      last option lacks its argument and finds one in `o`. */
  lemma {:induction false} RescanArgs(list: string, args: seq<string>, o: seq<string>)
    requires Ended(list, args) || |o| == 0 || (IsOrdinary(o[0]) && o[0] != "--")
    ensures var s := ScanArgs(list, list, Permute, args);
            var again := ScanArgs(list, list, RequireOrder, s.units + o);
            if |o| > 0 && EndsMissing(s.events) then again.events != s.events else again == Scan(s.events, s.units, o)
    decreases |args|, if |args| > 0 then |args[0]| + 2 else 0
  {
    var s := ScanArgs(list, list, Permute, args);
    if |args| == 0 {
      assert s.units + o == o;
    } else if args[0] == "--" {
      assert (["--"] + o)[1..] == o;
    } else if IsOrdinary(args[0]) {
      RescanArgs(list, args[1..], o);
      var r := ScanArgs(list, list, Permute, args[1..]);
      assert s.events == r.events && s.units == r.units;
    } else {
      RescanElement(list, args[0][1..], args, o);
      ElementFirst(list, args[0][1..], args);
      assert (s.units + o)[0] == args[0];
    }
  }

  lemma {:induction false} ElementFirst(list: string, text: string, args: seq<string>)
    requires |args| > 0 && |text| > 0
    ensures var u := ScanElement(list, list, Permute, text, args).units; |u| > 0 && u[0] == args[0]
    decreases |text|
  {
    var letter := ReadLetter(list, text, args[1..]);
    if letter.rest != "" {
      ElementFirst(list, letter.rest, args);
    }
  }

  /** The same letter is read as long as the argument that follows is the same, or is not asked for. */
  lemma SameLetter(list: string, text: string, f: seq<string>, g: seq<string>)
    requires |text| > 0
    ensures var a, b := ReadLetter(list, text, f), ReadLetter(list, text, g);
            && (a.takesNext && |g| > 0 && g[0] == f[0] ==> a == b)
            && (!a.takesNext && !a.event.Missing? ==> a == b)
            && (a.event.Missing? ==> f == [] && a.rest == "" && !a.takesNext && (a == b <==> g == []) && (g != [] ==> b.event != a.event))
  {
    hide WantsOf;
  }

  lemma {:induction false} RescanElement(list: string, text: string, args: seq<string>, o: seq<string>)
    requires |args| > 0 && |text| > 0 && (EndedElement(list, text, args) || |o| == 0 || (IsOrdinary(o[0]) && o[0] != "--"))
    ensures var s := ScanElement(list, list, Permute, text, args);
            |s.units| > 0 &&
            var again := ScanElement(list, list, RequireOrder, text, s.units + o);
            if |o| > 0 && EndsMissing(s.events) then again.events != s.events else again == Scan(s.events, s.units, o)
    decreases |args|, |text| + 1, 1
  {
    hide IsOrdinary, ReadLetter, ScanElement, ScanArgs, EndedElement, Ended, EndsMissing;
    ElementFirst(list, text, args);
    var letter := ReadLetter(list, text, args[1..]);
    if letter.rest != "" {
      RescanLetter(list, text, args, o);
    } else if letter.event.Missing? {
      RescanMissing(list, text, args, o);
    } else {
      RescanNext(list, text, args, o);
    }
  }

  /** More letters in the element. */
  lemma {:induction false} RescanLetter(list: string, text: string, args: seq<string>, o: seq<string>)
    requires |args| > 0 && |text| > 0 && (EndedElement(list, text, args) || |o| == 0 || (IsOrdinary(o[0]) && o[0] != "--"))
    requires ReadLetter(list, text, args[1..]).rest != ""
    ensures var s := ScanElement(list, list, Permute, text, args);
            |s.units| > 0 &&
            var again := ScanElement(list, list, RequireOrder, text, s.units + o);
            if |o| > 0 && EndsMissing(s.events) then again.events != s.events else again == Scan(s.events, s.units, o)
    decreases |args|, |text| + 1, 0
  {
    hide IsOrdinary, ReadLetter, ScanArgs, EndsMissing;
    ElementFirst(list, text, args);
    var s := ScanElement(list, list, Permute, text, args);
    var all := s.units + o;
    var letter := ReadLetter(list, text, args[1..]);
    LetterTakes(list, text, args[1..]);
    SameLetter(list, text, args[1..], all[1..]);
    RescanElement(list, letter.rest, args, o);
    var r := ScanElement(list, list, Permute, letter.rest, args);
    assert s == Scan([letter.event] + r.events, r.units, r.others);
    var again := ScanElement(list, list, RequireOrder, letter.rest, all);
    assert ScanElement(list, list, RequireOrder, text, all) == Scan([letter.event] + again.events, again.units, again.others);
    SomeEvent(list, letter.rest, args);
    EndsMissingAfter(letter.event, r.events);
    SameTail(letter.event, again.events, r.events);
  }

  /** The element is finished, with the argument that belongs to its last letter. */
  lemma {:induction false} RescanNext(list: string, text: string, args: seq<string>, o: seq<string>)
    requires |args| > 0 && |text| > 0 && (EndedElement(list, text, args) || |o| == 0 || (IsOrdinary(o[0]) && o[0] != "--"))
    requires ReadLetter(list, text, args[1..]).rest == "" && !ReadLetter(list, text, args[1..]).event.Missing?
    ensures var s := ScanElement(list, list, Permute, text, args);
            |s.units| > 0 &&
            var again := ScanElement(list, list, RequireOrder, text, s.units + o);
            if |o| > 0 && EndsMissing(s.events) then again.events != s.events else again == Scan(s.events, s.units, o)
    decreases |args|, |text| + 1, 0
  {
    hide IsOrdinary, ReadLetter, ScanArgs;
    ElementFirst(list, text, args);
    var s := ScanElement(list, list, Permute, text, args);
    var all := s.units + o;
    var letter := ReadLetter(list, text, args[1..]);
    LetterTakes(list, text, args[1..]);
    SameLetter(list, text, args[1..], all[1..]);
    var n := if letter.takesNext then 2 else 1;
    var r := ScanArgs(list, list, Permute, args[n..]);
    RescanArgs(list, args[n..], o);
    assert s == Scan([letter.event] + r.events, args[..n] + r.units, r.others);
    assert all == args[..n] + (r.units + o);
    assert all[..n] == args[..n] && all[n..] == r.units + o;
    if letter.takesNext {
      assert all[1..][0] == args[1..][0];
    }
    var again := ScanArgs(list, list, RequireOrder, r.units + o);
    assert ScanElement(list, list, RequireOrder, text, all) == Scan([letter.event] + again.events, args[..n] + again.units, again.others);
    EndsMissingAfter(letter.event, r.events);
    SameTail(letter.event, again.events, r.events);
  }

  lemma SameTail(e: Event, a: seq<Event>, b: seq<Event>)
    ensures [e] + a == [e] + b <==> a == b
  {
    assert ([e] + a)[1..] == a && ([e] + b)[1..] == b;
  }

  /** An option at the very end that lacks its argument. */
  lemma RescanMissing(list: string, text: string, args: seq<string>, o: seq<string>)
    requires |args| > 0 && |text| > 0 && ReadLetter(list, text, args[1..]).event.Missing?
    requires |o| == 0 || (IsOrdinary(o[0]) && o[0] != "--") || EndedElement(list, text, args)
    ensures var s := ScanElement(list, list, Permute, text, args);
            var again := ScanElement(list, list, RequireOrder, text, s.units + o);
            |s.units| > 0 && EndsMissing(s.events) && if |o| > 0 then again.events != s.events else again == Scan(s.events, s.units, o)
  {
    hide ReadLetter, IsOrdinary, EndedElement, ScanElement, ScanArgs;
    var event := ReadLetter(list, text, args[1..]).event;
    SameLetter(list, text, args[1..], o);
    MissingScan(list, text, args, Permute);
    MissingScan(list, text, args, RequireOrder);
    assert args[1..] == [];
    assert (args + o)[1..] == o;
    if |o| > 0 {
      FirstEvent(list, text, args + o);
    } else {
      assert args + o == args;
    }
  }

  /** An element whose argument is missing is the last one. */
  lemma MissingScan(list: string, text: string, args: seq<string>, ordering: Ordering)
    requires |args| > 0 && |text| > 0 && ReadLetter(list, text, args[1..]).event.Missing?
    ensures ScanElement(list, list, ordering, text, args) == Scan([ReadLetter(list, text, args[1..]).event], args, [])
  {
    hide ReadLetter, ScanArgs;
    SameLetter(list, text, args[1..], []);
    NothingLeft(list, ordering);
    assert args[1..] == [] && args[..1] == args;
  }

  lemma NothingLeft(list: string, ordering: Ordering)
    ensures ScanArgs(list, list, ordering, []) == Scan([], [], [])
  {}

  lemma FirstEvent(list: string, text: string, args: seq<string>)
    requires |args| > 0 && |text| > 0
    ensures var events := ScanElement(list, list, RequireOrder, text, args).events;
            |events| > 0 && events[0] == ReadLetter(list, text, args[1..]).event
  {
    hide ReadLetter, ScanArgs;
  }

  lemma LetterTakes(list: string, text: string, following: seq<string>)
    requires |text| > 0
    ensures var l := ReadLetter(list, text, following); (l.takesNext ==> l.rest == "" && |following| > 0) && |l.rest| < |text|
  {}

  lemma SomeEvent(list: string, text: string, args: seq<string>)
    requires |args| > 0 && |text| > 0
    ensures |ScanElement(list, list, Permute, text, args).events| > 0
  {}

  /** When a scan does not end at a `--`, what it leaves over are ordinary arguments. */
  lemma {:induction false} OthersOrdinary(list: string, args: seq<string>)
    ensures var o := ScanArgs(list, list, Permute, args).others;
            Ended(list, args) || |o| == 0 || (IsOrdinary(o[0]) && o[0] != "--")
    decreases |args|, if |args| > 0 then |args[0]| + 2 else 0
  {
    if |args| > 0 && args[0] != "--" && !IsOrdinary(args[0]) {
      ElementOthersOrdinary(list, args[0][1..], args);
    }
  }

  lemma {:induction false} ElementOthersOrdinary(list: string, text: string, args: seq<string>)
    requires |args| > 0 && |text| > 0
    ensures var o := ScanElement(list, list, Permute, text, args).others;
            EndedElement(list, text, args) || |o| == 0 || (IsOrdinary(o[0]) && o[0] != "--")
    decreases |args|, |text| + 1
  {
    hide ReadLetter, IsOrdinary;
    var letter := ReadLetter(list, text, args[1..]);
    LetterTakes(list, text, args[1..]);
    if letter.rest != "" {
      ElementOthersOrdinary(list, letter.rest, args);
    } else {
      OthersOrdinary(list, args[if letter.takesNext then 2 else 1..]);
    }
  }

  /** The permuted arguments mean the same to a scan that stops at the first ordinary argument, exactly when the
      last option does not lack its argument or nothing but options was given. */
  lemma RescanIff(list: string, args: seq<string>)
    ensures var s := ScanArgs(list, list, Permute, args);
            ScanArgs(list, list, RequireOrder, s.units + s.others) == s <==> !(EndsMissing(s.events) && |s.others| > 0)
  {
    OthersOrdinary(list, args);
    RescanArgs(list, args, ScanArgs(list, list, Permute, args).others);
  }

  /** `x -a` where `-a` wants an argument: the option lacks it, but in the permuted `-a x` it finds one. */
  lemma RescanDiffers()
    ensures ScanArgs("a:", "a:", Permute, ["x", "-a"]) == Scan([Missing('a', false)], ["-a"], ["x"])
    ensures ScanArgs("a:", "a:", RequireOrder, ["-a", "x"]) == Scan([Opt('a', Some("x"))], ["-a", "x"], [])
  {
    var first, again := ["x", "-a"], ["-a", "x"];
    assert WantsOf("a:", 'a') == Needed by {
      assert Index("a:", 'a') == Some("a:");
    }
    assert "-a"[1..] == "a" && "a"[1..] == "" && first[1..] == ["-a"] && again[1..] == ["x"];
    hide WantsOf;
    NothingLeft("a:", Permute);
    NothingLeft("a:", RequireOrder);
    assert ["-a"][1..] == [] && ["-a"][..1] == ["-a"] && again[..2] == again && again[2..] == [];
    assert ScanElement("a:", "a:", Permute, "a", ["-a"]) == Scan([Missing('a', false)], ["-a"], []);
    assert ScanElement("a:", "a:", RequireOrder, "a", again) == Scan([Opt('a', Some("x"))], again, []);
    assert ScanArgs("a:", "a:", Permute, ["-a"]) == Scan([Missing('a', false)], ["-a"], []);
  }
}
