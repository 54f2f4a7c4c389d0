/** What a user writes and what `getopt` reports: options are declared, used in elements of the command line between
    ordinary arguments, and come back one by one. */
module GetoptLaws {
  import opened Wrappers
  import opened GetoptSpec

  /** An option stands alone, needs an argument or may have one. */
  datatype Kind = Plain | Needs | May

  datatype Declared = Declared(c: char, kind: Kind)

  function Marks(kind: Kind): string {
    match kind
    case Plain => ""
    case Needs => ":"
    case May => "::"
  }

  /** The list of option characters that declares `ds`. */
  function ListOf(ds: seq<Declared>): string {
    if |ds| == 0 then ""
    else [ds[0].c] + Marks(ds[0].kind) + ListOf(ds[1..])
  }

  /** A colon cannot be an option. */
  predicate Proper(ds: seq<Declared>) {
    forall k :: 0 <= k < |ds| ==> ds[k].c != ':'
  }

  /** The first declaration of `c` counts. */
  function KindOf(ds: seq<Declared>, c: char): Option<Kind> {
    if |ds| == 0 then None else if ds[0].c == c then Some(ds[0].kind) else KindOf(ds[1..], c)
  }

  /** Something on the command line: an ordinary argument, an element of letters such as `-abc`, one whose last letter has
      its argument attached (`-abofile`) or in the next element (`-abo file`), or one whose last letter may have an argument
      and has none. */
  datatype Piece =
    | Word(text: string)
    | Letters(letters: string)
    | Attached(letters: string, c: char, arg: string)
    | Apart(letters: string, c: char, arg: string)
    | Bare(letters: string, c: char)

  /** The end of the command line: nothing more, `--` and arguments behind it, or a last element whose last letter needs an
      argument that is not there. */
  datatype Ending = Over | Dashes(rest: seq<string>) | Lacking(letters: string, c: char)

  function ArgsOf(p: Piece): seq<string> {
    match p
    case Word(text) => [text]
    case Letters(letters) => ["-" + letters]
    case Attached(letters, c, arg) => ["-" + letters + [c] + arg]
    case Apart(letters, c, arg) => ["-" + letters + [c], arg]
    case Bare(letters, c) => ["-" + letters + [c]]
  }

  function AllArgs(pieces: seq<Piece>): seq<string> {
    if |pieces| == 0 then [] else ArgsOf(pieces[0]) + AllArgs(pieces[1..])
  }

  function EndArgs(e: Ending): seq<string> {
    match e
    case Over => []
    case Dashes(rest) => ["--"] + rest
    case Lacking(letters, c) => ["-" + letters + [c]]
  }

  /** Letters that take no argument: declared so, or not declared at all. */
  predicate Simple(ds: seq<Declared>, sign: string, letters: string) {
    forall k :: 0 <= k < |letters| ==> letters[k] !in sign && KindOf(ds, letters[k]) in {None, Some(Plain)}
  }

  /** The piece is written as it should be for these declarations. */
  predicate Fits(ds: seq<Declared>, sign: string, p: Piece) {
    match p
    case Word(text) => text == "" || text[0] != '-' || text == "-"
    case Letters(letters) => letters != "" && letters != "-" && Simple(ds, sign, letters)
    case Attached(letters, c, arg) => arg != "" && c !in sign && Simple(ds, sign, letters) && KindOf(ds, c) in {Some(Needs), Some(May)}
    case Apart(letters, c, arg) => letters + [c] != "-" && c !in sign && Simple(ds, sign, letters) && KindOf(ds, c) == Some(Needs)
    case Bare(letters, c) => letters + [c] != "-" && c !in sign && Simple(ds, sign, letters) && KindOf(ds, c) == Some(May)
  }

  predicate EndFits(ds: seq<Declared>, sign: string, e: Ending) {
    e.Lacking? ==> e.letters + [e.c] != "-" && e.c !in sign && Simple(ds, sign, e.letters) && KindOf(ds, e.c) == Some(Needs)
  }

  /** What one call reports: its value, `optarg`, and the character it leaves in `optopt`, if any. */
  datatype Report = Report(code: int, optarg: Option<string>, optopt: Option<char>)

  function LetterReports(ds: seq<Declared>, letters: string): seq<Report> {
    if |letters| == 0 then []
    else
      [if KindOf(ds, letters[0]) == Some(Plain) then Report(letters[0] as int, None, None)
       else Report('?' as int, None, Some(letters[0]))] + LetterReports(ds, letters[1..])
  }

  function ReportsOf(ds: seq<Declared>, p: Piece): seq<Report> {
    match p
    case Word(text) => [Report(1, Some(text), None)]
    case Letters(letters) => LetterReports(ds, letters)
    case Attached(letters, c, arg) => LetterReports(ds, letters) + [Report(c as int, Some(arg), None)]
    case Apart(letters, c, arg) => LetterReports(ds, letters) + [Report(c as int, Some(arg), None)]
    case Bare(letters, c) => LetterReports(ds, letters) + [Report(c as int, None, None)]
  }

  function AllReports(ds: seq<Declared>, pieces: seq<Piece>): seq<Report> {
    if |pieces| == 0 then [] else ReportsOf(ds, pieces[0]) + AllReports(ds, pieces[1..])
  }

  /** A missing argument is reported by a colon if the list of the call starts with one. */
  function EndReports(ds: seq<Declared>, e: Ending, colon: bool): seq<Report> {
    match e
    case Lacking(letters, c) => LetterReports(ds, letters) + [Report(if colon then ':' as int else '?' as int, None, Some(c))]
    case _ => []
  }

  function Options(pieces: seq<Piece>): seq<Piece> {
    if |pieces| == 0 then [] else (if pieces[0].Word? then [] else [pieces[0]]) + Options(pieces[1..])
  }

  function Words(pieces: seq<Piece>): seq<string> {
    if |pieces| == 0 then [] else (if pieces[0].Word? then [pieces[0].text] else []) + Words(pieces[1..])
  }

  function Behind(e: Ending): seq<string> {
    if e.Dashes? then e.rest else []
  }

  function EndUnits(e: Ending): seq<string> {
    if e.Dashes? then ["--"] else EndArgs(e)
  }

  /** What the calls of `getopt` report for a scan. */
  function Reported(events: seq<Event>): seq<Report> {
    if |events| == 0 then [] else [ReportOf(events[0])] + Reported(events[1..])
  }

  function ReportOf(e: Event): Report {
    Report(Code(e), ArgOf(e), if e.Unknown? || e.Missing? then Some(e.c) else None)
  }

  lemma {:induction false} ReportedBoth(a: seq<Event>, b: seq<Event>)
    ensures Reported(a + b) == Reported(a) + Reported(b)
  {
    hide ReportOf;
    if |a| == 0 {
      assert a + b == b;
    } else {
      ReportedBoth(a[1..], b);
      assert (a + b)[1..] == a[1..] + b;
    }
  }

  // ---- the list of option characters says what was declared ----

  function Asked(kind: Option<Kind>): Wants {
    match kind
    case None => NoOption
    case Some(Plain) => Nothing
    case Some(Needs) => Needed
    case Some(May) => Allowed
  }

  lemma {:induction false} Skips(front: string, list: string, c: char)
    requires c !in front
    ensures Index(front + list, c) == Index(list, c)
  {
    if |front| == 0 {
      assert front + list == list;
    } else {
      Skips(front[1..], list, c);
      assert (front + list)[1..] == front[1..] + list;
    }
  }

  lemma {:induction false} IndexList(ds: seq<Declared>, c: char)
    requires Proper(ds) && c != ':'
    ensures WantsOf(ListOf(ds), c) == Asked(KindOf(ds, c))
  {
    if |ds| > 0 {
      var front, rest := [ds[0].c] + Marks(ds[0].kind), ListOf(ds[1..]);
      if ds[0].c != c {
        assert ListOf(ds) == front + rest;
        Skips(front, rest, c);
        IndexList(ds[1..], c);
      } else {
        FirstDeclared(ds);
      }
    }
  }

  lemma FirstDeclared(ds: seq<Declared>)
    requires Proper(ds) && |ds| > 0
    ensures WantsOf(ListOf(ds), ds[0].c) == Asked(Some(ds[0].kind))
  {
    var list, rest := ListOf(ds), ListOf(ds[1..]);
    assert rest != "" ==> rest[0] == ds[1..][0].c != ':';
    assert list[0] == ds[0].c && Index(list, ds[0].c) == Some(list);
    hide Index, ListOf, Proper;
    assert list == [ds[0].c] + Marks(ds[0].kind) + rest;
  }

  /** The whole list: a leading sign, a colon that asks for colons, and the declarations. */
  function Written(sign: string, colon: bool, ds: seq<Declared>): string {
    sign + (if colon then ":" else "") + ListOf(ds)
  }

  lemma Declares(sign: string, colon: bool, ds: seq<Declared>, c: char)
    requires Proper(ds) && c !in sign && sign in {"", "+", "-"}
    ensures WantsOf(Written(sign, colon, ds), c) == Asked(KindOf(ds, c))
  {
    hide Index, ListOf, KindOf;
    if c == ':' {
      NoColon(ds);
    } else {
      hide Proper;
      var mark := if colon then ":" else "";
      IndexList(ds, c);
      Skips(sign, mark + ListOf(ds), c);
      Skips(mark, ListOf(ds), c);
      assert Written(sign, colon, ds) == sign + (mark + ListOf(ds));
    }
  }

  lemma {:induction false} NoColon(ds: seq<Declared>)
    requires Proper(ds)
    ensures KindOf(ds, ':') == None
  {
    if |ds| > 0 {
      NoColon(ds[1..]);
    }
  }

  // ---- one element ----

  function LetterEvents(ds: seq<Declared>, letters: string): seq<Event> {
    if |letters| == 0 then []
    else [if KindOf(ds, letters[0]) == Some(Plain) then Opt(letters[0], None) else Unknown(letters[0])] + LetterEvents(ds, letters[1..])
  }

  lemma {:induction false} LettersReported(ds: seq<Declared>, letters: string)
    ensures Reported(LetterEvents(ds, letters)) == LetterReports(ds, letters)
    ensures |LetterEvents(ds, letters)| == |letters|
  {
    if |letters| > 0 {
      LettersReported(ds, letters[1..]);
      assert LetterEvents(ds, letters)[1..] == LetterEvents(ds, letters[1..]);
    }
  }

  /** A letter that takes no argument. */
  lemma SimpleLetter(ds: seq<Declared>, sign: string, colon: bool, x: char, rest: string, following: seq<string>)
    requires Proper(ds) && sign in {"", "+", "-"} && Simple(ds, sign, [x])
    ensures ReadLetter(Written(sign, colon, ds), [x] + rest, following) == Letter(LetterEvents(ds, [x])[0], rest, false)
  {
    hide Index, Written;
    assert [x][0] == x;
    Declares(sign, colon, ds, x);
    assert ([x] + rest)[1..] == rest;
  }

  /** Letters in front of something more in the same element. */
  lemma {:induction false} LettersScan(ds: seq<Declared>, sign: string, colon: bool, first: bool, ordering: Ordering,
                                       letters: string, tail: string, args: seq<string>)
    requires Proper(ds) && sign in {"", "+", "-"} && Simple(ds, sign, letters) && |args| > 0 && tail != ""
    ensures var later := Written(sign, colon, ds);
            ScanElement(if first then Written("", colon, ds) else later, later, ordering, letters + tail, args) ==
            Ahead(LetterEvents(ds, letters), [], [],
                  ScanElement(if first && letters == "" then Written("", colon, ds) else later, later, ordering, tail, args))
    decreases |letters|
  {
    hide ReadLetter, Written, WantsOf, Index, ScanArgs;
    var later := Written(sign, colon, ds);
    var now := if first then Written("", colon, ds) else later;
    if letters == "" {
      assert letters + tail == tail;
      NothingAhead(ScanElement(now, later, ordering, tail, args));
    } else {
      var x, rest := letters[0], letters[1..] + tail;
      assert letters + tail == [x] + rest;
      SimpleLetter(ds, if first then "" else sign, colon, x, rest, args[1..]);
      LettersScan(ds, sign, colon, false, ordering, letters[1..], tail, args);
      var s := ScanElement(later, later, ordering, tail, args);
      AheadBoth(LetterEvents(ds, [x]), [], LetterEvents(ds, letters[1..]), [], [], s);
      assert LetterEvents(ds, [x]) == [LetterEvents(ds, [x])[0]] by { assert [x][1..] == ""; }
      assert LetterEvents(ds, letters) == LetterEvents(ds, [x]) + LetterEvents(ds, letters[1..]);
    }
  }

  lemma NothingAhead(s: Scan)
    ensures Ahead([], [], [], s) == s
  {}

  lemma AheadBoth(e: seq<Event>, u: seq<string>, e': seq<Event>, u': seq<string>, o: seq<string>, s: Scan)
    ensures Ahead(e, u, [], Ahead(e', u', o, s)) == Ahead(e + e', u + u', o, s)
  {
    assert e + (e' + s.events) == e + e' + s.events;
    assert u + (u' + s.units) == u + u' + s.units;
    assert [] + (o + s.others) == o + s.others;
  }

  /** The letter an element ends with. */
  function LastEvent(ds: seq<Declared>, p: Piece): Event
    requires !p.Word? && (p.Letters? ==> p.letters != "")
  {
    match p
    case Letters(letters) => LetterEvents(ds, [letters[|letters| - 1]])[0]
    case Attached(_, c, arg) => Opt(c, Some(arg))
    case Apart(_, c, arg) => Opt(c, Some(arg))
    case Bare(_, c) => Opt(c, None)
  }

  /** The letters before it, and the text from it on. */
  function FrontLetters(p: Piece): string
    requires !p.Word? && (p.Letters? ==> p.letters != "")
  {
    if p.Letters? then p.letters[..|p.letters| - 1] else p.letters
  }

  function LastText(p: Piece): string
    requires !p.Word? && (p.Letters? ==> p.letters != "")
  {
    match p
    case Letters(letters) => [letters[|letters| - 1]]
    case Attached(_, c, arg) => [c] + arg
    case Apart(_, c, _) => [c]
    case Bare(_, c) => [c]
  }

  lemma LastLetter(ds: seq<Declared>, sign: string, now: string, colon: bool, p: Piece, rest: seq<string>)
    requires Proper(ds) && sign in {"", "+", "-"} && now in {"", sign} && !p.Word? && Fits(ds, sign, p)
    ensures ReadLetter(Written(now, colon, ds), LastText(p), (ArgsOf(p) + rest)[1..]) == Letter(LastEvent(ds, p), "", p.Apart?)
  {
    hide Index, Written;
    var c := LastText(p)[0];
    Declares(now, colon, ds, c);
    if p.Letters? {
      assert KindOf(ds, c) in {None, Some(Plain)};
      assert [c][1..] == "";
    } else if p.Attached? {
      assert LastText(p)[1..] == p.arg;
    } else if p.Apart? {
      assert (ArgsOf(p) + rest)[1..][0] == p.arg;
    }
  }

  /** The element of a piece starts an option. */
  lemma PieceStarts(ds: seq<Declared>, sign: string, p: Piece, rest: seq<string>)
    requires Fits(ds, sign, p) && !p.Word?
    ensures (p.Letters? ==> p.letters != "") && |ArgsOf(p)| > 0 && LastText(p) != ""
    ensures var a := (ArgsOf(p) + rest)[0];
            a != "--" && !IsOrdinary(a) && a[1..] == FrontLetters(p) + LastText(p) && Simple(ds, sign, FrontLetters(p))
    ensures (ArgsOf(p) + rest)[..|ArgsOf(p)|] == ArgsOf(p) && (ArgsOf(p) + rest)[|ArgsOf(p)|..] == rest
  {
    hide KindOf, IsOrdinary;
    var text := FrontLetters(p) + LastText(p);
    assert ArgsOf(p)[0] == "-" + text;
    assert text != "-" by {
      if p.Attached? {
        assert |text| >= 2;
      }
    }
    Dashed(text);
  }

  lemma Dashed(text: string)
    requires text != "" && text != "-"
    ensures var a := "-" + text; a != "--" && !IsOrdinary(a) && a[1..] == text
  {
    assert ("-" + text)[1..] == text && "--"[1..] == "-";
  }

  lemma PieceEnds(ds: seq<Declared>, sign: string, now: string, colon: bool, ordering: Ordering, p: Piece, rest: seq<string>)
    requires Proper(ds) && sign in {"", "+", "-"} && now in {"", sign} && !p.Word? && Fits(ds, sign, p)
    ensures var later := Written(sign, colon, ds);
            ScanElement(Written(now, colon, ds), later, ordering, LastText(p), ArgsOf(p) + rest) ==
            Ahead([LastEvent(ds, p)], ArgsOf(p), [], ScanArgs(later, later, ordering, rest))
  {
    hide ReadLetter, Written, KindOf, ScanArgs, Simple, LetterEvents;
    LastLetter(ds, sign, now, colon, p, rest);
    var args := ArgsOf(p) + rest;
    assert args[..|ArgsOf(p)|] == ArgsOf(p) && args[|ArgsOf(p)|..] == rest;
  }

  /** A whole piece is read as it was meant, whatever comes behind it. */
  lemma PieceScan(ds: seq<Declared>, sign: string, colon: bool, first: bool, ordering: Ordering, p: Piece, rest: seq<string>)
    requires Proper(ds) && sign in {"", "+", "-"} && Fits(ds, sign, p) && !p.Word?
    ensures var later := Written(sign, colon, ds);
            ScanArgs(if first then Written("", colon, ds) else later, later, ordering, ArgsOf(p) + rest) ==
            Ahead(LetterEvents(ds, FrontLetters(p)) + [LastEvent(ds, p)], ArgsOf(p), [], ScanArgs(later, later, ordering, rest))
  {
    hide ReadLetter, Written, ScanElement, IsOrdinary, Fits, Simple, ArgsOf, FrontLetters, LastText, LastEvent, LetterEvents;
    var later := Written(sign, colon, ds);
    var now := if first then Written("", colon, ds) else later;
    PieceStarts(ds, sign, p, rest);
    var args := ArgsOf(p) + rest;
    var front, text := FrontLetters(p), LastText(p);
    assert ScanArgs(now, later, ordering, args) == ScanElement(now, later, ordering, front + text, args);
    LettersScan(ds, sign, colon, first, ordering, front, text, args);
    PieceEnds(ds, sign, if first && front == "" then "" else sign, colon, ordering, p, rest);
    AheadBoth(LetterEvents(ds, front), [], [LastEvent(ds, p)], ArgsOf(p), [], ScanArgs(later, later, ordering, rest));
    assert [] + ArgsOf(p) == ArgsOf(p);
  }

  lemma PieceReported(ds: seq<Declared>, p: Piece)
    requires !p.Word? && (p.Letters? ==> p.letters != "")
    ensures Reported(LetterEvents(ds, FrontLetters(p)) + [LastEvent(ds, p)]) == ReportsOf(ds, p)
  {
    var front, last := FrontLetters(p), LastEvent(ds, p);
    LettersReported(ds, front);
    ReportedBoth(LetterEvents(ds, front), [last]);
    assert [last][1..] == [];
    if p.Letters? {
      LetterSnoc(ds, front, p.letters[|front|]);
      assert front + [p.letters[|front|]] == p.letters;
      assert [p.letters[|front|]][1..] == "";
    }
  }

  lemma {:induction false} LetterSnoc(ds: seq<Declared>, letters: string, x: char)
    ensures LetterReports(ds, letters + [x]) == LetterReports(ds, letters) + LetterReports(ds, [x])
  {
    if letters == "" {
      assert letters + [x] == [x];
    } else {
      LetterSnoc(ds, letters[1..], x);
      assert (letters + [x])[1..] == letters[1..] + [x];
    }
  }

  // ---- the whole command line ----

  /** The end of the command line. */
  lemma EndScan(ds: seq<Declared>, sign: string, colon: bool, first: bool, ordering: Ordering, e: Ending)
    requires Proper(ds) && sign in {"", "+", "-"} && EndFits(ds, sign, e)
    ensures var later := Written(sign, colon, ds);
            var s := ScanArgs(if first then Written("", colon, ds) else later, later, ordering, EndArgs(e));
            && Reported(s.events) == EndReports(ds, e, colon && (sign == "" || (first && e.Lacking? && e.letters == "")))
            && s.units == EndUnits(e) && s.others == Behind(e)
  {
    hide ReadLetter, Written, Fits, LetterEvents, KindOf, ScanElement, EndFits, Simple, LetterReports;
    match e
    case Over =>
    case Dashes(rest) => assert (["--"] + rest)[1..] == rest;
    case Lacking(letters, c) =>
      LackingEnd(ds, sign, colon, first, ordering, e);
      var own := colon && (sign == "" || (first && letters == ""));
      LettersReported(ds, letters);
      ReportedBoth(LetterEvents(ds, letters), [Missing(c, own)]);
      assert [Missing(c, own)][1..] == [];
  }

  lemma LackingEnd(ds: seq<Declared>, sign: string, colon: bool, first: bool, ordering: Ordering, e: Ending)
    requires Proper(ds) && sign in {"", "+", "-"} && EndFits(ds, sign, e) && e.Lacking?
    ensures var later := Written(sign, colon, ds);
            var own := colon && (sign == "" || (first && e.letters == ""));
            ScanArgs(if first then Written("", colon, ds) else later, later, ordering, EndArgs(e)) ==
            Scan(LetterEvents(ds, e.letters) + [Missing(e.c, own)], EndArgs(e), [])
  {
    hide ReadLetter, Written, Fits, LetterEvents, KindOf, ScanElement, IsOrdinary, Simple;
    var later := Written(sign, colon, ds);
    var now := if first then Written("", colon, ds) else later;
    var args := EndArgs(e);
    LackingStarts(e);
    assert ScanArgs(now, later, ordering, args) == ScanElement(now, later, ordering, e.letters + [e.c], args);
    LettersScan(ds, sign, colon, first, ordering, e.letters, [e.c], args);
    LackingScan(ds, sign, if first && e.letters == "" then "" else sign, colon, ordering, e);
    assert [] + args == args;
  }

  lemma LackingStarts(e: Ending)
    requires e.Lacking? && e.letters + [e.c] != "-"
    ensures var a := EndArgs(e)[0]; a != "--" && !IsOrdinary(a) && a[1..] == e.letters + [e.c]
  {
    Dashed(e.letters + [e.c]);
    assert EndArgs(e)[0] == "-" + (e.letters + [e.c]);
  }

  lemma LackingScan(ds: seq<Declared>, sign: string, now: string, colon: bool, ordering: Ordering, e: Ending)
    requires Proper(ds) && sign in {"", "+", "-"} && now in {"", sign} && e.Lacking? && EndFits(ds, sign, e)
    ensures var later := Written(sign, colon, ds);
            ScanElement(Written(now, colon, ds), later, ordering, [e.c], EndArgs(e)) ==
            Scan([Missing(e.c, colon && now == "")], EndArgs(e), [])
  {
    hide WantsOf, Simple;
    Declares(now, colon, ds, e.c);
    FirstColon(now, colon, ds);
    var later := Written(sign, colon, ds);
    var args := EndArgs(e);
    assert [e.c][1..] == "" && args[1..] == [] && args[..1] == args;
    assert ScanArgs(later, later, ordering, []) == Scan([], [], []);
  }

  lemma FirstColon(now: string, colon: bool, ds: seq<Declared>)
    requires Proper(ds) && now in {"", "+", "-"}
    ensures var list := Written(now, colon, ds); |list| > 0 && list[0] == ':' <==> colon && now == ""
  {}

  predicate AllFit(ds: seq<Declared>, sign: string, pieces: seq<Piece>) {
    forall k :: 0 <= k < |pieces| ==> Fits(ds, sign, pieces[k])
  }

  /** The pieces `getopt` reports: with `Permute` it passes over ordinary arguments. */
  function Shown(ordering: Ordering, pieces: seq<Piece>): seq<Piece> {
    if ordering == Permute then Options(pieces) else pieces
  }

  /** Pieces in front of anything else. */
  lemma {:induction false} PiecesScan(ds: seq<Declared>, sign: string, colon: bool, first: bool, ordering: Ordering, pieces: seq<Piece>, tail: seq<string>)
    requires Proper(ds) && sign in {"", "+", "-"} && AllFit(ds, sign, pieces)
    requires ordering == RequireOrder ==> Words(pieces) == []
    ensures var later, shown := Written(sign, colon, ds), Shown(ordering, pieces);
            var s := ScanArgs(if first then Written("", colon, ds) else later, later, ordering, AllArgs(pieces) + tail);
            var r := ScanArgs(if first && shown == [] then Written("", colon, ds) else later, later, ordering, tail);
            && Reported(s.events) == AllReports(ds, shown) + Reported(r.events)
            && s.units == AllArgs(shown) + r.units
            && s.others == (if ordering == Permute then Words(pieces) else []) + r.others
  {
    hide ReadLetter, Written, Fits, Simple, LetterEvents, KindOf, ScanElement, ScanArgs, ArgsOf, ReportsOf, Reported, AllArgs, AllReports, Shown, Words;
    if |pieces| == 0 {
      NoPieces(ds, ordering, tail);
      var later := Written(sign, colon, ds);
      var r := ScanArgs(if first then Written("", colon, ds) else later, later, ordering, tail);
      assert pieces == [] && [] + Reported(r.events) == Reported(r.events) && [] + r.units == r.units && [] + r.others == r.others;
    } else {
      var p, more, rest := pieces[0], pieces[1..], AllArgs(pieces[1..]) + tail;
      var skipped := p.Word? && ordering == Permute;
      ShownFirst(ds, ordering, pieces);
      FirstPiece(ds, sign, colon, first, ordering, p, rest);
      PiecesScan(ds, sign, colon, first && skipped, ordering, more, tail);
      assert AllArgs(pieces) + tail == ArgsOf(p) + rest by { MoreArgs(pieces, tail); }
    }
  }

  lemma NoPieces(ds: seq<Declared>, ordering: Ordering, tail: seq<string>)
    ensures Shown(ordering, []) == [] && AllReports(ds, []) == [] && Words([]) == [] && AllArgs([]) == [] && AllArgs([]) + tail == tail
  {}

  lemma MoreArgs(pieces: seq<Piece>, tail: seq<string>)
    requires |pieces| > 0
    ensures AllArgs(pieces) + tail == ArgsOf(pieces[0]) + (AllArgs(pieces[1..]) + tail)
  {}

  lemma ShownFirst(ds: seq<Declared>, ordering: Ordering, pieces: seq<Piece>)
    requires |pieces| > 0
    ensures var p, skipped := pieces[0], pieces[0].Word? && ordering == Permute;
            var shown, more := Shown(ordering, pieces), Shown(ordering, pieces[1..]);
            && AllReports(ds, shown) == (if skipped then [] else ReportsOf(ds, p)) + AllReports(ds, more)
            && AllArgs(shown) == (if skipped then [] else ArgsOf(p)) + AllArgs(more)
            && (shown == [] <==> skipped && more == [])
            && Words(pieces) == (if p.Word? then [p.text] else []) + Words(pieces[1..])
  {
    hide ReportsOf, ArgsOf;
    var shown, more := Shown(ordering, pieces), Shown(ordering, pieces[1..]);
    if pieces[0].Word? && ordering == Permute {
      assert shown == [] + more == more;
    } else {
      assert shown == [pieces[0]] + more && shown[1..] == more;
    }
  }

  lemma WordScan(now: string, later: string, ordering: Ordering, text: string, rest: seq<string>)
    requires (text == "" || text[0] != '-' || text == "-") && ordering != RequireOrder
    ensures ScanArgs(now, later, ordering, [text] + rest) ==
            if ordering == Permute then Ahead([], [], [text], ScanArgs(now, later, ordering, rest))
            else Ahead([Ordinary(text)], [text], [], ScanArgs(later, later, ordering, rest))
  {
    assert ([text] + rest)[0] == text && ([text] + rest)[1..] == rest;
    assert text != "--" && IsOrdinary(text);
  }

  /** What one piece adds to the scan of what follows it. */
  lemma FirstPiece(ds: seq<Declared>, sign: string, colon: bool, first: bool, ordering: Ordering, p: Piece, rest: seq<string>)
    requires Proper(ds) && sign in {"", "+", "-"} && Fits(ds, sign, p) && !(ordering == RequireOrder && p.Word?)
    ensures var later, skipped := Written(sign, colon, ds), p.Word? && ordering == Permute;
            var s := ScanArgs(if first then Written("", colon, ds) else later, later, ordering, ArgsOf(p) + rest);
            var r := ScanArgs(if first && skipped then Written("", colon, ds) else later, later, ordering, rest);
            && Reported(s.events) == (if skipped then [] else ReportsOf(ds, p)) + Reported(r.events)
            && s.units == (if skipped then [] else ArgsOf(p)) + r.units
            && s.others == (if skipped then [p.text] else []) + r.others
  {
    hide ReadLetter, Written, Simple, LetterEvents, KindOf, ScanElement;
    var later := Written(sign, colon, ds);
    if p.Word? {
      WordScan(if first then Written("", colon, ds) else later, later, ordering, p.text, rest);
      var r := ScanArgs(if first && ordering == Permute then Written("", colon, ds) else later, later, ordering, rest);
      assert [] + r.events == r.events;
      if ordering != Permute {
        ReportedBoth([Ordinary(p.text)], ScanArgs(later, later, ordering, rest).events);
        assert [Ordinary(p.text)][1..] == [];
        assert Reported([Ordinary(p.text)]) == [Report(1, Some(p.text), None)];
      }
    } else {
      PieceScan(ds, sign, colon, first, ordering, p, rest);
      PieceReported(ds, p);
      ReportedBoth(LetterEvents(ds, FrontLetters(p)) + [LastEvent(ds, p)], ScanArgs(later, later, ordering, rest).events);
    }
  }

  /** Without a leading sign, options and ordinary arguments in any mixture are told apart: every option is reported with the
      argument that was written for it, in order, and the ordinary arguments are left over, in order. */
  lemma PermuteWritten(ds: seq<Declared>, colon: bool, pieces: seq<Piece>, e: Ending)
    requires Proper(ds) && AllFit(ds, "", pieces) && EndFits(ds, "", e)
    ensures var list := Written("", colon, ds);
            var s := ScanArgs(list, list, Permute, AllArgs(pieces) + EndArgs(e));
            && Reported(s.events) == AllReports(ds, Options(pieces)) + EndReports(ds, e, colon)
            && s.units == AllArgs(Options(pieces)) + EndUnits(e)
            && s.others == Words(pieces) + Behind(e)
  {
    hide Written, ScanArgs, Fits, AllFit, ReportsOf, Reported, EndReports, EndArgs, EndUnits, Behind;
    PiecesScan(ds, "", colon, true, Permute, pieces, EndArgs(e));
    EndScan(ds, "", colon, true, Permute, e);
  }

  /** Behind a leading hyphen, ordinary arguments are reported in their place, as the argument of an option with value 1; a
      missing argument is reported by a colon in the first call only. */
  lemma InOrderWritten(ds: seq<Declared>, colon: bool, pieces: seq<Piece>, e: Ending)
    requires Proper(ds) && AllFit(ds, "-", pieces) && EndFits(ds, "-", e)
    ensures var s := ScanArgs(Written("", colon, ds), Written("-", colon, ds), ReturnInOrder, AllArgs(pieces) + EndArgs(e));
            && Reported(s.events) ==
               AllReports(ds, pieces) + EndReports(ds, e, colon && pieces == [] && e.Lacking? && e.letters == "")
            && s.units == AllArgs(pieces) + EndUnits(e) && s.others == Behind(e)
  {
    hide Written, ScanArgs, Fits, AllFit, ReportsOf, Reported, EndReports, EndArgs, EndUnits, Behind;
    PiecesScan(ds, "-", colon, true, ReturnInOrder, pieces, EndArgs(e));
    EndScan(ds, "-", colon, pieces == [], ReturnInOrder, e);
  }

  /** With `RequireOrder` the options end at the first ordinary argument, whatever comes after it. */
  lemma RequireWritten(ds: seq<Declared>, sign: string, colon: bool, pieces: seq<Piece>, text: string, behind: seq<string>)
    requires Proper(ds) && sign in {"", "+"} && AllFit(ds, sign, pieces) && Words(pieces) == [] && Fits(ds, sign, Word(text))
    ensures var s := ScanArgs(Written("", colon, ds), Written(sign, colon, ds), RequireOrder, AllArgs(pieces) + ([text] + behind));
            && Reported(s.events) == AllReports(ds, pieces) && s.units == AllArgs(pieces) && s.others == [text] + behind
  {
    hide Written, AllFit, ReportsOf;
    var later := Written(sign, colon, ds);
    PiecesScan(ds, sign, colon, true, RequireOrder, pieces, [text] + behind);
    var r := ScanArgs(if pieces == [] then Written("", colon, ds) else later, later, RequireOrder, [text] + behind);
    assert ([text] + behind)[0] == text;
    assert r == Scan([], [], [text] + behind);
    assert Reported([]) == [];
  }

  lemma RequireToEnd(ds: seq<Declared>, sign: string, colon: bool, pieces: seq<Piece>, e: Ending)
    requires Proper(ds) && sign in {"", "+"} && AllFit(ds, sign, pieces) && Words(pieces) == [] && EndFits(ds, sign, e)
    ensures var s := ScanArgs(Written("", colon, ds), Written(sign, colon, ds), RequireOrder, AllArgs(pieces) + EndArgs(e));
            && Reported(s.events) ==
               AllReports(ds, pieces) + EndReports(ds, e, colon && (sign == "" || (pieces == [] && e.Lacking? && e.letters == "")))
            && s.units == AllArgs(pieces) + EndUnits(e) && s.others == Behind(e)
  {
    hide Written, ScanArgs, Fits, AllFit, ReportsOf, Reported, EndReports, EndArgs, EndUnits, Behind;
    PiecesScan(ds, sign, colon, true, RequireOrder, pieces, EndArgs(e));
    EndScan(ds, sign, colon, pieces == [], RequireOrder, e);
  }

  // ---- every command line can be written so ----

  /** The letters of an element up to the first that takes an argument. */
  function SimplePrefix(ds: seq<Declared>, text: string): (n: nat)
    ensures n <= |text| && forall k :: 0 <= k < n ==> KindOf(ds, text[k]) in {None, Some(Plain)}
    ensures n < |text| ==> KindOf(ds, text[n]) in {Some(Needs), Some(May)}
  {
    if text == "" || KindOf(ds, text[0]) in {Some(Needs), Some(May)} then 0
    else
      var m := SimplePrefix(ds, text[1..]);
      assert KindOf(ds, text[0]).None? || KindOf(ds, text[0]).value.Plain?;
      assert forall k :: 1 <= k < m + 1 ==> text[k] == text[1..][k - 1];
      m + 1
  }

  /** Whatever the arguments are, they are pieces and an ending: the laws speak of every command line. */
  lemma {:induction false} EveryLine(ds: seq<Declared>, args: seq<string>) returns (pieces: seq<Piece>, e: Ending)
    ensures AllFit(ds, "", pieces) && EndFits(ds, "", e) && AllArgs(pieces) + EndArgs(e) == args
    decreases |args|
  {
    hide KindOf, Simple, Fits;
    if |args| == 0 {
      return [], Over;
    }
    if args[0] == "--" {
      assert ["--"] + args[1..] == args;
      return [], Dashes(args[1..]);
    }
    var p, n, last := FirstOf(ds, args);
    if last.Lacking? {
      assert [] + EndArgs(last) == args;
      return [], last;
    }
    var more;
    more, e := EveryLine(ds, args[n..]);
    pieces := [p] + more;
    MorePieces(ds, p, more, e);
    assert args == args[..n] + args[n..];
  }

  lemma MorePieces(ds: seq<Declared>, p: Piece, more: seq<Piece>, e: Ending)
    requires Fits(ds, "", p) && AllFit(ds, "", more)
    ensures AllFit(ds, "", [p] + more)
    ensures AllArgs([p] + more) + EndArgs(e) == ArgsOf(p) + (AllArgs(more) + EndArgs(e))
  {
    hide Fits, EndArgs;
    assert ([p] + more)[1..] == more;
  }

  lemma FirstOf(ds: seq<Declared>, args: seq<string>) returns (p: Piece, n: nat, e: Ending)
    requires |args| > 0 && args[0] != "--"
    ensures EndFits(ds, "", e) && if e.Lacking? then EndArgs(e) == args else 1 <= n <= |args| && Fits(ds, "", p) && args[..n] == ArgsOf(p)
  {
    hide KindOf;
    var a := args[0];
    p, n, e := Word(a), 1, Over;
    assert args[..1] == [a];
    if a != "" && a[0] == '-' && a != "-" {
      var text := a[1..];
      var m := SimplePrefix(ds, text);
      assert a == "-" + text && text != "-";
      if m == |text| {
        p := Letters(text);
      } else {
        p, n, e := LastOf(ds, args, text, m);
      }
    }
  }

  lemma LastOf(ds: seq<Declared>, args: seq<string>, text: string, m: nat) returns (p: Piece, n: nat, e: Ending)
    requires |args| > 0 && args[0] == "-" + text && text != "-" && m < |text|
    requires Simple(ds, "", text[..m]) && KindOf(ds, text[m]) in {Some(Needs), Some(May)}
    ensures EndFits(ds, "", e) && if e.Lacking? then EndArgs(e) == args else 1 <= n <= |args| && Fits(ds, "", p) && args[..n] == ArgsOf(p)
  {
    hide KindOf, Simple;
    var letters, c, arg := text[..m], text[m], text[m + 1..];
    assert text == letters + [c] + arg;
    n, e := 1, Over;
    if arg != "" {
      p := Attached(letters, c, arg);
      assert args[0] == "-" + letters + [c] + arg;
    } else {
      assert text == letters + [c] && args[0] == "-" + letters + [c];
      if KindOf(ds, c) == Some(May) {
        p := Bare(letters, c);
      } else if |args| > 1 {
        p, n := Apart(letters, c, args[1]), 2;
      } else {
        p, e := Word(""), Lacking(letters, c);
      }
    }
  }
}
