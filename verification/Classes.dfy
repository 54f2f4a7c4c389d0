/** How the character classes of bracket expressions relate to each other, for ASCII. */
module Classes {
  import opened Bytes
  import opened Regex

  /** The name of a class as it stands in a pattern. */
  function Letters(s: string): (name: seq<byte>)
    ensures (forall k :: 0 <= k < |s| ==> s[k] as int < 256) ==> Named(name, s)
  {
    seq(|s|, k requires 0 <= k < |s| => (s[k] as int % 256) as byte)
  }

  ghost predicate Has(s: string, c: int) {
    0 <= c < 256 && InClass(Letters(s), c)
  }

  lemma NameStart(name: seq<byte>, s: string)
    requires |s| >= 3
    ensures Named(name, s) ==> |name| == |s| && name[0] == s[0] as int && name[1] == s[1] as int && name[2] == s[2] as int
  {}

  /** The lengths and first letters tell the names apart. */
  lemma Starts(name: seq<byte>)
    ensures Named(name, "alpha") ==> |name| == 5 && name[0] == 97 && name[2] == 112
    ensures Named(name, "upper") ==> |name| == 5 && name[0] == 117
    ensures Named(name, "lower") ==> |name| == 5 && name[0] == 108
    ensures Named(name, "digit") ==> |name| == 5 && name[0] == 100
    ensures Named(name, "alnum") ==> |name| == 5 && name[0] == 97 && name[2] == 110
    ensures Named(name, "xdigit") ==> |name| == 6
    ensures Named(name, "space") ==> |name| == 5 && name[0] == 115
    ensures Named(name, "print") ==> |name| == 5 && name[0] == 112 && name[1] == 114
    ensures Named(name, "punct") ==> |name| == 5 && name[0] == 112 && name[1] == 117
    ensures Named(name, "graph") ==> |name| == 5 && name[0] == 103
    ensures Named(name, "cntrl") ==> |name| == 5 && name[0] == 99
    ensures Named(name, "blank") ==> |name| == 5 && name[0] == 98
  {
    hide Named;
    NameStart(name, "alpha");
    NameStart(name, "upper");
    NameStart(name, "lower");
    NameStart(name, "digit");
    NameStart(name, "alnum");
    NameStart(name, "xdigit");
    NameStart(name, "space");
    NameStart(name, "print");
    NameStart(name, "punct");
    NameStart(name, "graph");
    NameStart(name, "cntrl");
    NameStart(name, "blank");
  }

  lemma LettersIn(c: byte)
    ensures Has("upper", c) <==> 'A' as int <= c <= 'Z' as int
    ensures Has("lower", c) <==> 'a' as int <= c <= 'z' as int
    ensures Has("alpha", c) <==> 'A' as int <= c <= 'Z' as int || 'a' as int <= c <= 'z' as int
    ensures Has("alnum", c) <==> 'A' as int <= c <= 'Z' as int || 'a' as int <= c <= 'z' as int || '0' as int <= c <= '9' as int
  {
    hide Letters, Named;
    Starts(Letters("upper"));
    Starts(Letters("lower"));
    Starts(Letters("alpha"));
    Starts(Letters("alnum"));
  }

  lemma DigitsIn(c: byte)
    ensures Has("digit", c) <==> '0' as int <= c <= '9' as int
    ensures Has("xdigit", c) <==> '0' as int <= c <= '9' as int || 'A' as int <= c <= 'F' as int || 'a' as int <= c <= 'f' as int
    ensures Has("cntrl", c) <==> c < 32 || c == 127
    ensures Has("blank", c) <==> c == 9 || c == 32
  {
    hide Letters, Named;
    Starts(Letters("digit"));
    Starts(Letters("xdigit"));
    Starts(Letters("cntrl"));
    Starts(Letters("blank"));
  }

  lemma GraphIn(c: byte)
    ensures Has("space", c) <==> 9 <= c <= 13 || c == 32
    ensures Has("graph", c) <==> 33 <= c <= 126
    ensures Has("print", c) <==> 32 <= c <= 126
    ensures Has("punct", c) <==> 33 <= c <= 126 && !Has("alnum", c)
  {
    hide Letters, Named;
    Starts(Letters("space"));
    Starts(Letters("graph"));
    Starts(Letters("print"));
    Starts(Letters("punct"));
    Starts(Letters("alnum"));
  }

  /** What is in each class. */
  lemma ClassesAre(c: byte)
    ensures Has("upper", c) <==> 'A' as int <= c <= 'Z' as int
    ensures Has("lower", c) <==> 'a' as int <= c <= 'z' as int
    ensures Has("digit", c) <==> '0' as int <= c <= '9' as int
    ensures Has("alpha", c) <==> Has("upper", c) || Has("lower", c)
    ensures Has("alnum", c) <==> Has("alpha", c) || Has("digit", c)
    ensures Has("xdigit", c) <==> Has("digit", c) || 'A' as int <= c <= 'F' as int || 'a' as int <= c <= 'f' as int
    ensures Has("cntrl", c) <==> c < 32 || c == 127
    ensures Has("blank", c) <==> c == 9 || c == 32
    ensures Has("space", c) <==> 9 <= c <= 13 || c == 32
    ensures Has("graph", c) <==> 33 <= c <= 126
    ensures Has("print", c) <==> Has("graph", c) || c == 32
    ensures Has("punct", c) <==> Has("graph", c) && !Has("alnum", c)
  {
    hide Has;
    LettersIn(c);
    DigitsIn(c);
    GraphIn(c);
  }

  /** Letters come in pairs 32 apart, every graphic character is a letter, a digit or a punctuation character and only one of
      these, every ASCII character is a control character, a space or graphic and only one of these, and no other
      character is in any class. */
  lemma ClassLaws(c: byte)
    ensures c < 224 ==> (Has("upper", c) <==> Has("lower", c + 32))
    ensures Has("graph", c) <==> Has("alpha", c) || Has("digit", c) || Has("punct", c)
    ensures !(Has("alpha", c) && Has("digit", c)) && !(Has("alpha", c) && Has("punct", c)) && !(Has("digit", c) && Has("punct", c))
    ensures !(Has("upper", c) && Has("lower", c)) && !(Has("cntrl", c) && Has("print", c))
    ensures Has("cntrl", c) || Has("print", c) <==> c < 128
    ensures Has("blank", c) ==> Has("space", c)
  {
    hide Has;
    ClassesAre(c);
    if c < 224 {
      ClassesAre(c + 32);
    }
  }

  /** The characters of a class. */
  ghost function Members(s: string): set<int>
  {
    set c: int | 0 <= c < 256 && Has(s, c)
  }

  function Stretch(lo: int, hi: int): (s: set<int>)
    ensures forall c :: c in s <==> lo <= c < hi
    decreases hi - lo
  {
    if lo < hi then {lo} + Stretch(lo + 1, hi) else {}
  }

  lemma {:induction false} StretchSize(lo: int, hi: int)
    requires lo <= hi
    ensures |Stretch(lo, hi)| == hi - lo
    decreases hi - lo
  {
    if lo < hi {
      StretchSize(lo + 1, hi);
    }
  }

  /** How many characters each class has. */
  lemma ClassSizes()
    ensures |Members("upper")| == |Members("lower")| == 26 && |Members("digit")| == 10
    ensures |Members("alpha")| == 52 && |Members("alnum")| == 62 && |Members("xdigit")| == 22
    ensures |Members("graph")| == 94 && |Members("punct")| == 32 && |Members("print")| == 95
    ensures |Members("cntrl")| == 33 && |Members("blank")| == 2 && |Members("space")| == 6
  {
    hide Has;
    LetterSizes();
    GraphSizes();
    SpaceSizes();
  }

  lemma MembersAre(s: string, t: set<int>)
    requires forall c: byte :: Has(s, c) <==> c as int in t
    requires forall c :: c in t ==> 0 <= c < 256
    ensures Members(s) == t
  {
    hide Has;
  }

  lemma LetterSizes()
    ensures |Members("upper")| == |Members("lower")| == 26 && |Members("digit")| == 10
    ensures |Members("alpha")| == 52 && |Members("alnum")| == 62 && |Members("xdigit")| == 22
  {
    hide Has, Members, Stretch;
    forall c: byte
      ensures Has("upper", c) <==> 65 <= c < 91
      ensures Has("lower", c) <==> 97 <= c < 123
      ensures Has("digit", c) <==> 48 <= c < 58
      ensures Has("alpha", c) <==> 65 <= c < 91 || 97 <= c < 123
      ensures Has("alnum", c) <==> 65 <= c < 91 || 97 <= c < 123 || 48 <= c < 58
      ensures Has("xdigit", c) <==> 48 <= c < 58 || 65 <= c < 71 || 97 <= c < 103
    {
      ClassesAre(c);
    }
    StretchSize(65, 91);
    StretchSize(97, 123);
    StretchSize(48, 58);
    StretchSize(65, 71);
    StretchSize(97, 103);
    Apart(Stretch(65, 91), Stretch(97, 123));
    Apart(Stretch(65, 91) + Stretch(97, 123), Stretch(48, 58));
    Apart(Stretch(48, 58), Stretch(65, 71));
    Apart(Stretch(48, 58) + Stretch(65, 71), Stretch(97, 103));
    MembersAre("upper", Stretch(65, 91));
    MembersAre("lower", Stretch(97, 123));
    MembersAre("digit", Stretch(48, 58));
    MembersAre("alpha", Stretch(65, 91) + Stretch(97, 123));
    MembersAre("alnum", Stretch(65, 91) + Stretch(97, 123) + Stretch(48, 58));
    MembersAre("xdigit", Stretch(48, 58) + Stretch(65, 71) + Stretch(97, 103));
  }

  lemma Apart(a: set<int>, b: set<int>)
    requires a * b == {}
    ensures |a + b| == |a| + |b|
  {}

  lemma GraphSizes()
    ensures |Members("graph")| == 94 && |Members("punct")| == 32 && |Members("print")| == 95
  {
    hide Has, Members, Stretch;
    forall c: byte
      ensures Has("graph", c) <==> 33 <= c < 127
      ensures Has("print", c) <==> 32 <= c < 127
      ensures Has("punct", c) <==> 33 <= c < 48 || 58 <= c < 65 || 91 <= c < 97 || 123 <= c < 127
    {
      ClassesAre(c);
    }
    StretchSize(33, 127);
    StretchSize(32, 127);
    MembersAre("graph", Stretch(33, 127));
    MembersAre("print", Stretch(32, 127));
    StretchSize(33, 48);
    StretchSize(58, 65);
    StretchSize(91, 97);
    StretchSize(123, 127);
    Apart(Stretch(33, 48), Stretch(58, 65));
    Apart(Stretch(33, 48) + Stretch(58, 65), Stretch(91, 97));
    Apart(Stretch(33, 48) + Stretch(58, 65) + Stretch(91, 97), Stretch(123, 127));
    MembersAre("punct", Stretch(33, 48) + Stretch(58, 65) + Stretch(91, 97) + Stretch(123, 127));
  }

  lemma SpaceSizes()
    ensures |Members("cntrl")| == 33 && |Members("blank")| == 2 && |Members("space")| == 6
  {
    hide Has, Members, Stretch;
    forall c: byte
      ensures Has("cntrl", c) <==> c < 32 || c == 127
      ensures Has("blank", c) <==> c == 9 || c == 32
      ensures Has("space", c) <==> 9 <= c < 14 || c == 32
    {
      ClassesAre(c);
    }
    StretchSize(0, 32);
    StretchSize(9, 14);
    MembersAre("cntrl", Stretch(0, 32) + {127});
    MembersAre("blank", {9, 32});
    MembersAre("space", Stretch(9, 14) + {32});
  }
}
