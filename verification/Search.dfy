/** `re_match_2` and `re_search_2` on a pattern buffer, for one string. */
module Search {
  import opened Allocation
  import opened Bytes
  import opened Machine
  import opened WellFormed
  import opened Traces
  import opened MatchSpec
  import opened FastmapSpec
  import opened PatternBuffers
  import opened Fastmap
  import opened Matcher

  /** What matching at `pos` comes to: the end of the match, or -1. */
  ghost function MatchAt(code: seq<byte>, x: set<int>, t: seq<byte>, pos: int): int
    requires WfProgram(code, x) && Closed(code, x) && 0 <= pos <= |t|
  {
    StartIn(code, x);
    Outcome(Trace(code, x, t, 0, pos), |t|)
  }

  ghost predicate Matches(code: seq<byte>, x: set<int>, t: seq<byte>, pos: int)
    requires WfProgram(code, x) && Closed(code, x)
  {
    0 <= pos <= |t| && MatchAt(code, x, t, pos) != -1
  }

  /** No match is empty or begins with a character outside the fastmap, unless `can_be_null` says so. */
  ghost predicate FastmapRight(code: seq<byte>, fm: seq<bool>, canBeNull: bool) {
    |fm| == 256 && forall t, d, e :: Accepts(code, t, Thread(0, d), e) && !canBeNull ==> 0 <= d < e && d < |t| && fm[t[d]]
  }

  lemma KnownRight(buf: seq<byte>, code: seq<byte>, x: set<int>, fm: seq<bool>, canBeNull: bool)
    requires Known(buf, code, x, fm, canBeNull) && Variant(buf, code, x)
    ensures FastmapRight(code, fm, canBeNull)
  {
    hide Closed, Variant, First, Null, Accepts;
    forall t, d, e | Accepts(code, t, Thread(0, d), e) && !canBeNull
      ensures 0 <= d < e && d < |t| && fm[t[d]]
    {
      FirstSound(buf, code, x, t, 0, d, e);
      AcceptsBounds(code, t, Thread(0, d), e);
    }
  }

  /** A match that is found is one the fastmap foresees. */
  lemma MatchesForeseen(code: seq<byte>, x: set<int>, t: seq<byte>, fm: seq<bool>, canBeNull: bool, d: int)
    requires WfProgram(code, x) && Closed(code, x) && FastmapRight(code, fm, canBeNull) && !canBeNull
    requires Matches(code, x, t, d)
    ensures d < |t| && fm[t[d]]
  {
    hide Closed, WfProgram, Accepts, Trace;
    StartIn(code, x);
    var tr := Trace(code, x, t, 0, d);
    forall k | 0 <= k < |tr| && tr[k].End?
      ensures 0 <= tr[k].e
    {
      assert Reaches(tr, tr[k].e);
      LeafAccepted(code, x, t, d, tr[k].e);
    }
    OutcomeReaches(tr, |t|);
    LeafAccepted(code, x, t, d, Outcome(tr, |t|));
  }

  /** Match at `pos`, up to `stop`: the length of the match, -1 for none, -2 for lack of room. */
  method ReMatch2(bufp: PatternBuffer, text: seq<byte>, pos: int, stop: nat, mem: Allocator) returns (r: int)
    requires bufp.Compiled() && stop <= |text| && !mem.failed
    requires 0 <= pos <= |text| ==> pos <= stop
    modifies bufp.buffer, mem
    ensures bufp.Compiled() && r >= -2 && (r == -2) == mem.failed
    ensures !(0 <= pos <= |text|) ==> r == -1
    ensures 0 <= pos <= |text| && r != -2 ==>
            var e := MatchAt(bufp.code, bufp.x, text[..stop], pos); r == if e == -1 then -1 else e - pos
    ensures forall j :: bufp.used <= j < bufp.buffer.Length ==> bufp.buffer[j] == old(bufp.buffer[j])
  {
    hide WfProgram, Closed, Variant, Trace, Outcome;
    if pos < 0 || pos > |text| {
      return -1;
    }
    var m := new Match2(bufp.buffer, bufp.used, text[..stop], pos, mem, bufp.code, bufp.x);
    r := m.Search();
    EndAfterStart(bufp.code, bufp.x, text[..stop], pos);
  }

  lemma EndAfterStart(code: seq<byte>, x: set<int>, t: seq<byte>, pos: int)
    requires WfProgram(code, x) && Closed(code, x) && 0 <= pos <= |t|
    ensures MatchAt(code, x, t, pos) == -1 || pos <= MatchAt(code, x, t, pos) <= |t|
  {
    hide Closed, WfProgram, Accepts, Trace;
    StartIn(code, x);
    var tr := Trace(code, x, t, 0, pos);
    forall k | 0 <= k < |tr| && tr[k].End?
      ensures 0 <= tr[k].e
    {
      assert Reaches(tr, tr[k].e);
      LeafAccepted(code, x, t, pos, tr[k].e);
    }
    OutcomeReaches(tr, |t|);
    if MatchAt(code, x, t, pos) != -1 {
      LeafAccepted(code, x, t, pos, Outcome(tr, |t|));
      AcceptsBounds(code, t, Thread(0, pos), Outcome(tr, |t|));
    }
  }

  /** The starting places a search tries: from `startpos` towards `startpos + range`, inside the text. */
  predicate Tried(startpos: int, range: int, size: int, s: int) {
    0 <= s <= size && (if range >= 0 then startpos <= s <= startpos + range else startpos + range <= s <= startpos)
  }

  /** `s` is tried before `r`. */
  predicate Before(range: int, s: int, r: int) {
    if range >= 0 then s < r else s > r
  }

  /** None of the places tried before `r` is one where the pattern matches. */
  ghost predicate NoneBefore(code: seq<byte>, x: set<int>, t: seq<byte>, startpos: int, range: int, size: int, r: int)
    requires WfProgram(code, x) && Closed(code, x)
  {
    forall s :: Tried(startpos, range, size, s) && Before(range, s, r) ==> !Matches(code, x, t, s)
  }

  ghost predicate NoneTried(code: seq<byte>, x: set<int>, t: seq<byte>, startpos: int, range: int, size: int)
    requires WfProgram(code, x) && Closed(code, x)
  {
    forall s :: Tried(startpos, range, size, s) ==> !Matches(code, x, t, s)
  }

  /** What is left of the range, counted from the current place, ends where the whole range does, inside the text or at -1. */
  predicate Place(startpos: int, range: int, size: int, start: int, left: int) {
    && 0 <= start <= size
    && if range >= 0 then left >= 0 && startpos <= start && start + left == if startpos + range > size then size else startpos + range
       else left <= 0 && start <= startpos && start + left == if startpos + range < -1 then -1 else startpos + range
  }

  lemma NoneAt(code: seq<byte>, x: set<int>, t: seq<byte>, startpos: int, range: int, size: int, start: int)
    requires WfProgram(code, x) && Closed(code, x) && NoneBefore(code, x, t, startpos, range, size, start)
    requires !Matches(code, x, t, start)
    ensures NoneBefore(code, x, t, startpos, range, size, if range >= 0 then start + 1 else start - 1)
  {
    hide Matches, WfProgram, Closed;
  }

  lemma NoneLeft(code: seq<byte>, x: set<int>, t: seq<byte>, startpos: int, range: int, size: int, start: int, left: int)
    requires WfProgram(code, x) && Closed(code, x) && Place(startpos, range, size, start, left)
    requires NoneBefore(code, x, t, startpos, range, size, if range >= 0 then start + 1 else start - 1)
    requires left == 0 || (range < 0 && start == 0)
    ensures NoneTried(code, x, t, startpos, range, size)
  {
    hide Matches, WfProgram, Closed;
  }

  lemma PlaceTried(startpos: int, range: int, size: int, start: int, left: int)
    requires Place(startpos, range, size, start, left)
    ensures Tried(startpos, range, size, start)
    ensures left > 0 ==> range >= 0 && start + left <= size
    ensures left < 0 ==> range < 0
  {}

  lemma PlaceNext(startpos: int, range: int, size: int, start: int, left: int)
    requires Place(startpos, range, size, start, left)
    ensures left > 0 ==> Place(startpos, range, size, start + 1, left - 1)
    ensures left < 0 && start > 0 ==> Place(startpos, range, size, start - 1, left + 1)
  {}

  /** Search for the first place where the pattern matches: that place, -1 for none, -2 for lack of room. */
  method ReSearch2(bufp: PatternBuffer, text: seq<byte>, startpos: int, range: int, stop: nat, mem: Allocator) returns (r: int)
    requires bufp.Compiled() && stop <= |text| && !mem.failed
    requires forall s :: Tried(startpos, range, |text|, s) ==> s <= stop
    requires bufp.fastmap != null ==> bufp.fastmap.Length == 256
    requires bufp.fastmap != null && !bufp.fastmapAccurate ==> bufp.Scannable()
    requires bufp.fastmap != null && bufp.fastmapAccurate ==> FastmapRight(bufp.code, bufp.fastmap[..], bufp.canBeNull)
    modifies bufp`fastmapAccurate, bufp`canBeNull, bufp.buffer, mem, if bufp.fastmap == null then {} else {bufp.fastmap}
    ensures bufp.Compiled() && r >= -2 && (r == -2) == mem.failed
    ensures !(0 <= startpos <= |text|) ==> r == -1
    ensures 0 <= startpos <= |text| && r >= 0 ==>
            && Tried(startpos, range, |text|, r) && Matches(bufp.code, bufp.x, text[..stop], r)
            && NoneBefore(bufp.code, bufp.x, text[..stop], startpos, range, |text|, r)
    ensures 0 <= startpos <= |text| && r == -1 ==> NoneTried(bufp.code, bufp.x, text[..stop], startpos, range, |text|)
    ensures r != -2 && bufp.fastmap != null && bufp.fastmapAccurate ==> FastmapRight(bufp.code, bufp.fastmap[..], bufp.canBeNull)
  {
    hide WfProgram, Closed, Variant, MatchAt, FastmapRight, Matches, Known, NoneBefore, NoneTried, Place, Tried;
    var size := |text|;
    if startpos < 0 || startpos > size {
      return -1;
    }
    ghost var code, x, t := bufp.code, bufp.x, text[..stop];
    var left := range;
    if startpos + range < -1 {
      left := -1 - startpos;
    } else if startpos + range > size {
      left := size - startpos;
    }
    if bufp.fastmap != null && !bufp.fastmapAccurate {
      var ok := ReCompileFastmap(bufp, mem);
      if ok == -2 {
        return -2;
      }
      KnownRight(bufp.buffer[..bufp.used], code, x, bufp.fastmap[..], bufp.canBeNull);
    }
    FirstPlace(code, x, t, startpos, range, size, left);
    r := Loop(bufp, text, startpos, range, stop, left, mem);
  }

  lemma FirstPlace(code: seq<byte>, x: set<int>, t: seq<byte>, startpos: int, range: int, size: int, left: int)
    requires WfProgram(code, x) && Closed(code, x) && 0 <= startpos <= size
    requires left == if startpos + range < -1 then -1 - startpos else if startpos + range > size then size - startpos else range
    ensures Place(startpos, range, size, startpos, left) && NoneBefore(code, x, t, startpos, range, size, startpos)
  {
    hide Matches, WfProgram, Closed;
  }

  /** Skip characters the fastmap rules out, going forward. */
  method SkipForward(bufp: PatternBuffer, text: seq<byte>, startpos: int, range: int, stop: nat, from: int, count: int)
      returns (start: int, left: int)
    requires bufp.Compiled() && stop <= |text| && count > 0 && Place(startpos, range, |text|, from, count)
    requires bufp.fastmap != null && FastmapRight(bufp.code, bufp.fastmap[..], bufp.canBeNull) && !bufp.canBeNull
    requires NoneBefore(bufp.code, bufp.x, text[..stop], startpos, range, |text|, from)
    ensures Place(startpos, range, |text|, start, left) && 0 <= left <= count && start + left == from + count
    ensures NoneBefore(bufp.code, bufp.x, text[..stop], startpos, range, |text|, start)
  {
    hide WfProgram, Closed, Variant, MatchAt, FastmapRight, Matches, NoneBefore, Place, Tried;
    start, left := from, count;
    PlaceTried(startpos, range, |text|, start, left);
    MapLength(bufp.code, bufp.fastmap[..], bufp.canBeNull);
    while left > 0 && !bufp.fastmap[text[start]]
      invariant 0 <= left <= count && start + left == from + count && 0 <= start
      invariant Place(startpos, range, |text|, start, left)
      invariant NoneBefore(bufp.code, bufp.x, text[..stop], startpos, range, |text|, start)
      modifies {}
      decreases left
    {
      Unforeseen(bufp.code, bufp.x, text, stop, bufp.fastmap[..], bufp.canBeNull, start);
      NoneAt(bufp.code, bufp.x, text[..stop], startpos, range, |text|, start);
      PlaceNext(startpos, range, |text|, start, left);
      left, start := left - 1, start + 1;
    }
  }

  lemma MapLength(code: seq<byte>, fm: seq<bool>, canBeNull: bool)
    requires FastmapRight(code, fm, canBeNull)
    ensures |fm| == 256
  {}

  /** The search loop of `re_search_2`. */
  method Loop(bufp: PatternBuffer, text: seq<byte>, startpos: int, range: int, stop: nat, count: int, mem: Allocator) returns (r: int)
    requires bufp.Compiled() && stop <= |text| && !mem.failed
    requires forall s :: Tried(startpos, range, |text|, s) ==> s <= stop
    requires bufp.fastmap != null ==> FastmapRight(bufp.code, bufp.fastmap[..], bufp.canBeNull)
    requires Place(startpos, range, |text|, startpos, count)
    requires NoneBefore(bufp.code, bufp.x, text[..stop], startpos, range, |text|, startpos)
    modifies bufp.buffer, mem
    ensures bufp.Compiled() && r >= -2 && (r == -2) == mem.failed
    ensures r >= 0 ==>
            && Tried(startpos, range, |text|, r) && Matches(bufp.code, bufp.x, text[..stop], r)
            && NoneBefore(bufp.code, bufp.x, text[..stop], startpos, range, |text|, r)
    ensures r == -1 ==> NoneTried(bufp.code, bufp.x, text[..stop], startpos, range, |text|)
  {
    hide WfProgram, Closed, Variant, MatchAt, FastmapRight, Matches, NoneBefore, NoneTried, Place, Tried;
    var start, left := startpos, count;
    var useMap := bufp.fastmap != null && !bufp.canBeNull;
    PlaceTried(startpos, range, |text|, start, left);
    if bufp.fastmap != null {
      MapLength(bufp.code, bufp.fastmap[..], bufp.canBeNull);
    }
    ghost var t := text[..stop];
    ghost var fm := if bufp.fastmap == null then [] else bufp.fastmap[..];
    while true
      invariant bufp.Compiled() && 0 <= start <= |text| && bufp.code == old(bufp.code) && bufp.x == old(bufp.x) && !mem.failed
      invariant bufp.fastmap != null ==> bufp.fastmap[..] == fm
      invariant Place(startpos, range, |text|, start, left)
      invariant NoneBefore(bufp.code, bufp.x, t, startpos, range, |text|, start)
      modifies bufp.buffer, mem
      decreases if left >= 0 then left else -left
    {
      PlaceTried(startpos, range, |text|, start, left);
      var skip := false;
      if useMap && start < |text| {
        if left > 0 {
          start, left := SkipForward(bufp, text, startpos, range, stop, start, left);
          PlaceTried(startpos, range, |text|, start, left);
        } else if !bufp.fastmap[text[start]] {
          skip := true;
        }
      }
      if useMap && (skip || (left >= 0 && start == |text|)) {
        Unforeseen(bufp.code, bufp.x, text, stop, fm, bufp.canBeNull, start);
      }
      if left >= 0 && start == |text| && useMap {
        NoneAt(bufp.code, bufp.x, t, startpos, range, |text|, start);
        NoneFurther(bufp.code, bufp.x, t, startpos, range, |text|, start, left);
        return -1;
      }
      if !skip {
        var val := ReMatch2(bufp, text, start, stop, mem);
        EndAfterStart(bufp.code, bufp.x, t, start);
        MatchesIs(bufp.code, bufp.x, t, start);
        if val >= 0 {
          return start;
        }
        if val == -2 {
          return -2;
        }
      }
      NoneAt(bufp.code, bufp.x, t, startpos, range, |text|, start);
      if left == 0 || (left < 0 && start == 0) {
        NoneLeft(bufp.code, bufp.x, t, startpos, range, |text|, start, left);
        return -1;
      }
      PlaceNext(startpos, range, |text|, start, left);
      left, start := if left > 0 then left - 1 else left + 1, if left > 0 then start + 1 else start - 1;
    }
  }

  lemma NoneFurther(code: seq<byte>, x: set<int>, t: seq<byte>, startpos: int, range: int, size: int, start: int, left: int)
    requires WfProgram(code, x) && Closed(code, x) && Place(startpos, range, size, start, left)
    requires NoneBefore(code, x, t, startpos, range, size, if range >= 0 then start + 1 else start - 1)
    requires start == size && left >= 0
    ensures NoneTried(code, x, t, startpos, range, size)
  {
    hide Matches, WfProgram, Closed;
  }

  lemma MatchesIs(code: seq<byte>, x: set<int>, t: seq<byte>, pos: int)
    requires WfProgram(code, x) && Closed(code, x) && 0 <= pos <= |t|
    ensures Matches(code, x, t, pos) <==> MatchAt(code, x, t, pos) != -1
  {}

  /** The fastmap rules out the place `d`. */
  lemma Unforeseen(code: seq<byte>, x: set<int>, text: seq<byte>, stop: nat, fm: seq<bool>, canBeNull: bool, d: int)
    requires WfProgram(code, x) && Closed(code, x) && FastmapRight(code, fm, canBeNull) && !canBeNull && stop <= |text|
    requires |fm| == 256 && 0 <= d && (d >= |text| || !fm[text[d]])
    ensures !Matches(code, x, text[..stop], d)
  {
    if Matches(code, x, text[..stop], d) {
      hide Matches, WfProgram, Closed;
      MatchesForeseen(code, x, text[..stop], fm, canBeNull, d);
    }
  }
}
