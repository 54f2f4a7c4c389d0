/** A directory listing on the wire: `CfOpenDirectory` packs the names into buffers, `cf_ropendir` unpacks them. */
module Listing {
  import opened Bytes
  import opened Wrappers

  type Name = seq<byte>

  const CF_BUFSIZE := 4096
  const CF_MAXLINKSIZE := 256
  const SLASH: byte := '/' as int

  const CFD_TERMINATOR := "---cfXen/gine/cfXen/gine---"
  const BAD_REPLY := "BAD:"

  function Ascii(s: string): (b: seq<byte>)
    requires forall k :: 0 <= k < |s| ==> 0 < s[k] as int < 256
    ensures |b| == |s| && forall k :: 0 <= k < |s| ==> b[k] == s[k] as int
  {
    seq(|s|, k requires 0 <= k < |s| => (s[k] as int) as byte)
  }

  function Terminator(): (b: seq<byte>)
    ensures |b| == 27 && b[0] == 45 && b[8] == SLASH && forall k :: 0 <= k < |b| ==> b[k] != 0
  {
    Ascii(CFD_TERMINATOR)
  }

  function Bad(): (b: seq<byte>)
    ensures |b| == 4 && b[0] == 66 && forall k :: 0 <= k < |b| ==> b[k] != 0
  {
    Ascii(BAD_REPLY)
  }

  /** The names `readdir` returns. */
  predicate NameOk(n: Name) {
    1 <= |n| < CF_MAXLINKSIZE && forall k :: 0 <= k < |n| ==> n[k] != 0 && n[k] != SLASH
  }

  predicate NamesOk(names: seq<Name>) {
    forall k :: 0 <= k < |names| ==> NameOk(names[k])
  }

  /** Names one behind the other, each with its zero byte. */
  function Packed(names: seq<Name>): seq<byte> {
    if |names| == 0 then [] else Packed(names[..|names| - 1]) + names[|names| - 1] + [0]
  }

  lemma PackedSnoc(names: seq<Name>, n: Name)
    ensures Packed(names + [n]) == Packed(names) + n + [0]
  {
    assert (names + [n])[..|names|] == names;
  }

  /** How the names are spread over buffers when `current` is in the buffer already. */
  function Split(names: seq<Name>, current: seq<Name>): (chunks: seq<seq<Name>>)
    ensures |chunks| > 0
    decreases |names|
  {
    if |names| == 0 then [current]
    else if |names[0]| + 1 + |Packed(current)| >= CF_BUFSIZE - CF_MAXLINKSIZE then [current] + Split(names[1..], [names[0]])
    else Split(names[1..], current + [names[0]])
  }

  function Message(chunk: seq<Name>, last: bool): seq<byte> {
    Packed(chunk) + if last then Terminator() + [0, 0] else [0]
  }

  function Messages(chunks: seq<seq<Name>>): (msgs: seq<seq<byte>>)
    ensures |msgs| == |chunks|
    ensures forall k :: 0 <= k < |chunks| ==> msgs[k] == Message(chunks[k], k == |chunks| - 1)
  {
    seq(|chunks|, k requires 0 <= k < |chunks| => Message(chunks[k], k == |chunks| - 1))
  }

  function Flat(chunks: seq<seq<Name>>): seq<Name> {
    if |chunks| == 0 then [] else chunks[0] + Flat(chunks[1..])
  }

  /** No name is lost, repeated or moved. */
  lemma {:induction false} SplitFlat(names: seq<Name>, current: seq<Name>)
    ensures Flat(Split(names, current)) == current + names
    decreases |names|
  {
    hide Packed;
    if |names| == 0 {
      assert [current][1..] == [] && Flat([]) == [];
    } else if |names[0]| + 1 + |Packed(current)| >= CF_BUFSIZE - CF_MAXLINKSIZE {
      SplitFlat(names[1..], [names[0]]);
      assert ([current] + Split(names[1..], [names[0]]))[1..] == Split(names[1..], [names[0]]);
      assert [names[0]] + names[1..] == names;
    } else {
      SplitFlat(names[1..], current + [names[0]]);
      assert current + [names[0]] + names[1..] == current + names;
    }
  }

  /** What can be in one buffer. */
  predicate ChunkOk(chunk: seq<Name>) {
    NamesOk(chunk) && |Packed(chunk)| < CF_BUFSIZE - CF_MAXLINKSIZE
  }

  lemma {:induction false} SplitOk(names: seq<Name>, current: seq<Name>)
    requires NamesOk(names) && ChunkOk(current)
    ensures forall k :: 0 <= k < |Split(names, current)| ==> ChunkOk(Split(names, current)[k])
    decreases |names|
  {
    hide Packed;
    if |names| > 0 {
      var n := names[0];
      if |n| + 1 + |Packed(current)| >= CF_BUFSIZE - CF_MAXLINKSIZE {
        PackedSnoc([], n);
        assert [] + [n] == [n] && Packed([]) == [] by { NothingPacked(); }
        SplitOk(names[1..], [n]);
      } else {
        PackedSnoc(current, n);
        SplitOk(names[1..], current + [n]);
      }
    }
  }

  lemma NothingPacked()
    ensures Packed([]) == []
  {}

  /** The bytes that names take, each with its zero byte. */
  function Room(names: seq<Name>): nat {
    if |names| == 0 then 0 else |names[0]| + 1 + Room(names[1..])
  }

  lemma {:induction false} RoomSnoc(names: seq<Name>, n: Name)
    ensures Room(names + [n]) == Room(names) + |n| + 1
  {
    if |names| > 0 {
      assert (names + [n])[1..] == names[1..] + [n];
      RoomSnoc(names[1..], n);
    } else {
      assert names + [n] == [n] && [n][1..] == [];
    }
  }

  lemma {:induction false} PackedRoom(names: seq<Name>)
    ensures |Packed(names)| == Room(names)
  {
    if |names| > 0 {
      var init := names[..|names| - 1];
      PackedRoom(init);
      RoomSnoc(init, names[|names| - 1]);
      assert init + [names[|names| - 1]] == names;
    }
  }

  /** The first name of the next buffer would have left less than the room of a longest name in this one. */
  predicate Filled(chunk: seq<Name>, next: seq<Name>) {
    |next| > 0 && Room(chunk) + |next[0]| + 1 >= 4096 - 256
  }

  predicate AllFilled(chunks: seq<seq<Name>>) {
    |chunks| <= 1 || (Filled(chunks[0], chunks[1]) && AllFilled(chunks[1..]))
  }

  /** A buffer is sent only when the next name does not fit. */
  lemma {:induction false} SplitFull(names: seq<Name>, current: seq<Name>)
    ensures AllFilled(Split(names, current)) && current <= Split(names, current)[0]
    decreases |names|
  {
    hide Packed, Room;
    if |names| > 0 {
      var n := names[0];
      PackedRoom(current);
      if |n| + 1 + |Packed(current)| >= CF_BUFSIZE - CF_MAXLINKSIZE {
        SplitFull(names[1..], [n]);
        var rest := Split(names[1..], [n]);
        assert [n][0] == rest[0][0];
        assert ([current] + rest)[1..] == rest;
      } else {
        SplitFull(names[1..], current + [n]);
        assert current <= current + [n];
      }
    }
  }

  // ---- the server ----

  /** `strncpy` of a name: the rest of the field is filled with zeros. */
  method CopyName(buf: array<byte>, offset: nat, n: Name)
    requires |n| < CF_MAXLINKSIZE && offset + CF_MAXLINKSIZE <= buf.Length
    requires forall k :: offset <= k < buf.Length ==> buf[k] == 0
    modifies buf
    ensures buf[..offset] == old(buf[..offset]) && buf[offset..offset + |n|] == n
    ensures forall k :: offset + |n| <= k < buf.Length ==> buf[k] == 0
  {
    for i := 0 to CF_MAXLINKSIZE
      invariant forall k :: 0 <= k < buf.Length && !(offset <= k < offset + i) ==> buf[k] == old(buf[k])
      invariant forall k :: offset <= k < offset + i ==> buf[k] == if k - offset < |n| then n[k - offset] else 0
    {
      buf[offset + i] := if i < |n| then n[i] else 0;
    }
  }

  /** `memset`. */
  method Clear(buf: array<byte>)
    modifies buf
    ensures forall k :: 0 <= k < buf.Length ==> buf[k] == 0
  {
    for i := 0 to buf.Length
      invariant forall k :: 0 <= k < i ==> buf[k] == 0
    {
      buf[i] := 0;
    }
  }

  /** The end of the listing behind the names in the buffer. */
  method PutTerminator(buf: array<byte>, offset: nat)
    requires offset + 29 <= buf.Length && forall k :: offset <= k < buf.Length ==> buf[k] == 0
    modifies buf
    ensures buf[..offset + 29] == old(buf[..offset]) + Terminator() + [0, 0]
  {
    hide Terminator;
    for i := 0 to 27
      invariant forall k :: 0 <= k < buf.Length && !(offset <= k < offset + i) ==> buf[k] == old(buf[k])
      invariant forall k :: offset <= k < offset + i ==> buf[k] == Terminator()[k - offset]
    {
      buf[offset + i] := Terminator()[i];
    }
    assert buf[offset..offset + 27] == Terminator();
    assert buf[offset + 27..offset + 29] == [0, 0];
    assert buf[..offset + 29] == buf[..offset] + buf[offset..offset + 27] + buf[offset + 27..offset + 29];
  }

  lemma {:induction false} SendBytes(buf: seq<byte>, current: seq<Name>)
    requires |Packed(current)| < |buf| && buf[..|Packed(current)|] == Packed(current) && buf[|Packed(current)|] == 0
    ensures buf[..|Packed(current)| + 1] == Message(current, false)
  {
    hide Packed;
  }

  lemma SplitStep(names: seq<Name>, current: seq<Name>)
    requires |names| > 0
    ensures Split(names, current) ==
            if |names[0]| + 1 + |Packed(current)| >= CF_BUFSIZE - CF_MAXLINKSIZE then [current] + Split(names[1..], [names[0]])
            else Split(names[1..], current + [names[0]])
  {
    hide Packed;
  }

  lemma SplitEnd(current: seq<Name>)
    ensures Split([], current) == [current]
  {}

  /** The packing loop of `CfOpenDirectory`: every message sent, in order. */
  method Pack(names: seq<Name>, sendbuffer: array<byte>) returns (msgs: seq<seq<byte>>)
    requires NamesOk(names) && sendbuffer.Length == CF_BUFSIZE
    modifies sendbuffer
    ensures msgs == Messages(Split(names, []))
  {
    hide Packed, Split, Messages, Message, Terminator;
    Clear(sendbuffer);
    var offset := 0;
    msgs := [];
    ghost var current: seq<Name>, sent: seq<seq<Name>> := [], [];
    NothingPacked();
    assert names[0..] == names && [] + Split(names, []) == Split(names, []);
    for i := 0 to |names|
      invariant offset == |Packed(current)| < CF_BUFSIZE - CF_MAXLINKSIZE && sendbuffer[..offset] == Packed(current)
      invariant forall k :: offset <= k < CF_BUFSIZE ==> sendbuffer[k] == 0
      invariant |msgs| == |sent| && forall k :: 0 <= k < |sent| ==> msgs[k] == Message(sent[k], false)
      invariant Split(names, []) == sent + Split(names[i..], current)
    {
      var n := names[i];
      SplitStep(names[i..], current);
      assert names[i..][1..] == names[i + 1..];
      if |n| + 1 + offset >= CF_BUFSIZE - CF_MAXLINKSIZE {
        SendBytes(sendbuffer[..], current);
        assert sendbuffer[..offset + 1] == sendbuffer[..][..offset + 1];
        msgs := msgs + [sendbuffer[..offset + 1]];
        assert sent + ([current] + Split(names[i + 1..], [n])) == sent + [current] + Split(names[i + 1..], [n]);
        sent, current := sent + [current], [];
        offset := 0;
        Clear(sendbuffer);
      }
      PackedSnoc(current, n);
      assert current == [] ==> current + [n] == [n];
      CopyName(sendbuffer, offset, n);
      assert sendbuffer[..offset + |n| + 1] == sendbuffer[..offset] + sendbuffer[offset..offset + |n|] + [0];
      current := current + [n];
      offset := offset + |n| + 1;
    }
    PutTerminator(sendbuffer, offset);
    SplitEnd(current);
    assert names[|names|..] == [];
    LastMessage(current);
    msgs := msgs + [sendbuffer[..offset + 2 + |Terminator()|]];
    AllMessages(sent, current, msgs);
  }

  lemma LastMessage(current: seq<Name>)
    ensures Message(current, true) == Packed(current) + Terminator() + [0, 0]
  {
    hide Packed, Terminator;
    assert Packed(current) + (Terminator() + [0, 0]) == Packed(current) + Terminator() + [0, 0];
  }

  lemma AllMessages(sent: seq<seq<Name>>, current: seq<Name>, msgs: seq<seq<byte>>)
    requires |msgs| == |sent| + 1 && (forall k :: 0 <= k < |sent| ==> msgs[k] == Message(sent[k], false))
    requires msgs[|sent|] == Message(current, true)
    ensures msgs == Messages(sent + [current])
  {
    hide Message;
  }

  // ---- the client ----

  /** `strncmp` with a constant. */
  predicate StartsWith(buf: seq<byte>, at: nat, s: seq<byte>) {
    at + |s| <= |buf| && buf[at..at + |s|] == s
  }

  /** A reply that begins like this is an error message. */
  predicate Refused(chunk: seq<Name>) {
    |chunk| > 0 && StartsWith(chunk[0], 0, Bad())
  }

  /** Names from `at` on in a buffer. */
  predicate NamesAt(buf: seq<byte>, at: nat, names: seq<Name>) {
    at + |Packed(names)| <= |buf| && buf[at..at + |Packed(names)|] == Packed(names)
  }

  lemma {:induction false} PackedCons(names: seq<Name>)
    requires |names| > 0
    ensures Packed(names) == names[0] + [0] + Packed(names[1..])
  {
    if |names| == 1 {
      NothingPacked();
      assert names[..0] == [];
    } else {
      var init := names[..|names| - 1];
      PackedCons(init);
      assert init[1..] == names[1..][..|names| - 2];
      assert Packed(names[1..]) == Packed(init[1..]) + names[|names| - 1] + [0];
    }
  }

  /** The bytes of the first of several names. */
  lemma FirstName(buf: seq<byte>, at: nat, names: seq<Name>)
    requires NamesAt(buf, at, names) && |names| > 0 && NameOk(names[0])
    ensures var n := names[0];
            && at + |n| < |buf| && buf[at..at + |n|] == n && buf[at + |n|] == 0
            && (forall k :: at <= k < at + |n| ==> buf[k] != 0)
            && NamesAt(buf, at + |n| + 1, names[1..]) && !StartsWith(buf, at, Terminator())
  {
    hide Packed, Terminator;
    PackedCons(names);
    var n := names[0];
    var s := buf[at..at + |Packed(names)|];
    assert s[..|n|] == n && s[|n|] == 0;
    assert forall k :: 0 <= k < |n| ==> buf[at + k] == s[k] == n[k];
    assert buf[at + |n| + 1..at + |Packed(names)|] == s[|n| + 1..];
    StartsBytes(buf, at, Terminator());
    assert |n| > 8 ==> buf[at + 8] == n[8];
  }

  lemma StartsBytes(buf: seq<byte>, at: nat, s: seq<byte>)
    ensures StartsWith(buf, at, s) ==> at + |s| <= |buf| && forall k :: at <= k < at + |s| ==> buf[k] == s[k - at]
  {
    if StartsWith(buf, at, s) {
      assert forall k :: at <= k < at + |s| ==> buf[k] == buf[at..at + |s|][k - at];
    }
  }

  /** Read the names of one buffer; `ended` when the terminator was found. */
  method ReadNames(buf: array<byte>, ghost names: seq<Name>, ghost last: bool) returns (items: seq<Name>, ended: bool)
    requires NamesOk(names) && |Message(names, last)| <= buf.Length && buf[..|Message(names, last)|] == Message(names, last)
    ensures items == names && ended == last
  {
    hide Packed, StartsWith, NamesAt, Terminator, Message;
    items, ended := [], false;
    var sp := 0;
    MessageAt(buf[..], names, last);
    ghost var k := 0;
    ghost var end := |Packed(names)|;
    while buf[sp] != 0
      invariant 0 <= k <= |names| && items == names[..k] && sp <= end < buf.Length
      invariant NamesAt(buf[..], sp, names[k..]) && sp + |Packed(names[k..])| == end
      invariant if last then StartsWith(buf[..], end, Terminator()) else buf[end] == 0
      decreases |names| - k
    {
      if k == |names| {
        NothingPacked();
        TerminatorHere(buf[..], sp);
      } else {
        FirstName(buf[..], sp, names[k..]);
        PackedCons(names[k..]);
      }
      if sp + 27 <= buf.Length && buf[sp..sp + 27] == Terminator() {
        HereIs(buf[..], sp);
        return items, true;
      }
      TerminatorNot(buf[..], sp);
      ghost var n := names[k];
      var start := sp;
      while buf[sp] != 0
        invariant start <= sp <= start + |n| < buf.Length
        decreases start + |n| - sp
      {
        sp := sp + 1;
      }
      items := items + [buf[start..sp]];
      assert buf[start..sp] == buf[..][start..start + |n|];
      assert names[k..][1..] == names[k + 1..] && names[..k] + [n] == names[..k + 1];
      sp := sp + 1;
      k := k + 1;
    }
    if k < |names| {
      FirstName(buf[..], sp, names[k..]);
      assert false;
    }
    NothingPacked();
    TerminatorHere(buf[..], sp);
  }

  lemma TerminatorHere(buf: seq<byte>, at: nat)
    ensures StartsWith(buf, at, Terminator()) ==> at < |buf| && buf[at] != 0
  {
    hide Terminator;
    if StartsWith(buf, at, Terminator()) {
      assert buf[at] == buf[at..at + 27][0];
    }
  }

  lemma HereIs(buf: seq<byte>, at: nat)
    requires at + 27 <= |buf| && buf[at..at + 27] == Terminator()
    ensures StartsWith(buf, at, Terminator())
  {
    hide Terminator;
  }

  lemma TerminatorNot(buf: seq<byte>, at: nat)
    requires !(at + 27 <= |buf| && buf[at..at + 27] == Terminator())
    ensures !StartsWith(buf, at, Terminator())
  {
    hide Terminator;
  }

  lemma MessageAt(buf: seq<byte>, names: seq<Name>, last: bool)
    requires |Message(names, last)| <= |buf| && buf[..|Message(names, last)|] == Message(names, last)
    ensures var end := |Packed(names)|;
            && end < |buf| && NamesAt(buf, 0, names)
            && if last then StartsWith(buf, end, Terminator()) else buf[end] == 0
  {
    hide Packed, Terminator;
    var m := Message(names, last);
    var end := |Packed(names)|;
    assert buf[..end] == m[..end] == Packed(names);
    assert buf[end] == m[end];
    if last {
      assert buf[..|m|][end..end + 27] == buf[end..end + 27];
      assert m[end..end + 27] == Terminator();
    }
  }

  /** `BadProtoReply`: a message begins like an error exactly when its first name does. */
  lemma RefusedMessage(names: seq<Name>, last: bool)
    requires NamesOk(names)
    ensures StartsWith(Message(names, last), 0, Bad()) <==> Refused(names)
  {
    hide Terminator, Bad;
    var m := Message(names, last);
    var bad := Bad();
    if |names| > 0 {
      PackedCons(names);
      hide Packed;
      var n := names[0];
      assert m[..|n|] == n && m[|n|] == 0;
      if StartsWith(m, 0, bad) {
        assert forall k :: 0 <= k < 4 ==> m[k] == m[0..4][k];
        assert |n| >= 4;
        assert n[0..4] == m[0..4];
      }
      if Refused(names) {
        assert m[0..4] == n[0..4];
      }
    } else {
      NothingPacked();
      hide Packed;
      assert m[0] == if last then Terminator()[0] else 0;
      assert |m| >= 4 ==> m[0..4][0] == m[0];
    }
  }

  predicate SomeRefused(chunks: seq<seq<Name>>) {
    exists k :: 0 <= k < |chunks| && Refused(chunks[k])
  }

  /** The receiving loop of `cf_ropendir`: the names, or nothing when a reply looks like an error.  The buffer keeps
      what earlier transactions left behind a shorter message. */
  method Unpack(msgs: seq<seq<byte>>, recvbuffer: array<byte>, ghost chunks: seq<seq<Name>>) returns (r: Option<seq<Name>>)
    requires recvbuffer.Length == CF_BUFSIZE
    requires |chunks| > 0 && msgs == Messages(chunks) && forall k :: 0 <= k < |chunks| ==> ChunkOk(chunks[k])
    modifies recvbuffer
    ensures r == if SomeRefused(chunks) then None else Some(Flat(chunks))
  {
    hide Packed, Message, Refused, StartsWith, Bad, Messages, Flat;
    var list: seq<Name> := [];
    var i := 0;
    assert chunks[0..] == chunks && list + Flat(chunks) == Flat(chunks);
    while i < |msgs|
      invariant 0 <= i <= |msgs| && list + Flat(chunks[i..]) == Flat(chunks)
      invariant forall k :: 0 <= k < i ==> !Refused(chunks[k])
      invariant i == |msgs| ==> |chunks| == 0
    {
      var m := msgs[i];
      ghost var last := i == |chunks| - 1;
      assert ChunkOk(chunks[i]);
      MessageLength(chunks[i], last);
      for j := 0 to |m|
        invariant forall k :: 0 <= k < j ==> recvbuffer[k] == m[k]
        modifies recvbuffer
      {
        recvbuffer[j] := m[j];
      }
      assert recvbuffer[..|m|] == m;
      RefusedMessage(chunks[i], last);
      RefusedBuffer(recvbuffer[..], m);
      if recvbuffer[..4] == Bad() {
        return None;
      }
      var items, ended := ReadNames(recvbuffer, chunks[i], last);
      list := list + items;
      assert chunks[i..][0] == chunks[i] && chunks[i..][1..] == chunks[i + 1..];
      FlatCons(chunks[i..]);
      assert list + Flat(chunks[i + 1..]) == Flat(chunks);
      if ended {
        assert chunks[i + 1..] == [];
        NothingFlat();
        assert list + [] == list;
        assert i == |chunks| - 1;
        return Some(list);
      }
      i := i + 1;
    }
    r := Some(list);
  }

  lemma FlatCons(chunks: seq<seq<Name>>)
    requires |chunks| > 0
    ensures Flat(chunks) == chunks[0] + Flat(chunks[1..])
  {}

  lemma NothingFlat()
    ensures Flat([]) == []
  {}

  lemma MessageLength(chunk: seq<Name>, last: bool)
    requires ChunkOk(chunk)
    ensures 0 < |Message(chunk, last)| <= CF_BUFSIZE - 8 && NamesOk(chunk) && Message(chunk, last)[|Message(chunk, last)| - 1] == 0
  {
    hide Packed, Terminator;
  }

  lemma RefusedBuffer(buf: seq<byte>, m: seq<byte>)
    requires 0 < |m| <= |buf| && |buf| >= 4 && buf[..|m|] == m && m[|m| - 1] == 0
    ensures buf[..4] == Bad() <==> StartsWith(m, 0, Bad())
  {
    hide Bad;
    var bad := Bad();
    if |m| >= 4 {
      assert m[0..4] == buf[..4];
    } else {
      assert buf[|m| - 1] == m[|m| - 1];
      assert buf[..4][|m| - 1] == 0;
    }
  }

  /** A listing arrives as it was sent, whatever the client's buffer held before, exactly when no buffer starts
      with a name that looks like an error message. */
  method RoundTrip(names: seq<Name>, sendbuffer: array<byte>, recvbuffer: array<byte>) returns (r: Option<seq<Name>>)
    requires NamesOk(names) && sendbuffer.Length == CF_BUFSIZE == recvbuffer.Length && sendbuffer != recvbuffer
    modifies sendbuffer, recvbuffer
    ensures r == Some(names) <==> !SomeRefused(Split(names, []))
    ensures SomeRefused(Split(names, [])) ==> r == None
  {
    hide Packed, Split, Messages;
    var msgs := Pack(names, sendbuffer);
    NothingPacked();
    SplitOk(names, []);
    SplitFlat(names, []);
    assert [] + names == names;
    r := Unpack(msgs, recvbuffer, Split(names, []));
  }

  /** A directory whose only file is called `BAD:x` is taken for an error message. */
  lemma BadName()
    ensures NamesOk([Ascii("BAD:x")]) && SomeRefused(Split([Ascii("BAD:x")], []))
  {
    hide Split, Packed;
    var name := Ascii("BAD:x");
    var none: seq<Name> := [];
    NothingPacked();
    assert Split([name], []) == [[name]] by {
      assert [name][1..] == none && none + [name] == [name];
      SplitStep([name], []);
      SplitEnd([name]);
    }
    assert Refused([name]) by {
      assert name[0..4] == Bad();
    }
    assert Refused(Split([name], [])[0]);
    assert NameOk(name);
  }
}
