/** Reading a byte stream from a message socket (read_sockf of server/zmq_netw.c). */
module Stream {
  import opened Bytes
  import opened Sums

  type Message = seq<Byte>

  const SIZE_MAX := 0xFFFF_FFFF_FFFF_FFFF

  /** struct tempbuf_t: what an earlier read left of a message, and how much of it is used up. */
  datatype Tempbuf = NoBuffer | Buffer(buf: Message, pos: nat)

  /** The bytes read, or a wait for a message that never comes. */
  datatype ReadResult = Got(bytes: nat) | Waits

  function Concat(messages: seq<Message>): seq<Byte> {
    if messages == [] then [] else messages[0] + Concat(messages[1..])
  }

  lemma {:induction false} ConcatAppend(a: seq<Message>, b: seq<Message>)
    ensures Concat(a + b) == Concat(a) + Concat(b)
  {
    if a == [] {
      assert a + b == b;
    } else {
      assert (a + b)[1..] == a[1..] + b;
      ConcatAppend(a[1..], b);
    }
  }

  /** The receive loop wants `want` bytes but compares them with a sum that still includes the
      `had` bytes taken from the buffer before. This is the first message that ends it. */
  function EndsAt(had: nat, want: nat, messages: seq<Message>): (k: nat)
    ensures k <= |messages|
    ensures k < |messages| ==> had + Min(|messages[k]|, want) >= want
    ensures forall i :: 0 <= i < k ==> had + |messages[i]| < want
  {
    if messages == [] || had + Min(|messages[0]|, want) >= want then 0
    else 1 + EndsAt(had, want, messages[1..])
  }

  method CopyBytes(dst: array<Byte>, offset: nat, src: Message)
    requires offset + |src| <= dst.Length
    modifies dst
    ensures dst[offset..offset + |src|] == src
    ensures forall k :: 0 <= k < dst.Length && !(offset <= k < offset + |src|) ==> dst[k] == old(dst[k])
  {
    for i := 0 to |src|
      invariant dst[offset..offset + i] == src[..i]
      invariant forall k :: 0 <= k < dst.Length && !(offset <= k < offset + |src|) ==> dst[k] == old(dst[k])
    {
      dst[offset + i] := src[i];
    }
  }

  /** struct sock_file_t, with the messages that wait at its socket. */
  class SockFile {
    var tempbuf: Tempbuf
    var incoming: seq<Message>

    constructor (messages: seq<Message>)
      ensures tempbuf == NoBuffer && incoming == messages
    {
      tempbuf := NoBuffer;
      incoming := messages;
    }

    /** A held buffer is never used up. */
    ghost predicate Valid()
      reads this
    {
      tempbuf.Buffer? ==> tempbuf.pos < |tempbuf.buf|
    }

    ghost function Unread(): seq<Byte>
      requires Valid()
      reads this
    {
      if tempbuf.Buffer? then tempbuf.buf[tempbuf.pos..] else []
    }

    ghost function Model(): Reader
      requires Valid()
      reads this
    {
      Reader(Unread(), incoming)
    }

    /** Takes what is buffered, up to count bytes. */
    method ReadTempbuf(buf: array<Byte>, offset: nat, count: nat) returns (bytesRead: nat)
      requires Valid() && offset + count <= buf.Length && count > 0
      modifies this`tempbuf, buf
      ensures Valid() && bytesRead == Min(|old(Unread())|, count)
      ensures buf[offset..offset + bytesRead] + Unread() == old(Unread())
      ensures forall k :: 0 <= k < buf.Length && !(offset <= k < offset + count) ==> buf[k] == old(buf[k])
      ensures bytesRead < count ==> tempbuf == NoBuffer
    {
      bytesRead := 0;
      ghost var unread := Unread();
      if tempbuf.Buffer? {
        bytesRead := Min(|tempbuf.buf| - tempbuf.pos, count);
        var taken := tempbuf.buf[tempbuf.pos..tempbuf.pos + bytesRead];
        assert taken == unread[..bytesRead] && tempbuf.buf[tempbuf.pos + bytesRead..] == unread[bytesRead..];
        CopyBytes(buf, offset, taken);
        tempbuf := tempbuf.(pos := tempbuf.pos + bytesRead);
        if |tempbuf.buf| <= tempbuf.pos {
          tempbuf := NoBuffer;
        }
        assert Unread() == unread[bytesRead..];
      }
    }

    /** zmq_recv in a loop. Every pass writes to the same place in buf, so only the last message
        survives. */
    method ReceiveLoop(buf: array<Byte>, offset: nat, had: nat, want: nat) returns (result: ReadResult)
      requires tempbuf == NoBuffer && offset + want <= buf.Length && want > 0
      modifies this, buf
      ensures Valid()
      ensures var k := EndsAt(had, want, old(incoming));
        if k == |old(incoming)| then result == Waits
        else result == Got(Min(|old(incoming)[k]|, want)) && incoming == old(incoming)[k + 1..]
             && buf[offset..offset + result.bytes] + Unread() == old(incoming)[k]
      ensures forall k :: 0 <= k < buf.Length && !(offset <= k < offset + want) ==> buf[k] == old(buf[k])
    {
      hide EndsAt;
      ghost var messages := incoming;
      ghost var passes := 0;
      while true
        invariant tempbuf == NoBuffer && passes <= |messages| && incoming == messages[passes..]
        invariant EndsAt(had, want, messages) == passes + EndsAt(had, want, messages[passes..])
        invariant forall k :: 0 <= k < buf.Length && !(offset <= k < offset + want) ==> buf[k] == old(buf[k])
        decreases |incoming|
      {
        EndsAtStep(had, want, messages[passes..]);
        if incoming == [] { return Waits; }
        var msg := incoming[0];
        incoming := incoming[1..];
        var bytes := Min(|msg|, want);
        CopyBytes(buf, offset, msg[..bytes]);
        if bytes < |msg| {
          tempbuf := Buffer(msg[bytes..], 0);
        }
        if !(had + bytes < want) {
          assert messages[passes] == msg && Unread() == msg[bytes..];
          return Got(bytes);
        }
        assert messages[passes..][1..] == messages[passes + 1..];
        passes := passes + 1;
      }
    }

    /** The rest of a read, when the buffered bytes did not suffice and buf holds them. */
    method ReadFromSocket(buf: array<Byte>, offset: nat, had: nat, count: nat, ghost taken: seq<Byte>)
        returns (result: ReadResult)
      requires tempbuf == NoBuffer && offset + count <= buf.Length && |taken| == had < count
      requires buf[offset..offset + had] == taken
      modifies this, buf
      ensures Valid() && result == ReadOutcome(had, count, old(incoming))
      ensures result.Got? ==> had <= result.bytes <= count
      ensures result.Got? ==>
        Continues(taken, count, old(incoming), buf[offset..offset + result.bytes], Unread(), incoming)
      ensures forall k :: 0 <= k < buf.Length && !(offset <= k < offset + count) ==> buf[k] == old(buf[k])
    {
      hide EndsAt, Consumed, ReadOutcome, Continues, LastOf;
      ghost var messages := incoming;
      OutcomeOfLoop(had, count, messages);
      var received := ReceiveLoop(buf, offset + had, had, count - had);
      if received.Waits? { return Waits; }
      result := Got(had + received.bytes);
      ghost var arrived := buf[offset + had..offset + had + received.bytes];
      assert buf[offset..offset + had] == taken;
      ContinuesAfterLoop(taken, count, messages, arrived, Unread(), incoming);
      JoinSlices(buf, offset, offset + had, offset + result.bytes);
    }

    /** read_sockf. */
    method ReadSockf(buf: array<Byte>, offset: nat, count: nat) returns (result: ReadResult)
      requires Valid() && offset + count <= buf.Length
      modifies this, buf
      ensures Valid()
      ensures count == SIZE_MAX ==>
        result == Got(0) && incoming == old(incoming) && tempbuf == old(tempbuf) && buf[..] == old(buf[..])
      ensures count != SIZE_MAX ==> result == ReadOutcome(|old(Unread())|, count, old(incoming))
      ensures count != SIZE_MAX && result.Got? ==> result.bytes <= count
      ensures count != SIZE_MAX && result.Got? ==>
        ReadStep(old(Model()), count, buf[offset..offset + result.bytes], Model())
      ensures forall k :: 0 <= k < buf.Length && !(offset <= k < offset + count) ==> buf[k] == old(buf[k])
    {
      hide EndsAt, Consumed, ReadOutcome, Continues, LastOf, Pending, Concat;
      ghost var unread, messages := Unread(), incoming;
      BufferSuffices(unread, count, messages);
      if count == 0 || count == SIZE_MAX {
        assert buf[offset..offset] == [];
        return Got(0);
      }
      var bytesRead := ReadTempbuf(buf, offset, count);
      if bytesRead == count {
        ContinuesFromBuffer(unread, count, messages, buf[offset..offset + count], Unread());
        return Got(count);
      }
      assert unread == buf[offset..offset + bytesRead];
      result := ReadFromSocket(buf, offset, bytesRead, count, unread);
    }
  }

  lemma JoinSlices(a: array<Byte>, i: nat, j: nat, k: nat)
    requires i <= j <= k <= a.Length
    ensures a[i..k] == a[i..j] + a[j..k]
  {
  }

  /** Whether the loop ends on the first message that waits. */
  lemma EndsAtStep(had: nat, want: nat, messages: seq<Message>)
    ensures messages == [] ==> EndsAt(had, want, messages) == 0
    ensures messages != [] ==>
      EndsAt(had, want, messages) ==
        (if had + Min(|messages[0]|, want) >= want then 0 else 1 + EndsAt(had, want, messages[1..]))
  {
  }

  lemma OutcomeOfLoop(had: nat, count: nat, messages: seq<Message>)
    requires had < count
    ensures var k := EndsAt(had, count - had, messages);
      ReadOutcome(had, count, messages) ==
        if k == |messages| then Waits else Got(had + Min(|messages[k]|, count - had))
  {
  }

  lemma ContinuesAfterLoop(taken: seq<Byte>, count: nat, messages: seq<Message>,
      arrived: seq<Byte>, unread': seq<Byte>, messages': seq<Message>)
    requires |taken| < count
    requires var k := EndsAt(|taken|, count - |taken|, messages);
      k < |messages| && arrived + unread' == messages[k] && messages' == messages[k + 1..]
    ensures Continues(taken, count, messages, taken + arrived, unread', messages')
  {
    assert taken + arrived + unread' == taken + (arrived + unread');
  }

  lemma BufferSuffices(unread: seq<Byte>, count: nat, messages: seq<Message>)
    ensures |unread| >= count ==> ReadOutcome(|unread|, count, messages) == Got(count)
    ensures count == 0 ==> Continues(unread, count, messages, [], unread, messages)
  {
  }

  lemma ContinuesFromBuffer(unread: seq<Byte>, count: nat, messages: seq<Message>,
      returned: seq<Byte>, unread': seq<Byte>)
    requires |unread| >= count && returned + unread' == unread
    ensures Continues(unread, count, messages, returned, unread', messages)
  {
  }

  // ----- what a read does to the stream -----

  /** How many messages a read of count bytes receives when `unread` bytes are buffered. */
  function Consumed(unread: nat, count: nat, messages: seq<Message>): (n: nat)
    ensures n <= |messages|
  {
    if unread >= count then 0 else Min(EndsAt(unread, count - unread, messages) + 1, |messages|)
  }

  function ReadOutcome(unread: nat, count: nat, messages: seq<Message>): ReadResult {
    if unread >= count then Got(count)
    else
      var k := EndsAt(unread, count - unread, messages);
      if k == |messages| then Waits else Got(unread + Min(|messages[k]|, count - unread))
  }

  /** What a read leaves behind: of the messages it received only the last one has reached the
      caller's buffer or the temporary one. */
  ghost predicate Continues(unread: seq<Byte>, count: nat, messages: seq<Message>,
      returned: seq<Byte>, unread': seq<Byte>, messages': seq<Message>)
  {
    && messages' == messages[Consumed(|unread|, count, messages)..]
    && returned + unread' == unread + LastOf(messages[..Consumed(|unread|, count, messages)])
  }

  /** What a reader can still get: the rest of a message, and the messages behind it. */
  datatype Reader = Reader(unread: seq<Byte>, messages: seq<Message>)

  ghost function Pending(r: Reader): seq<Byte> {
    r.unread + Concat(r.messages)
  }

  /** A read of count bytes that comes back. */
  ghost predicate ReadStep(r: Reader, count: nat, returned: seq<Byte>, r': Reader) {
    && ReadOutcome(|r.unread|, count, r.messages) == Got(|returned|)
    && Continues(r.unread, count, r.messages, returned, r'.unread, r'.messages)
  }

  /** Only the last received message reaches the caller or the buffer. */
  function LastOf(received: seq<Message>): Message {
    if received == [] then [] else received[|received| - 1]
  }

  /** The stream loses nothing in a read exactly if the receive loop ends on its first message,
      or only empty messages came before the one that ended it. */
  lemma ReadKeepsStream(unread: seq<Byte>, count: nat, messages: seq<Message>,
      returned: seq<Byte>, unread': seq<Byte>, messages': seq<Message>)
    requires Continues(unread, count, messages, returned, unread', messages')
    ensures var n := Consumed(|unread|, count, messages);
      returned + (unread' + Concat(messages')) == unread + Concat(messages)
      <==> forall i :: 0 <= i < n - 1 ==> messages[i] == []
    ensures |returned + (unread' + Concat(messages'))| <= |unread + Concat(messages)|
    ensures |returned + (unread' + Concat(messages'))| == |unread + Concat(messages)| ==>
      returned + (unread' + Concat(messages')) == unread + Concat(messages)
  {
    hide EndsAt, Consumed, Concat;
    var n := Consumed(|unread|, count, messages);
    if n == 0 {
      assert returned + (unread' + Concat(messages)) == returned + unread' + Concat(messages);
    } else {
      var lost := messages[..n - 1];
      assert LastOf(messages[..n]) == messages[n - 1];
      ConcatAround(messages, n - 1);
      ConcatEmpty(lost);
      StreamKept(unread, Concat(lost), messages[n - 1], Concat(messages'), returned, unread');
    }
  }

  lemma ConcatAround(messages: seq<Message>, k: nat)
    requires k < |messages|
    ensures Concat(messages) == Concat(messages[..k]) + (messages[k] + Concat(messages[k + 1..]))
  {
    assert messages == messages[..k] + messages[k..];
    ConcatAppend(messages[..k], messages[k..]);
    assert messages[k..][1..] == messages[k + 1..];
  }

  lemma StreamKept(unread: seq<Byte>, lost: seq<Byte>, last: seq<Byte>, later: seq<Byte>,
      returned: seq<Byte>, unread': seq<Byte>)
    requires returned + unread' == unread + last
    ensures returned + (unread' + later) == unread + (lost + (last + later)) <==> |lost| == 0
    ensures |returned + (unread' + later)| + |lost| == |unread + (lost + (last + later))|
  {
    assert returned + (unread' + later) == returned + unread' + later;
    if |lost| == 0 {
      assert unread + (lost + (last + later)) == unread + last + later;
    } else {
      assert |returned| + |unread'| == |unread| + |last|;
      assert |returned + (unread' + later)| != |unread + (lost + (last + later))|;
    }
  }

  lemma {:induction false} ConcatEmpty(messages: seq<Message>)
    ensures |Concat(messages)| == 0 <==> forall i :: 0 <= i < |messages| ==> messages[i] == []
  {
    if messages != [] {
      ConcatEmpty(messages[1..]);
      assert messages == [messages[0]] + messages[1..];
    }
  }

  // ----- when a read is safe -----

  /** The first message that is not empty. */
  function FirstData(messages: seq<Message>): (k: nat)
    ensures k <= |messages|
    ensures k < |messages| ==> messages[k] != []
    ensures forall i :: 0 <= i < k ==> messages[i] == []
  {
    if messages == [] || messages[0] != [] then 0 else 1 + FirstData(messages[1..])
  }

  /** What a caller can check before a read of count bytes: half of them are buffered, or the first
      data that will arrive covers the rest, as the code counts. */
  predicate SafeRead(had: nat, count: nat, messages: seq<Message>) {
    had >= count - had ||
    var k := FirstData(messages);
    k < |messages| ==> had + |messages[k]| >= count - had
  }

  /** A read waits for ever exactly if neither the buffer nor any message is large enough. */
  lemma ReadWaitsExactly(had: nat, count: nat, messages: seq<Message>)
    ensures ReadOutcome(had, count, messages).Waits? <==>
      had < count && forall i :: 0 <= i < |messages| ==> had + |messages[i]| < count - had
  {
    if had < count {
      var k := EndsAt(had, count - had, messages);
      assert k < |messages| ==> had + |messages[k]| >= count - had;
    }
  }

  /** A read that comes back has lost nothing exactly if it was safe, and it never adds anything. */
  lemma SafeReadsKeepStream(r: Reader, count: nat, returned: seq<Byte>, r': Reader)
    requires ReadStep(r, count, returned, r')
    ensures returned + Pending(r') == Pending(r) <==> SafeRead(|r.unread|, count, r.messages)
    ensures |returned + Pending(r')| <= |Pending(r)|
    ensures |returned + Pending(r')| == |Pending(r)| ==> returned + Pending(r') == Pending(r)
  {
    var had, messages := |r.unread|, r.messages;
    ReadKeepsStream(r.unread, count, messages, returned, r'.unread, r'.messages);
    if had < count {
      var k, f := EndsAt(had, count - had, messages), FirstData(messages);
      assert Consumed(had, count, messages) == k + 1;
      assert had + |messages[k]| >= count - had;
      if f < k { assert had + |messages[f]| < count - had; }
    }
  }

  /** Two messages, of which the read of four bytes returns only the second: the first is lost. */
  lemma ReadCanLoseMessage(returned: seq<Byte>, r': Reader)
    requires ReadStep(Reader([], [[1], [2, 3, 4, 5]]), 4, returned, r')
    ensures returned + Pending(r') == [2, 3, 4, 5] && Pending(Reader([], [[1], [2, 3, 4, 5]])) == [1, 2, 3, 4, 5]
  {
    var messages: seq<Message> := [[1], [2, 3, 4, 5]];
    assert messages[1..][0] == [2, 3, 4, 5] && messages[1..][1..] == [] && messages[2..] == [];
    assert EndsAt(0, 4, messages) == 1 + EndsAt(0, 4, messages[1..]);
    assert Concat(messages) == [1] + (Concat(messages[1..])) == [1] + ([2, 3, 4, 5] + []);
    assert r'.messages == [] && LastOf(messages[..2]) == [2, 3, 4, 5];
    assert returned + Pending(r') == returned + r'.unread;
  }

  // ----- series of reads -----

  /** The reads go from one state to the next and give the bytes returned. */
  ghost predicate Reads(states: seq<Reader>, counts: seq<nat>, returned: seq<seq<Byte>>) {
    && |states| == |counts| + 1 == |returned| + 1
    && forall i :: 0 <= i < |counts| ==> ReadStep(states[i], counts[i], returned[i], states[i + 1])
  }

  ghost predicate AllSafe(states: seq<Reader>, counts: seq<nat>)
    requires |states| >= |counts|
  {
    forall i :: 0 <= i < |counts| ==> SafeRead(|states[i].unread|, counts[i], states[i].messages)
  }

  lemma FirstAndRestSafe(states: seq<Reader>, counts: seq<nat>)
    requires |states| >= |counts| > 0
    ensures AllSafe(states, counts) <==>
      SafeRead(|states[0].unread|, counts[0], states[0].messages) && AllSafe(states[1..], counts[1..])
  {
    hide SafeRead;
    if SafeRead(|states[0].unread|, counts[0], states[0].messages) && AllSafe(states[1..], counts[1..]) {
      forall i | 0 <= i < |counts| ensures SafeRead(|states[i].unread|, counts[i], states[i].messages) {
        if i > 0 { assert states[1..][i - 1] == states[i] && counts[1..][i - 1] == counts[i]; }
      }
    }
  }

  /** A stream that is kept over two stretches is kept over each of them. */
  lemma LossAddsUp(first: seq<Byte>, rest: seq<Byte>, between: seq<Byte>, all: seq<Byte>)
    requires |rest| <= |between| && |first + between| <= |all|
    requires |first + between| == |all| ==> first + between == all
    ensures |first + rest| <= |all|
    ensures first + rest == all <==> rest == between && first + between == all
  {
    if first + rest == all {
      assert (first + between)[|first|..] == between && (first + rest)[|first|..] == rest;
    }
  }

  /** A series of reads reassembles the stream exactly if every one of them was safe: what has been
      returned and what is pending make up all that was pending at first. */
  lemma {:induction false} SafeReadsReassemble(states: seq<Reader>, counts: seq<nat>, returned: seq<seq<Byte>>)
    requires Reads(states, counts, returned)
    ensures Concat(returned) + Pending(states[|counts|]) == Pending(states[0]) <==> AllSafe(states, counts)
    ensures |Concat(returned) + Pending(states[|counts|])| <= |Pending(states[0])|
  {
    hide Pending, ReadStep, SafeRead;
    if counts != [] {
      hide AllSafe;
      SafeReadsKeepStream(states[0], counts[0], returned[0], states[1]);
      FirstAndRestSafe(states, counts);
      SafeReadsReassemble(states[1..], counts[1..], returned[1..]);
      var first, rest, end := returned[0], Concat(returned[1..]), Pending(states[|counts|]);
      assert states[1..][|counts[1..]|] == states[|counts|];
      assert Concat(returned) + end == first + (rest + end);
      hide Concat;
      LossAddsUp(first, rest + end, Pending(states[1]), Pending(states[0]));
    }
  }

  /** A check before the call: what is buffered and the next message cover the count that is left. */
  lemma FirstMessageSuffices(unread: nat, count: nat, messages: seq<Message>)
    requires unread >= count || (messages != [] && unread + |messages[0]| >= count - unread)
    ensures Consumed(unread, count, messages) == (if unread >= count then 0 else 1)
    ensures ReadOutcome(unread, count, messages).Got?
  {
  }
}
