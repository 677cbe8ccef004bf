/** How sorted ranges travel: the sender of client/source/comm_src.c cuts a range into packets,
    and the receive loop of client/dest/comm_dst.c puts the packets of all sources together. */
module Receiving {
  import opened Sorting
  import opened Bytes
  import opened Sums
  import opened Stream
  import opened Flattening

  const HEADER_SIZE := 24
  const NOISE_SIZE := 12
  const ITEM_SIZE := 4
  const FUSE_IO_MAX_CHUNK_SIZE := 100 * 1024
  const INT_MAX := 0x7FFF_FFFF
  const PART_LENGTH := FUSE_IO_MAX_CHUNK_SIZE / ITEM_SIZE
  const EPACKET_RANGE := 2
  const EPACKET_RANGE_PART := 3

  /** The C counters: every value that is assigned to one has to fit. */
  type CInt = x: int | -INT_MAX - 1 <= x <= INT_MAX

  // ----- bytes -----

  /** x in width bytes, least significant first. */
  function ToBytes(x: nat, width: nat): (b: seq<Byte>)
    ensures |b| == width
  {
    if width == 0 then [] else [x % 256] + ToBytes(x / 256, width - 1)
  }

  function FromBytes(b: seq<Byte>): nat {
    if b == [] then 0 else b[0] + 256 * FromBytes(b[1..])
  }

  function Capacity(width: nat): nat {
    if width == 0 then 1 else 256 * Capacity(width - 1)
  }

  lemma {:induction false} BytesRoundTrip(x: nat, width: nat)
    requires x < Capacity(width)
    ensures FromBytes(ToBytes(x, width)) == x
  {
    if width > 0 {
      BytesRoundTrip(x / 256, width - 1);
      assert ToBytes(x, width)[1..] == ToBytes(x / 256, width - 1);
    }
  }

  function ItemBytes(items: seq<Item>): (b: seq<Byte>)
    ensures |b| == ITEM_SIZE * |items|
  {
    if items == [] then [] else ToBytes(items[0], ITEM_SIZE) + ItemBytes(items[1..])
  }

  /** The array of 32-bit items that lies in these bytes. */
  function BytesToItems(b: seq<Byte>): (items: seq<Item>)
    requires |b| % ITEM_SIZE == 0
    ensures |items| == |b| / ITEM_SIZE
  {
    if b == [] then [] else
      FourBytesAreAnItem(b[..ITEM_SIZE]);
      [FromBytes(b[..ITEM_SIZE])] + BytesToItems(b[ITEM_SIZE..])
  }

  lemma FourBytesAreAnItem(b: seq<Byte>)
    requires |b| == ITEM_SIZE
    ensures FromBytes(b) < TWO_TO_32
  {
    assert b[1..][1..] == b[2..] && b[2..][1..] == b[3..] && b[3..][1..] == [];
    assert FromBytes(b) == b[0] + 256 * FromBytes(b[1..]);
    assert FromBytes(b[1..]) == b[1] + 256 * FromBytes(b[2..]);
    assert FromBytes(b[2..]) == b[2] + 256 * FromBytes(b[3..]);
    assert FromBytes(b[3..]) == b[3] + 256 * FromBytes([]);
  }

  lemma {:induction false} ItemsRoundTrip(items: seq<Item>)
    ensures BytesToItems(ItemBytes(items)) == items
  {
    if items != [] {
      var b := ItemBytes(items);
      assert b[..ITEM_SIZE] == ToBytes(items[0], ITEM_SIZE) && b[ITEM_SIZE..] == ItemBytes(items[1..]);
      assert Capacity(4) == 256 * Capacity(3) && Capacity(3) == 256 * Capacity(2) && Capacity(2) == 256 * Capacity(1);
      BytesRoundTrip(items[0], ITEM_SIZE);
      ItemsRoundTrip(items[1..]);
    }
  }

  lemma {:induction false} ItemBytesAppend(a: seq<Item>, b: seq<Item>)
    ensures ItemBytes(a + b) == ItemBytes(a) + ItemBytes(b)
  {
    if a == [] {
      assert a + b == b;
    } else {
      assert (a + b)[1..] == a[1..] + b;
      ItemBytesAppend(a[1..], b);
    }
  }

  // ----- packets -----

  /** The announcement of a range, or a part of one. */
  datatype Packet = Announce(size: nat) | Part(items: seq<Item>)

  /** struct packet_data_t: the type at 0, the size at 8, the node id at 16, and padding. The senders
      only set the type and the size; the noise is what the memory holds elsewhere. */
  function Header(kind: nat, size: nat, noise: seq<Byte>): (h: seq<Byte>)
    requires |noise| == NOISE_SIZE
    ensures |h| == HEADER_SIZE
  {
    ToBytes(kind, 4) + noise[..4] + ToBytes(size, 8) + noise[4..]
  }

  /** The number in a packet's header: the bytes of the range, or of the part that follows. */
  function PayloadSize(p: Packet): nat {
    match p
    case Announce(size) => size
    case Part(items) => ITEM_SIZE * |items|
  }

  /** A packet is one message: the announcement only a header, a part a header and its items. */
  function Encode(p: Packet, noise: seq<Byte>): Message
    requires |noise| == NOISE_SIZE
  {
    match p
    case Announce(size) => Header(EPACKET_RANGE, size, noise)
    case Part(items) => Header(EPACKET_RANGE_PART, ITEM_SIZE * |items|, noise) + ItemBytes(items)
  }

  /** The messages carry these packets. */
  ghost predicate Carries(messages: seq<Message>, packets: seq<Packet>) {
    |messages| == |packets| && forall i :: 0 <= i < |packets| ==> IsEncodingOf(messages[i], packets[i])
  }

  ghost predicate IsEncodingOf(message: Message, p: Packet) {
    exists noise: seq<Byte> :: |noise| == NOISE_SIZE && message == Encode(p, noise)
  }

  // ----- what arrives -----

  function Arrived(packets: seq<Packet>): seq<Item> {
    if packets == [] then []
    else
      Arrived(packets[..|packets| - 1]) +
      match packets[|packets| - 1] case Announce(_) => [] case Part(items) => items
  }

  function Announced(packets: seq<Packet>): nat {
    if packets == [] then 0
    else
      Announced(packets[..|packets| - 1]) +
      match packets[|packets| - 1] case Announce(size) => size case Part(_) => 0
  }

  function RangeCount(packets: seq<Packet>): nat {
    if packets == [] then 0
    else RangeCount(packets[..|packets| - 1]) + match packets[|packets| - 1] case Announce(_) => 1 case Part(_) => 0
  }

  /** All ranges are announced, as many bytes as follow, and no part is empty; the byte counters
      of the receive loop can hold the sum. */
  ghost predicate IsTraffic(packets: seq<Packet>, rangesCount: nat) {
    && RangeCount(packets) == rangesCount
    && Announced(packets) == ITEM_SIZE * |Arrived(packets)|
    && (forall i :: 0 <= i < |packets| && packets[i].Part? ==> packets[i].items != [])
    && Announced(packets) <= INT_MAX
  }

  lemma PrefixStep(packets: seq<Packet>, m: nat)
    requires m < |packets|
    ensures var p, before, after := packets[m], packets[..m], packets[..m + 1];
      && Arrived(after) == Arrived(before) + (if p.Part? then p.items else [])
      && Announced(after) == Announced(before) + (if p.Announce? then p.size else 0)
      && RangeCount(after) == RangeCount(before) + (if p.Announce? then 1 else 0)
  {
    assert packets[..m + 1][..m] == packets[..m];
  }

  lemma {:induction false} PrefixBelowWhole(packets: seq<Packet>, m: nat)
    requires m <= |packets|
    ensures RangeCount(packets[..m]) <= RangeCount(packets) && Announced(packets[..m]) <= Announced(packets)
    ensures |Arrived(packets[..m])| <= |Arrived(packets)|
    ensures RangeCount(packets[..m]) == RangeCount(packets) ==> Announced(packets[..m]) == Announced(packets)
    decreases |packets| - m
  {
    if m == |packets| {
      assert packets[..m] == packets;
    } else {
      PrefixStep(packets, m);
      PrefixBelowWhole(packets, m + 1);
    }
  }

  /** The condition of the receive loop holds exactly as long as packets are missing. */
  lemma LoopEndsWithTraffic(packets: seq<Packet>, rangesCount: nat, m: nat)
    requires IsTraffic(packets, rangesCount) && m <= |packets|
    ensures var before := packets[..m];
      ITEM_SIZE * |Arrived(before)| < Announced(before) || RangeCount(before) < rangesCount <==> m < |packets|
  {
    if m == |packets| {
      assert packets[..m] == packets;
    } else {
      PrefixStep(packets, m);
      PrefixBelowWhole(packets, m);
      PrefixBelowWhole(packets, m + 1);
    }
  }

  // ----- the receive loop -----

  function HeaderKind(h: seq<Byte>): nat
    requires |h| == HEADER_SIZE
  {
    FromBytes(h[0..4])
  }

  function HeaderPayload(h: seq<Byte>): nat
    requires |h| == HEADER_SIZE
  {
    FromBytes(h[8..16])
  }

  lemma HeaderFields(kind: nat, size: nat, noise: seq<Byte>)
    requires |noise| == NOISE_SIZE && kind < 256 && size < SIZE_MAX
    ensures HeaderKind(Header(kind, size, noise)) == kind
    ensures HeaderPayload(Header(kind, size, noise)) == size
  {
    var h := Header(kind, size, noise);
    assert h[0..4] == ToBytes(kind, 4) && h[8..16] == ToBytes(size, 8);
    assert Capacity(4) == 256 * Capacity(3) && Capacity(3) == 256 * Capacity(2) && Capacity(2) == 256 * Capacity(1);
    assert Capacity(8) == 256 * Capacity(7) && Capacity(7) == 256 * Capacity(6) && Capacity(6) == 256 * Capacity(5);
    assert Capacity(5) == 256 * Capacity(4) && Capacity(1) == 256 * Capacity(0);
    BytesRoundTrip(kind, 4);
    BytesRoundTrip(size, 8);
  }

  /** The first of two reads: it receives a message and leaves what follows the header in the
      temporary buffer. */
  method ReadHeader(sock: SockFile, ghost p: Packet, ghost rest: seq<Message>) returns (header: seq<Byte>)
    requires sock.tempbuf == NoBuffer && sock.incoming != [] && sock.incoming[1..] == rest
    requires IsEncodingOf(sock.incoming[0], p) && PayloadSize(p) < SIZE_MAX
    modifies sock
    ensures sock.Valid() && sock.incoming == rest
    ensures sock.Unread() == (if p.Part? then ItemBytes(p.items) else [])
    ensures |header| == HEADER_SIZE && HeaderPayload(header) == PayloadSize(p)
    ensures HeaderKind(header) == if p.Announce? then EPACKET_RANGE else EPACKET_RANGE_PART
  {
    ghost var messages := sock.incoming;
    ghost var noise: seq<Byte> :| |noise| == NOISE_SIZE && messages[0] == Encode(p, noise);
    var buf := new Byte[HEADER_SIZE](_ => 0);
    var read := sock.ReadSockf(buf, 0, HEADER_SIZE);
    FirstMessageSuffices(0, HEADER_SIZE, messages);
    assert messages[..1] == [messages[0]];
    header := buf[..];
    assert buf[0..HEADER_SIZE] == header;
    assert header + sock.Unread() == messages[0];
    assert header == messages[0][..HEADER_SIZE] && sock.Unread() == messages[0][HEADER_SIZE..];
    ghost var kind := if p.Announce? then EPACKET_RANGE else EPACKET_RANGE_PART;
    assert header == Header(kind, PayloadSize(p), noise);
    HeaderFields(kind, PayloadSize(p), noise);
  }

  /** The second read finds the whole payload in the temporary buffer. */
  method ReadPayload(sock: SockFile, dst: array<Byte>, offset: nat, size: nat) returns (bytes: nat)
    requires sock.Valid() && |sock.Unread()| == size && 0 < size < SIZE_MAX && offset + size <= dst.Length
    modifies sock, dst
    ensures bytes == size && sock.tempbuf == NoBuffer && sock.incoming == old(sock.incoming)
    ensures dst[..offset + size] == old(dst[..offset]) + old(sock.Unread())
  {
    ghost var unread := sock.Unread();
    var read := sock.ReadSockf(dst, offset, size);
    assert dst[offset..offset + size] == (dst[offset..offset + size] + sock.Unread())[..size];
    bytes := read.bytes;
    assert dst[..offset + size] == dst[..offset] + dst[offset..offset + size];
  }

  /** The two reads of a packet, header first, never lose anything, whatever follows. */
  lemma PacketReadsAreSafe(p: Packet, noise: seq<Byte>, rest: seq<Message>)
    requires |noise| == NOISE_SIZE
    ensures SafeRead(0, HEADER_SIZE, [Encode(p, noise)] + rest)
    ensures SafeRead(PayloadSize(p), PayloadSize(p), rest)
  {
    assert ([Encode(p, noise)] + rest)[0] == Encode(p, noise);
  }

  lemma TrafficFits(packets: seq<Packet>, rangesCount: nat, m: nat)
    requires IsTraffic(packets, rangesCount) && m < |packets|
    ensures PayloadSize(packets[m]) <= INT_MAX
    ensures Announced(packets[..m + 1]) <= INT_MAX && RangeCount(packets[..m + 1]) <= rangesCount
    ensures ITEM_SIZE * |Arrived(packets[..m + 1])| <= INT_MAX
    ensures packets[m].Part? ==>
      0 < PayloadSize(packets[m]) && |Arrived(packets[..m])| + |packets[m].items| <= |Arrived(packets)|
  {
    PrefixStep(packets, m);
    PrefixBelowWhole(packets, m);
    PrefixBelowWhole(packets, m + 1);
  }

  /** The counters of the receive loop after m packets, and what dst holds by then. */
  ghost predicate Progress(packets: seq<Packet>, m: nat, received: int, waiting: int, ranges: int, held: seq<Byte>) {
    && m <= |packets|
    && received == ITEM_SIZE * |Arrived(packets[..m])| == |held|
    && waiting == Announced(packets[..m]) && ranges == RangeCount(packets[..m])
    && held == ItemBytes(Arrived(packets[..m]))
  }

  /** The body of the receive loop: one packet. */
  method ReceivePacket(sock: SockFile, dst: array<Byte>, received: CInt, waiting: CInt, ranges: CInt,
      ghost packets: seq<Packet>, ghost m: nat, ghost rangesCount: CInt, ghost messages: seq<Message>)
      returns (received': CInt, waiting': CInt, ranges': CInt)
    requires rangesCount >= 0 && received >= 0 && IsTraffic(packets, rangesCount)
    requires m < |packets| && Carries(messages, packets)
    requires sock.tempbuf == NoBuffer && sock.incoming == messages[m..]
    requires ITEM_SIZE * |Arrived(packets)| <= dst.Length && received <= dst.Length
    requires Progress(packets, m, received, waiting, ranges, dst[..received])
    modifies sock, dst
    ensures sock.tempbuf == NoBuffer && sock.incoming == messages[m + 1..] && 0 <= received' <= dst.Length
    ensures Progress(packets, m + 1, received', waiting', ranges', dst[..received'])
  {
    hide IsTraffic, Encode, ItemBytes, ToBytes, FromBytes, Arrived, Announced, RangeCount;
    ghost var p, held := packets[m], dst[..received];
    assert |sock.incoming| > 0 && sock.incoming[1..] == messages[m + 1..];
    TrafficFits(packets, rangesCount, m);
    PrefixStep(packets, m);
    received', waiting', ranges' := received, waiting, ranges;
    var header := ReadHeader(sock, p, messages[m + 1..]);
    var kind, size := HeaderKind(header), HeaderPayload(header);
    if kind == EPACKET_RANGE {
      waiting' := waiting + size;
      ranges' := ranges + 1;
      assert dst[..received'] == held;
      assert Arrived(packets[..m + 1]) == Arrived(packets[..m]);
    } else if kind == EPACKET_RANGE_PART {
      var offset := received / ITEM_SIZE * ITEM_SIZE;
      assert offset == received;
      var bytes := ReadPayload(sock, dst, offset, size);
      ItemBytesAppend(Arrived(packets[..m]), p.items);
      received' := received + bytes;
      assert bytes > 0;
      assert dst[..received'] == held + ItemBytes(p.items);
    }
  }

  /** repreq_read_sorted_ranges: as long as bytes or announcements are missing, one packet is
      read and answered. The loop ends with the last packet: it never waits for a further one,
      leaves none behind, and dst holds the parts in the order of their arrival. */
  method ReadSortedRanges(sock: SockFile, dst: array<Byte>, rangesCount: CInt, ghost packets: seq<Packet>)
      returns (received: CInt, replies: nat)
    requires sock.tempbuf == NoBuffer && Carries(sock.incoming, packets)
    requires rangesCount > 0 && IsTraffic(packets, rangesCount)
    requires ITEM_SIZE * |Arrived(packets)| <= dst.Length
    modifies sock, dst
    ensures sock.tempbuf == NoBuffer && sock.incoming == [] && replies == |packets|
    ensures 0 <= received == ITEM_SIZE * |Arrived(packets)| <= dst.Length
    ensures dst[..received] == ItemBytes(Arrived(packets))
  {
    ghost var messages := sock.incoming;
    assert |messages| == |packets|;
    hide IsTraffic, Carries;
    var waiting: CInt, ranges: CInt := 0, 0;
    received, replies := 0, 0;
    SomethingArrives(packets, rangesCount);
    var more := true;
    while more
      invariant sock.tempbuf == NoBuffer && replies <= |packets| && sock.incoming == messages[replies..]
      invariant 0 <= received <= dst.Length && Progress(packets, replies, received, waiting, ranges, dst[..received])
      invariant more <==> replies < |packets|
      decreases |packets| - replies
    {
      received, waiting, ranges :=
        ReceivePacket(sock, dst, received, waiting, ranges, packets, replies, rangesCount, messages);
      replies := replies + 1;
      LoopEndsWithTraffic(packets, rangesCount, replies);
      more := received < waiting || ranges < rangesCount;
    }
    assert packets[..replies] == packets;
  }

  lemma SomethingArrives(packets: seq<Packet>, rangesCount: nat)
    requires IsTraffic(packets, rangesCount) && rangesCount > 0
    ensures packets != []
  {
  }

  // ----- the senders -----

  /** The packets sent so far: the announcement of size bytes, and these items in parts that are
      full but for the last one. */
  ghost predicate IsTransferStart(packets: seq<Packet>, size: nat, items: seq<Item>) {
    && packets != [] && packets[0] == Announce(size)
    && (forall k :: 1 <= k < |packets| ==>
          packets[k].Part? && 0 < |packets[k].items| <= PART_LENGTH &&
          (k < |packets| - 1 ==> |packets[k].items| == PART_LENGTH))
    && Arrived(packets) == items
  }

  /** One source's packets for these items. */
  ghost predicate IsTransfer(packets: seq<Packet>, items: seq<Item>) {
    IsTransferStart(packets, ITEM_SIZE * |items|, items)
  }

  lemma StartTransfer(size: nat)
    ensures IsTransferStart([Announce(size)], size, []) && LastIsFull([Announce(size)])
  {
    assert [Announce(size)][..0] == [];
  }

  ghost predicate LastIsFull(packets: seq<Packet>) {
    |packets| > 1 ==> packets[|packets| - 1].Part? && |packets[|packets| - 1].items| == PART_LENGTH
  }

  lemma SendPart(packets: seq<Packet>, size: nat, items: seq<Item>, part: seq<Item>)
    requires IsTransferStart(packets, size, items)
    requires 0 < |part| <= PART_LENGTH && LastIsFull(packets)
    ensures IsTransferStart(packets + [Part(part)], size, items + part)
    ensures |part| == PART_LENGTH ==> LastIsFull(packets + [Part(part)])
  {
    assert (packets + [Part(part)])[..|packets|] == packets;
  }

  lemma MultiplesOfFour(sending: int, sentSize: int, sentItems: int, arrayLen: int)
    requires sentSize == sentItems * ITEM_SIZE
    requires sending == Min(PART_LENGTH * ITEM_SIZE, arrayLen * ITEM_SIZE - sentSize) > 0
    ensures sending == sending / ITEM_SIZE * ITEM_SIZE && sentSize / ITEM_SIZE == sentItems
    ensures 0 < sending / ITEM_SIZE <= arrayLen - sentItems && sending / ITEM_SIZE <= PART_LENGTH
    ensures sending / ITEM_SIZE == PART_LENGTH || sentSize + sending == arrayLen * ITEM_SIZE
  {
  }

  lemma JoinItems(a: array<Item>, i: nat, j: nat, k: nat)
    requires i <= j <= k <= a.Length
    ensures a[i..j] + a[j..k] == a[i..k]
  {
  }

  /** write_sorted_ranges. */
  method WriteSortedRanges(src: array<Item>, firstItemIndex: CInt, lastItemIndex: CInt) returns (sent: seq<Packet>)
    requires 0 <= firstItemIndex <= lastItemIndex + 1 <= src.Length && ITEM_SIZE * src.Length <= INT_MAX
    ensures IsTransfer(sent, src[firstItemIndex..lastItemIndex + 1])
  {
    hide Arrived, IsTransferStart, LastIsFull;
    var arrayLen: CInt := lastItemIndex - firstItemIndex + 1;
    var sizeOfArrayPart: CInt := PART_LENGTH * ITEM_SIZE;
    var size := arrayLen * ITEM_SIZE;
    sent := [Announce(size)];
    StartTransfer(size);
    assert src[firstItemIndex..firstItemIndex] == [];
    var sentSize: CInt := 0;
    ghost var sentItems := 0;
    while sentSize < size
      invariant 0 <= sentItems <= arrayLen && sentSize == sentItems * ITEM_SIZE
      invariant IsTransferStart(sent, size, src[firstItemIndex..firstItemIndex + sentItems])
      invariant sentSize < size ==> LastIsFull(sent)
    {
      var sending: CInt := Min(sizeOfArrayPart, size - sentSize);
      var from := firstItemIndex + sentSize / ITEM_SIZE;
      var part := src[from..from + sending / ITEM_SIZE];
      MultiplesOfFour(sending, sentSize, sentItems, arrayLen);
      SendPart(sent, size, src[firstItemIndex..from], part);
      JoinItems(src, firstItemIndex, from, from + |part|);
      sent := sent + [Part(part)];
      sentSize := sentSize + sending;
      sentItems := sentItems + |part|;
    }
  }

  // ----- interleaving -----

  /** merged is some interleaving of the streams: its last packet is the last one of some stream. */
  ghost predicate Interleaves(streams: seq<seq<Packet>>, merged: seq<Packet>)
    decreases |merged|
  {
    if merged == [] then forall i :: 0 <= i < |streams| ==> streams[i] == []
    else exists i :: (0 <= i < |streams| && TakesLast(streams[i], merged) &&
                      Interleaves(streams[i := streams[i][..|streams[i]| - 1]], merged[..|merged| - 1]))
  }

  ghost predicate TakesLast(stream: seq<Packet>, merged: seq<Packet>) {
    stream != [] && merged != [] && stream[|stream| - 1] == merged[|merged| - 1]
  }

  ghost function ArrivedOf(streams: seq<seq<Packet>>): seq<seq<Item>> {
    seq(|streams|, i requires 0 <= i < |streams| => Arrived(streams[i]))
  }

  ghost function AnnouncedOf(streams: seq<seq<Packet>>): seq<int> {
    seq(|streams|, i requires 0 <= i < |streams| => Announced(streams[i]))
  }

  ghost function RangeCountOf(streams: seq<seq<Packet>>): seq<int> {
    seq(|streams|, i requires 0 <= i < |streams| => RangeCount(streams[i]))
  }

  ghost predicate PartsAreFilled(packets: seq<Packet>) {
    forall k :: 0 <= k < |packets| && packets[k].Part? ==> packets[k].items != []
  }

  /** Whatever the order of arrival, all of every stream arrives. */
  lemma {:induction false} InterleavingDeliversAll(streams: seq<seq<Packet>>, merged: seq<Packet>)
    requires Interleaves(streams, merged)
    requires forall i :: 0 <= i < |streams| ==> PartsAreFilled(streams[i])
    ensures multiset(Arrived(merged)) == multiset(Flatten(ArrivedOf(streams)))
    ensures Announced(merged) == Total(AnnouncedOf(streams))
    ensures RangeCount(merged) == Total(RangeCountOf(streams))
    ensures PartsAreFilled(merged)
    decreases |merged|
  {
    if merged == [] {
      FlattenEmpty(ArrivedOf(streams));
      TotalConstant(AnnouncedOf(streams), 0);
      TotalConstant(RangeCountOf(streams), 0);
    } else {
      var i :| 0 <= i < |streams| && TakesLast(streams[i], merged) &&
        Interleaves(streams[i := streams[i][..|streams[i]| - 1]], merged[..|merged| - 1]);
      var streams' := streams[i := streams[i][..|streams[i]| - 1]];
      forall j | 0 <= j < |streams'| ensures PartsAreFilled(streams'[j]) {
        assert PartsAreFilled(streams[j]);
      }
      InterleavingDeliversAll(streams', merged[..|merged| - 1]);
      AddLastPacket(streams, streams', merged, i);
    }
  }

  lemma AddLastPacket(streams: seq<seq<Packet>>, streams': seq<seq<Packet>>, merged: seq<Packet>, i: nat)
    requires i < |streams| && TakesLast(streams[i], merged) && PartsAreFilled(streams[i])
    requires streams' == streams[i := streams[i][..|streams[i]| - 1]]
    requires var before := merged[..|merged| - 1];
      && multiset(Arrived(before)) == multiset(Flatten(ArrivedOf(streams')))
      && Announced(before) == Total(AnnouncedOf(streams'))
      && RangeCount(before) == Total(RangeCountOf(streams'))
      && PartsAreFilled(before)
    ensures multiset(Arrived(merged)) == multiset(Flatten(ArrivedOf(streams)))
    ensures Announced(merged) == Total(AnnouncedOf(streams))
    ensures RangeCount(merged) == Total(RangeCountOf(streams))
    ensures PartsAreFilled(merged)
  {
    hide ArrivedOf, AnnouncedOf, RangeCountOf, Arrived, Announced, RangeCount, Flatten, Total;
    var p := merged[|merged| - 1];
    LastPacketArrives(streams, streams', i, p);
    PrefixStep(merged, |merged| - 1);
    assert merged[..|merged|] == merged;
    assert Arrived(merged) == Arrived(merged[..|merged| - 1]) + if p.Part? then p.items else [];
    assert p.Part? ==> p.items != [] by { assert streams[i][|streams[i]| - 1] == p; }
  }

  lemma LastPacketArrives(streams: seq<seq<Packet>>, streams': seq<seq<Packet>>, i: nat, p: Packet)
    requires i < |streams| && streams[i] != [] && p == streams[i][|streams[i]| - 1]
    requires streams' == streams[i := streams[i][..|streams[i]| - 1]]
    ensures multiset(Flatten(ArrivedOf(streams))) ==
      multiset(Flatten(ArrivedOf(streams'))) + multiset(if p.Part? then p.items else [])
    ensures Total(AnnouncedOf(streams)) == Total(AnnouncedOf(streams')) + if p.Announce? then p.size else 0
    ensures Total(RangeCountOf(streams)) == Total(RangeCountOf(streams')) + if p.Announce? then 1 else 0
  {
    hide Arrived, Announced, RangeCount, Flatten, Total;
    PrefixStep(streams[i], |streams[i]| - 1);
    assert streams[i][..|streams[i]|] == streams[i];
    FlattenExtend(ArrivedOf(streams'), i, if p.Part? then p.items else []);
    assert ArrivedOf(streams')[i := Arrived(streams[i])] == ArrivedOf(streams);
    TotalUpdate(AnnouncedOf(streams'), i, Announced(streams[i]));
    assert AnnouncedOf(streams')[i := Announced(streams[i])] == AnnouncedOf(streams);
    TotalUpdate(RangeCountOf(streams'), i, RangeCount(streams[i]));
    assert RangeCountOf(streams')[i := RangeCount(streams[i])] == RangeCountOf(streams);
  }
}
