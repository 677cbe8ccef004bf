/** What exactly the packets of a range are, byte by byte and part by part. */
module Packets {
  import opened Sorting
  import opened Bytes
  import opened Sums
  import opened Stream
  import opened Receiving

  // ----- bytes -----

  /** Byte k of a number is its k-th digit to the base 256, the least significant one first. */
  lemma {:induction false} BytesAreDigits(x: nat, width: nat, k: nat)
    requires k < width
    ensures Capacity(k) > 0 && ToBytes(x, width)[k] == x / Capacity(k) % 256
    decreases k
  {
    if k > 0 {
      BytesAreDigits(x / 256, width - 1, k - 1);
      DivideTwice(x, Capacity(k - 1));
    }
  }

  lemma DivideTwice(x: nat, c: nat)
    requires c > 0
    ensures x / (256 * c) == x / 256 / c
  {
    var q, r := x / 256 / c, x / 256 % c;
    DivMod(x / 256, c);
    assert x == q * (256 * c) + (256 * r + x % 256) by {
      assert x / 256 == q * c + r;
      assert q * (256 * c) == 256 * (q * c);
    }
    RemainderIsUnique(x, 256 * c, q, 256 * r + x % 256);
  }

  /** Item i lies in the four bytes from 4 * i on. */
  lemma {:induction false} ItemIsAt(items: seq<Item>, i: nat)
    requires i < |items|
    ensures ItemBytes(items)[ITEM_SIZE * i..ITEM_SIZE * (i + 1)] == ToBytes(items[i], ITEM_SIZE)
  {
    if i > 0 {
      ItemIsAt(items[1..], i - 1);
      var b, t := ItemBytes(items), ItemBytes(items[1..]);
      assert b[ITEM_SIZE..] == t;
      assert b[ITEM_SIZE * i..ITEM_SIZE * (i + 1)] == t[ITEM_SIZE * (i - 1)..ITEM_SIZE * i];
    }
  }

  /** A message is that of a packet if and only if the type is at 0, the size at 8 and the items at
      24; all other bytes are of no consequence. */
  lemma MessageExactly(message: Message, p: Packet)
    ensures IsEncodingOf(message, p) <==>
      && |message| >= 24 && message[0..4] == ToBytes(if p.Announce? then 2 else 3, 4)
      && message[8..16] == ToBytes(if p.Announce? then p.size else 4 * |p.items|, 8)
      && message[24..] == if p.Announce? then [] else ItemBytes(p.items)
  {
    hide ToBytes, ItemBytes;
    if noise: seq<Byte> :| |noise| == NOISE_SIZE && message == Encode(p, noise) {
      var kind := if p.Announce? then EPACKET_RANGE else EPACKET_RANGE_PART;
      var h := Header(kind, PayloadSize(p), noise);
      assert message[..24] == h && message[0..4] == h[0..4] && message[8..16] == h[8..16];
    }
    if |message| >= 24 {
      var noise := message[4..8] + message[16..24];
      assert noise[..4] == message[4..8] && noise[4..] == message[16..24];
      assert message == message[0..4] + message[4..8] + message[8..16] + message[16..24] + message[24..];
    }
  }

  // ----- what arrives -----

  /** What a sequence of packets brings and announces is what its parts do, and that of a single
      packet is its own. */
  lemma {:induction false} PacketsAddUp(a: seq<Packet>, b: seq<Packet>)
    ensures Arrived(a + b) == Arrived(a) + Arrived(b)
    ensures Announced(a + b) == Announced(a) + Announced(b)
    ensures RangeCount(a + b) == RangeCount(a) + RangeCount(b)
  {
    if b == [] {
      assert a + b == a;
    } else {
      assert (a + b)[..|a + b| - 1] == a + b[..|b| - 1];
      PacketsAddUp(a, b[..|b| - 1]);
    }
  }

  lemma OnePacketBrings(p: Packet)
    ensures Arrived([p]) == if p.Announce? then [] else p.items
    ensures Announced([p]) == if p.Announce? then p.size else 0
    ensures RangeCount([p]) == if p.Announce? then 1 else 0
  {
    assert [p][..0] == [];
  }

  // ----- transfers -----

  lemma {:induction false} FullPartsBefore(packets: seq<Packet>, items: seq<Item>, m: nat)
    requires IsTransfer(packets, items) && 1 <= m < |packets|
    ensures |Arrived(packets[..m])| == (m - 1) * 25600
  {
    hide IsTransfer;
    TransferHasParts(packets, items);
    PrefixStep(packets, m - 1);
    if m == 1 {
      assert packets[..0] == [];
    } else {
      FullPartsBefore(packets, items, m - 1);
    }
  }

  lemma ArrivedIsPrefix(packets: seq<Packet>, m: nat)
    requires m < |packets| && packets[m].Part?
    ensures var before, part := |Arrived(packets[..m])|, packets[m].items;
      before + |part| <= |Arrived(packets)| && Arrived(packets)[before..before + |part|] == part
  {
    var after := packets[m + 1..];
    assert packets == packets[..m + 1] + after;
    PrefixStep(packets, m);
    PacketsAddUp(packets[..m + 1], after);
  }

  /** The packets of a transfer are determined by its items: first the announcement of four bytes for
      each of them, then their parts in order, part k from item (k - 1) * 25600 on, as few as possible. */
  lemma TransferExactly(packets: seq<Packet>, items: seq<Item>)
    requires IsTransfer(packets, items)
    ensures packets != [] && packets[0] == Announce(4 * |items|)
    ensures (|packets| - 1) * 25600 - 25600 < |items| <= (|packets| - 1) * 25600
    ensures forall k :: 1 <= k < |packets| ==>
      packets[k] == Part(items[(k - 1) * 25600..if k < |packets| - 1 then k * 25600 else |items|])
  {
    hide Arrived, IsTransfer;
    TransferHasParts(packets, items);
    var last := |packets| - 1;
    assert packets[..|packets|] == packets;
    if last > 0 {
      FullPartsBefore(packets, items, last);
      PrefixStep(packets, last);
    } else {
      assert packets == [packets[0]];
      OnePacketBrings(packets[0]);
    }
    forall k | 1 <= k < |packets|
      ensures k * 25600 <= |items| || k == last
      ensures packets[k] == Part(items[(k - 1) * 25600..if k < last then k * 25600 else |items|])
    {
      FullPartsBefore(packets, items, k);
      ArrivedIsPrefix(packets, k);
    }
  }

  lemma TransferHasParts(packets: seq<Packet>, items: seq<Item>)
    requires IsTransfer(packets, items)
    ensures packets != [] && packets[0] == Announce(4 * |items|) && Arrived(packets) == items
    ensures forall k :: 1 <= k < |packets| ==>
      && packets[k].Part? && 0 < |packets[k].items| <= 25600
      && (k < |packets| - 1 ==> |packets[k].items| == 25600)
  {
  }
}
