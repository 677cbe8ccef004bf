/** The server's pool of sockets (server/zmq_netw.c): slots that are reused without being cleaned,
    and network sockets that two of them can share. */
module SocketPool {

  // ----- records and slots -----

  datatype OpenMethod = Bind | Connect | Unexpected

  /** struct db_record_t, as far as the pool looks at it. */
  datatype Record = Record(fd: int, sock: int, how: OpenMethod, endpoint: string, fmode: char)

  /** What the two files of a dual direction socket have in common. */
  datatype Key = Key(endpoint: string, how: OpenMethod, sock: int)

  function KeyOf(r: Record): Key {
    Key(r.endpoint, r.how, r.sock)
  }

  const NULL_SOCKET := 0

  /** struct sock_file_t without its temporary buffer. */
  datatype Slot = Slot(netwSocket: nat, sockType: int, fsFd: int, unused: bool)

  const ESOCKF_ARRAY_GRANULARITY := 10

  /** The messaging library: sockets get fresh identities; closed remembers the calls of zmq_close. */
  datatype Zmq = Zmq(next: nat, open: set<nat>, closed: seq<nat>)

  function CreateSocket(z: Zmq): Zmq {
    Zmq(z.next + 1, z.open + {z.next}, z.closed)
  }

  function CloseSocket(z: Zmq, socket: nat): Zmq {
    Zmq(z.next, z.open - {socket}, z.closed + [socket])
  }

  datatype Pool = Pool(slots: seq<Slot>, zmq: Zmq)

  // ----- searching -----

  /** match_db_record_by_fd: the first record with this fd, or -1. */
  function RecordIndex(records: seq<Record>, fd: int): (i: int)
    ensures -1 <= i < |records|
    ensures i >= 0 ==> records[i].fd == fd
    ensures forall j :: 0 <= j < (if i >= 0 then i else |records|) ==> records[j].fd != fd
  {
    if records == [] then -1
    else if records[0].fd == fd then 0
    else
      var i := RecordIndex(records[1..], fd);
      if i >= 0 then i + 1 else -1
  }

  /** sockf_by_fd: the first live slot with this fd, or -1. */
  function LiveIndex(slots: seq<Slot>, fd: int): (i: int)
    ensures -1 <= i < |slots|
    ensures i >= 0 ==> !slots[i].unused && slots[i].fsFd == fd
    ensures forall j :: 0 <= j < (if i >= 0 then i else |slots|) ==> slots[j].unused || slots[j].fsFd != fd
  {
    if slots == [] then -1
    else if !slots[0].unused && slots[0].fsFd == fd then 0
    else
      var i := LiveIndex(slots[1..], fd);
      if i >= 0 then i + 1 else -1
  }

  /** The first slot with this fd, live or not: the one that is given up. */
  function AnyIndex(slots: seq<Slot>, fd: int): (i: int)
    ensures -1 <= i < |slots|
    ensures i >= 0 ==> slots[i].fsFd == fd
    ensures forall j :: 0 <= j < (if i >= 0 then i else |slots|) ==> slots[j].fsFd != fd
  {
    if slots == [] then -1
    else if slots[0].fsFd == fd then 0
    else
      var i := AnyIndex(slots[1..], fd);
      if i >= 0 then i + 1 else -1
  }

  function FirstUnused(slots: seq<Slot>): (i: int)
    ensures -1 <= i < |slots|
    ensures i >= 0 ==> slots[i].unused
    ensures forall j :: 0 <= j < (if i >= 0 then i else |slots|) ==> !slots[j].unused
  {
    if slots == [] then -1
    else if slots[0].unused then 0
    else
      var i := FirstUnused(slots[1..]);
      if i >= 0 then i + 1 else -1
  }

  /** The number of live slots that use this socket. */
  function Uses(slots: seq<Slot>, socket: nat): nat {
    if slots == [] then 0
    else Uses(slots[..|slots| - 1], socket) + UsedBy(slots[|slots| - 1], socket)
  }

  function UsedBy(s: Slot, socket: nat): nat {
    if !s.unused && s.netwSocket == socket then 1 else 0
  }

  /** The last record with this key and mode, or -1. */
  function LastRecord(records: seq<Record>, key: Key, fmode: char): (i: int)
    ensures -1 <= i < |records|
    ensures i >= 0 ==> KeyOf(records[i]) == key && records[i].fmode == fmode
    ensures forall j :: i < j < |records| ==> !(KeyOf(records[j]) == key && records[j].fmode == fmode)
  {
    if records == [] then -1
    else
      var last := |records| - 1;
      if KeyOf(records[last]) == key && records[last].fmode == fmode then last
      else LastRecord(records[..last], key, fmode)
  }

  /** get_dual_sockf: a live slot of the other direction, or of the same one, or -1. */
  function DualIndex(slots: seq<Slot>, records: seq<Record>, fd: int): (i: int)
    ensures -1 <= i < |slots|
    ensures i >= 0 ==> !slots[i].unused
  {
    var r := RecordIndex(records, fd);
    if r == -1 then -1
    else
      var reader, writer := LastRecord(records, KeyOf(records[r]), 'r'), LastRecord(records, KeyOf(records[r]), 'w');
      if reader == -1 || writer == -1 then -1
      else if LiveIndex(slots, records[reader].fd) >= 0 then LiveIndex(slots, records[reader].fd)
      else LiveIndex(slots, records[writer].fd)
  }

  // ----- the operations -----

  /** Fresh slots are only marked unused; the rest of them is whatever was in memory. */
  ghost predicate IsGarbage(garbage: seq<Slot>) {
    |garbage| == ESOCKF_ARRAY_GRANULARITY && forall i :: 0 <= i < |garbage| ==> garbage[i].unused
  }

  /** add_sockf_copy_to_array, for an fd that is not live. */
  function Added(slots: seq<Slot>, sockf: Slot, garbage: seq<Slot>): seq<Slot>
    requires garbage != []
  {
    var i := FirstUnused(slots);
    if i >= 0 then slots[i := sockf.(unused := false)]
    else slots + garbage[0 := sockf.(unused := false)]
  }

  /** remove_sockf_from_array_by_fd. */
  function Removed(slots: seq<Slot>, fd: int): seq<Slot> {
    var i := AnyIndex(slots, fd);
    if i >= 0 then slots[i := slots[i].(unused := true)] else slots
  }

  /** What the environment contributes to an open: whether the socket could be created and
      connected, and what fresh memory contains. */
  datatype Env = Env(created: bool, connected: bool, garbage: seq<Slot>)

  /** open_sockf. */
  function Opened(p: Pool, records: seq<Record>, fd: int, env: Env): Pool
    requires env.garbage != []
  {
    var r := RecordIndex(records, fd);
    if LiveIndex(p.slots, fd) >= 0 || r == -1 then p
    else
      var dual := DualIndex(p.slots, records, fd);
      if dual >= 0 then
        p.(slots := Added(p.slots, Slot(p.slots[dual].netwSocket, records[r].sock, fd, false), env.garbage))
      else if !env.created then p
      else if records[r].how.Unexpected? || !env.connected then
        p.(zmq := CloseSocket(CreateSocket(p.zmq), p.zmq.next))
      else
        Pool(Added(p.slots, Slot(p.zmq.next, records[r].sock, fd, false), env.garbage), CreateSocket(p.zmq))
  }

  /** close_sockf on slot i. */
  function Closed(p: Pool, i: nat): Pool
    requires i < |p.slots|
  {
    var s := p.slots[i];
    if Uses(p.slots, s.netwSocket) > 1 then p.(slots := Removed(p.slots, s.fsFd))
    else if s.netwSocket != NULL_SOCKET then
      Pool(Removed(p.slots[i := s.(netwSocket := NULL_SOCKET)], s.fsFd), CloseSocket(p.zmq, s.netwSocket))
    else p.(slots := Removed(p.slots, s.fsFd))
  }

  /** close_all_comm_files, from slot i on. */
  function ClosedFrom(p: Pool, i: nat): Pool
    decreases |p.slots| - i
  {
    if i >= |p.slots| then p
    else if p.slots[i].unused then ClosedFrom(p, i + 1)
    else ClosedFrom(Closed(p, LiveIndex(p.slots, p.slots[i].fsFd)), i + 1)
  }

  // ----- the invariant -----

  ghost predicate UniqueFds(records: seq<Record>) {
    forall i, j :: 0 <= i < j < |records| ==> records[i].fd != records[j].fd
  }

  /** A live fd sits at the lowest index that carries its number, whatever stale slots hold. */
  ghost predicate LiveIsLowest(slots: seq<Slot>) {
    forall j, k :: 0 <= j < k < |slots| && !slots[k].unused ==> slots[j].fsFd != slots[k].fsFd
  }

  ghost predicate InUse(slots: seq<Slot>, socket: nat) {
    exists k :: 0 <= k < |slots| && !slots[k].unused && slots[k].netwSocket == socket
  }

  /** The open sockets are exactly those of live slots. */
  ghost predicate OpenIsInUse(p: Pool) {
    forall socket: nat :: socket in p.zmq.open <==> InUse(p.slots, socket)
  }

  /** The key of the record that a live slot was opened for. */
  ghost predicate HasKey(s: Slot, records: seq<Record>, key: Key) {
    RecordIndex(records, s.fsFd) >= 0 && KeyOf(records[RecordIndex(records, s.fsFd)]) == key
  }

  /** Live slots only share a socket if their records agree on endpoint, method and type. */
  ghost predicate SharingAgrees(slots: seq<Slot>, records: seq<Record>) {
    && (forall k :: 0 <= k < |slots| && !slots[k].unused ==> RecordIndex(records, slots[k].fsFd) >= 0)
    && forall j, k :: (0 <= j < |slots| && 0 <= k < |slots| && !slots[j].unused && !slots[k].unused &&
                       slots[j].netwSocket == slots[k].netwSocket) ==>
         KeyOf(records[RecordIndex(records, slots[j].fsFd)]) == KeyOf(records[RecordIndex(records, slots[k].fsFd)])
  }

  /** Every socket that was ever created is either open or has been closed exactly once. */
  ghost predicate ClosedOnce(z: Zmq) {
    && z.next > NULL_SOCKET
    && (forall socket: nat :: socket in z.open ==> NULL_SOCKET < socket < z.next && socket !in z.closed)
    && (forall i :: 0 <= i < |z.closed| ==> NULL_SOCKET < z.closed[i] < z.next)
    && (forall i, j :: 0 <= i < j < |z.closed| ==> z.closed[i] != z.closed[j])
    && (forall socket: nat :: NULL_SOCKET < socket < z.next ==> socket in z.open || socket in z.closed)
  }

  ghost predicate Inv(p: Pool, records: seq<Record>) {
    LiveIsLowest(p.slots) && OpenIsInUse(p) && SharingAgrees(p.slots, records) && ClosedOnce(p.zmq)
  }

  /** A pool that has just been initialised. */
  ghost predicate IsInitial(p: Pool) {
    |p.slots| == ESOCKF_ARRAY_GRANULARITY && (forall i :: 0 <= i < |p.slots| ==> p.slots[i].unused)
    && p.zmq == Zmq(1, {}, [])
  }

  lemma InitialHasInv(p: Pool, records: seq<Record>)
    requires IsInitial(p)
    ensures Inv(p, records)
  {
  }

  // ----- the slots are a map from fds to sockets -----

  /** The socket of a live fd; the null socket for all others. */
  function SocketOf(slots: seq<Slot>, fd: int): nat {
    var i := LiveIndex(slots, fd);
    if i >= 0 then slots[i].netwSocket else NULL_SOCKET
  }

  /** Although it also looks at stale slots, removing finds the live slot of a live fd. */
  lemma RemoveFindsLiveSlot(slots: seq<Slot>, fd: int)
    requires LiveIsLowest(slots) && LiveIndex(slots, fd) >= 0
    ensures AnyIndex(slots, fd) == LiveIndex(slots, fd)
  {
  }

  lemma LiveIndexIs(slots: seq<Slot>, fd: int, i: int)
    requires LiveIsLowest(slots) && -1 <= i < |slots|
    requires i == -1 ==> forall j :: 0 <= j < |slots| ==> slots[j].unused || slots[j].fsFd != fd
    requires i >= 0 ==> !slots[i].unused && slots[i].fsFd == fd
    ensures LiveIndex(slots, fd) == i
  {
  }

  /** Giving up an fd, live or not, leaves every other fd alone. */
  lemma RemoveRefinesMap(slots: seq<Slot>, fd: int, g: int)
    requires LiveIsLowest(slots)
    ensures LiveIsLowest(Removed(slots, fd))
    ensures LiveIndex(Removed(slots, fd), g) == if g == fd then -1 else LiveIndex(slots, g)
    ensures SocketOf(Removed(slots, fd), g) == if g == fd then NULL_SOCKET else SocketOf(slots, g)
  {
    if LiveIndex(slots, fd) >= 0 { RemoveFindsLiveSlot(slots, fd); }
    LiveIndexIs(Removed(slots, fd), g, if g == fd then -1 else LiveIndex(slots, g));
  }

  /** Where a new fd is put. */
  function AddedAt(slots: seq<Slot>): (i: nat)
    ensures i <= |slots|
  {
    var i := FirstUnused(slots);
    if i >= 0 then i else |slots|
  }

  /** Adding an fd binds it to its socket and leaves every other fd alone. */
  lemma AddRefinesMap(slots: seq<Slot>, sockf: Slot, garbage: seq<Slot>, g: int)
    requires LiveIsLowest(slots) && LiveIndex(slots, sockf.fsFd) == -1 && IsGarbage(garbage)
    ensures LiveIsLowest(Added(slots, sockf, garbage))
    ensures SocketOf(Added(slots, sockf, garbage), g) ==
            if g == sockf.fsFd then sockf.netwSocket else SocketOf(slots, g)
  {
    LiveIndexIs(Added(slots, sockf, garbage), g,
      if g == sockf.fsFd then AddedAt(slots) else LiveIndex(slots, g));
  }

  // ----- counting uses -----

  lemma {:induction false} UsesUpdate(slots: seq<Slot>, i: nat, s: Slot, socket: nat)
    requires i < |slots|
    ensures Uses(slots[i := s], socket) == Uses(slots, socket) - UsedBy(slots[i], socket) + UsedBy(s, socket)
  {
    var last := |slots| - 1;
    if i == last {
      assert slots[i := s][..last] == slots[..last];
    } else {
      assert slots[i := s][..last] == slots[..last][i := s];
      UsesUpdate(slots[..last], i, s, socket);
    }
  }

  lemma {:induction false} UsesMeansInUse(slots: seq<Slot>, socket: nat)
    ensures Uses(slots, socket) > 0 <==> InUse(slots, socket)
  {
    if slots != [] {
      var last := |slots| - 1;
      UsesMeansInUse(slots[..last], socket);
      if InUse(slots[..last], socket) {
        var k :| 0 <= k < last && !slots[..last][k].unused && slots[..last][k].netwSocket == socket;
        assert !slots[k].unused && slots[k].netwSocket == socket;
      }
      if InUse(slots, socket) && UsedBy(slots[last], socket) == 0 {
        var k :| 0 <= k < |slots| && !slots[k].unused && slots[k].netwSocket == socket;
        assert slots[..last][k] == slots[k];
      }
      if UsedBy(slots[last], socket) == 1 {
        assert !slots[last].unused && slots[last].netwSocket == socket;
      }
    }
  }

  /** A live slot is the only user of its socket exactly if the count says so. */
  lemma LastReference(slots: seq<Slot>, i: nat)
    requires i < |slots| && !slots[i].unused
    ensures var socket := slots[i].netwSocket;
      Uses(slots, socket) >= 1 && (Uses(slots, socket) > 1 <==> InUse(slots[i := slots[i].(unused := true)], socket))
  {
    var socket, without := slots[i].netwSocket, slots[i := slots[i].(unused := true)];
    UsesUpdate(slots, i, slots[i].(unused := true), socket);
    UsesMeansInUse(without, socket);
  }

  // ----- closing -----

  lemma ClosedKeepsLength(p: Pool, i: nat)
    requires i < |p.slots|
    ensures |Closed(p, i).slots| == |p.slots|
  {
  }

  lemma ClosedSlots(p: Pool, records: seq<Record>, i: nat)
    requires Inv(p, records) && i < |p.slots| && !p.slots[i].unused
    ensures var s := p.slots[i];
      var slots' := Closed(p, i).slots;
      |slots'| == |p.slots| && slots'[i].unused && slots'[i].fsFd == s.fsFd &&
      forall j :: 0 <= j < |slots'| && j != i ==> slots'[j] == p.slots[j]
    ensures Closed(p, i).zmq ==
      if Uses(p.slots, p.slots[i].netwSocket) > 1 then p.zmq else CloseSocket(p.zmq, p.slots[i].netwSocket)
  {
    var s := p.slots[i];
    LiveIndexIs(p.slots, s.fsFd, i);
    RemoveFindsLiveSlot(p.slots, s.fsFd);
    assert InUse(p.slots, s.netwSocket);
    var slots := p.slots[i := s.(netwSocket := NULL_SOCKET)];
    LiveIndexIs(slots, s.fsFd, i);
    RemoveFindsLiveSlot(slots, s.fsFd);
  }

  /** Closing an fd closes its socket with the last reference, and not before. */
  lemma CloseKeepsInv(p: Pool, records: seq<Record>, i: nat)
    requires Inv(p, records) && i < |p.slots| && !p.slots[i].unused
    ensures Inv(Closed(p, i), records)
  {
    ClosedSlots(p, records, i);
    var p' := Closed(p, i);
    assert InUse(p.slots, p.slots[i].netwSocket);
    LessInUseKeepsSlots(p.slots, p'.slots, records, i);
    hide Closed, Added, LiveIsLowest, SharingAgrees;
    CloseKeepsSockets(p, p', i);
  }

  lemma LessInUseKeepsSlots(slots: seq<Slot>, slots': seq<Slot>, records: seq<Record>, i: nat)
    requires |slots| == |slots'| && i < |slots| && slots'[i].unused
    requires forall j :: 0 <= j < |slots'| && j != i ==> slots'[j] == slots[j]
    ensures LiveIsLowest(slots) && slots'[i].fsFd == slots[i].fsFd ==> LiveIsLowest(slots')
    ensures SharingAgrees(slots, records) ==> SharingAgrees(slots', records)
  {
    hide RecordIndex;
  }

  lemma CloseKeepsSockets(p: Pool, p': Pool, i: nat)
    requires OpenIsInUse(p) && ClosedOnce(p.zmq)
    requires i < |p.slots| == |p'.slots| && !p.slots[i].unused && p'.slots[i].unused
    requires forall j :: 0 <= j < |p'.slots| && j != i ==> p'.slots[j] == p.slots[j]
    requires p'.zmq ==
      if Uses(p.slots, p.slots[i].netwSocket) > 1 then p.zmq else CloseSocket(p.zmq, p.slots[i].netwSocket)
    requires InUse(p.slots, p.slots[i].netwSocket)
    ensures OpenIsInUse(p') && ClosedOnce(p'.zmq)
  {
    hide InUse, Uses;
    forall x: nat
      ensures InUse(p'.slots, x) <==>
        InUse(p.slots, x) && (x != p.slots[i].netwSocket || Uses(p.slots, p.slots[i].netwSocket) > 1)
    {
      UsersAfterClose(p, p', i, x);
    }
  }

  lemma UsersAfterClose(p: Pool, p': Pool, i: nat, x: nat)
    requires i < |p.slots| == |p'.slots| && !p.slots[i].unused && p'.slots[i].unused
    requires forall j :: 0 <= j < |p.slots| && j != i ==> p'.slots[j] == p.slots[j]
    ensures InUse(p'.slots, x) <==>
            InUse(p.slots, x) && (x != p.slots[i].netwSocket || Uses(p.slots, p.slots[i].netwSocket) > 1)
  {
    var without := p.slots[i := p.slots[i].(unused := true)];
    LastReference(p.slots, i);
    if k :| 0 <= k < |p'.slots| && !p'.slots[k].unused && p'.slots[k].netwSocket == x {
      assert !without[k].unused && without[k].netwSocket == x;
      assert !p.slots[k].unused && p.slots[k].netwSocket == x;
    }
    if k :| 0 <= k < |without| && !without[k].unused && without[k].netwSocket == x {
      assert !p'.slots[k].unused && p'.slots[k].netwSocket == x;
    }
    if InUse(p.slots, x) && x != p.slots[i].netwSocket {
      var k :| 0 <= k < |p.slots| && !p.slots[k].unused && p.slots[k].netwSocket == x;
      assert !p'.slots[k].unused && p'.slots[k].netwSocket == x;
    }
  }

  // ----- opening -----

  /** After adding, the new slot is live, and the other live slots are those that were live before. */
  lemma AddedSlots(slots: seq<Slot>, sockf: Slot, garbage: seq<Slot>)
    requires IsGarbage(garbage)
    ensures var slots' := Added(slots, sockf, garbage);
      var at := AddedAt(slots);
      && |slots| <= |slots'| && at < |slots'| && slots'[at] == sockf.(unused := false)
      && (at < |slots| ==> slots[at].unused)
      && (forall j :: 0 <= j < |slots| && j != at ==> slots'[j] == slots[j])
      && (forall j :: |slots| <= j < |slots'| && j != at ==> slots'[j].unused)
  {
  }

  lemma AddedUsers(slots: seq<Slot>, sockf: Slot, garbage: seq<Slot>, x: nat)
    requires IsGarbage(garbage)
    ensures InUse(Added(slots, sockf, garbage), x) <==> InUse(slots, x) || x == sockf.netwSocket
  {
    var slots', at := Added(slots, sockf, garbage), AddedAt(slots);
    AddedSlots(slots, sockf, garbage);
    if k :| 0 <= k < |slots| && !slots[k].unused && slots[k].netwSocket == x {
      assert !slots'[k].unused && slots'[k].netwSocket == x;
    }
    if x == sockf.netwSocket {
      assert !slots'[at].unused && slots'[at].netwSocket == x;
    }
    if k :| 0 <= k < |slots'| && !slots'[k].unused && slots'[k].netwSocket == x {
      if k != at { assert !slots[k].unused && slots[k].netwSocket == x; }
    }
  }

  lemma RecordIndexIs(records: seq<Record>, r: nat)
    requires UniqueFds(records) && r < |records|
    ensures RecordIndex(records, records[r].fd) == r
  {
  }

  /** A dual slot was opened for a record with the same key. */
  lemma DualAgrees(slots: seq<Slot>, records: seq<Record>, fd: int)
    requires UniqueFds(records) && DualIndex(slots, records, fd) >= 0
    ensures RecordIndex(records, fd) >= 0
    ensures HasKey(slots[DualIndex(slots, records, fd)], records, KeyOf(records[RecordIndex(records, fd)]))
  {
    var key := KeyOf(records[RecordIndex(records, fd)]);
    RecordIndexIs(records, LastRecord(records, key, 'r'));
    RecordIndexIs(records, LastRecord(records, key, 'w'));
  }

  lemma AddKeepsSharing(slots: seq<Slot>, records: seq<Record>, sockf: Slot, garbage: seq<Slot>)
    requires SharingAgrees(slots, records) && IsGarbage(garbage) && RecordIndex(records, sockf.fsFd) >= 0
    requires forall j :: 0 <= j < |slots| && !slots[j].unused && slots[j].netwSocket == sockf.netwSocket ==>
      HasKey(slots[j], records, KeyOf(records[RecordIndex(records, sockf.fsFd)]))
    ensures SharingAgrees(Added(slots, sockf, garbage), records)
  {
    AddedSlots(slots, sockf, garbage);
  }

  /** All users of a live slot's socket have that slot's key. */
  lemma SharersHaveKey(p: Pool, records: seq<Record>, i: nat, key: Key)
    requires Inv(p, records) && i < |p.slots| && !p.slots[i].unused && HasKey(p.slots[i], records, key)
    ensures p.slots[i].netwSocket in p.zmq.open
    ensures forall j :: 0 <= j < |p.slots| && !p.slots[j].unused && p.slots[j].netwSocket == p.slots[i].netwSocket ==>
      HasKey(p.slots[j], records, key)
  {
    hide RecordIndex;
    assert InUse(p.slots, p.slots[i].netwSocket);
  }

  /** No live slot uses the socket that comes next. */
  lemma NextSocketIsUnused(p: Pool, records: seq<Record>)
    requires Inv(p, records)
    ensures ClosedOnce(CreateSocket(p.zmq)) && ClosedOnce(CloseSocket(CreateSocket(p.zmq), p.zmq.next))
    ensures CloseSocket(CreateSocket(p.zmq), p.zmq.next).open == p.zmq.open
    ensures forall j :: 0 <= j < |p.slots| && !p.slots[j].unused ==> p.slots[j].netwSocket != p.zmq.next
  {
    hide RecordIndex;
    forall j | 0 <= j < |p.slots| && !p.slots[j].unused ensures p.slots[j].netwSocket in p.zmq.open {
      assert InUse(p.slots, p.slots[j].netwSocket);
    }
  }

  /** A socket is only created for an fd that cannot share one, and shared only on the same key. */
  lemma OpenKeepsInv(p: Pool, records: seq<Record>, fd: int, env: Env)
    requires UniqueFds(records) && IsGarbage(env.garbage) && Inv(p, records)
    ensures Inv(Opened(p, records, fd, env), records)
  {
    NextSocketIsUnused(p, records);
    hide Added, InUse, LiveIsLowest, SharingAgrees, ClosedOnce;
    var r := RecordIndex(records, fd);
    if LiveIndex(p.slots, fd) == -1 && r >= 0 {
      hide RecordIndex, LiveIndex, LastRecord;
      var dual := DualIndex(p.slots, records, fd);
      if dual >= 0 {
        DualAgrees(p.slots, records, fd);
        SharersHaveKey(p, records, dual, KeyOf(records[r]));
        AddSlotKeepsInv(p, records, Slot(p.slots[dual].netwSocket, records[r].sock, fd, false), env.garbage, p.zmq);
      } else if env.created && !records[r].how.Unexpected? && env.connected {
        AddSlotKeepsInv(p, records, Slot(p.zmq.next, records[r].sock, fd, false), env.garbage, CreateSocket(p.zmq));
      }
    }
  }

  lemma AddSlotKeepsInv(p: Pool, records: seq<Record>, sockf: Slot, garbage: seq<Slot>, zmq: Zmq)
    requires Inv(p, records) && IsGarbage(garbage)
    requires LiveIndex(p.slots, sockf.fsFd) == -1 && RecordIndex(records, sockf.fsFd) >= 0
    requires ClosedOnce(zmq) && zmq.open == p.zmq.open + {sockf.netwSocket}
    requires forall j :: 0 <= j < |p.slots| && !p.slots[j].unused && p.slots[j].netwSocket == sockf.netwSocket ==>
      HasKey(p.slots[j], records, KeyOf(records[RecordIndex(records, sockf.fsFd)]))
    ensures Inv(Pool(Added(p.slots, sockf, garbage), zmq), records)
  {
    AddRefinesMap(p.slots, sockf, garbage, 0);
    AddKeepsSharing(p.slots, records, sockf, garbage);
    var p' := Pool(Added(p.slots, sockf, garbage), zmq);
    forall socket: nat ensures socket in p'.zmq.open <==> InUse(p'.slots, socket) {
      AddedUsers(p.slots, sockf, garbage, socket);
    }
  }

  // ----- runs -----

  datatype Event = OpenFd(fd: int, env: Env) | CloseFd(fd: int)

  ghost predicate Possible(e: Event) {
    e.OpenFd? ==> IsGarbage(e.env.garbage)
  }

  /** A file is opened or closed by its fd; closing an fd that is not live does nothing. */
  ghost function Apply(p: Pool, records: seq<Record>, e: Event): Pool
    requires Possible(e)
  {
    match e
    case OpenFd(fd, env) => Opened(p, records, fd, env)
    case CloseFd(fd) => if LiveIndex(p.slots, fd) >= 0 then Closed(p, LiveIndex(p.slots, fd)) else p
  }

  ghost function ApplyAll(p: Pool, records: seq<Record>, events: seq<Event>): Pool
    requires forall i :: 0 <= i < |events| ==> Possible(events[i])
    decreases |events|
  {
    if events == [] then p else ApplyAll(Apply(p, records, events[0]), records, events[1..])
  }

  lemma {:induction false} EventsKeepInv(p: Pool, records: seq<Record>, events: seq<Event>)
    requires UniqueFds(records) && Inv(p, records) && forall i :: 0 <= i < |events| ==> Possible(events[i])
    ensures Inv(ApplyAll(p, records, events), records)
    decreases |events|
  {
    if events != [] {
      assert Possible(events[0]);
      match events[0] {
        case OpenFd(fd, env) => OpenKeepsInv(p, records, fd, env);
        case CloseFd(fd) => if LiveIndex(p.slots, fd) >= 0 { CloseKeepsInv(p, records, LiveIndex(p.slots, fd)); }
      }
      EventsKeepInv(Apply(p, records, events[0]), records, events[1..]);
    }
  }

  lemma {:induction false} CloseAllCloses(p: Pool, records: seq<Record>, i: nat)
    requires Inv(p, records) && i <= |p.slots| && forall j :: 0 <= j < i ==> p.slots[j].unused
    ensures var p' := ClosedFrom(p, i);
      && Inv(p', records) && p'.zmq.open == {} && p'.zmq.next == p.zmq.next
      && forall j :: 0 <= j < |p'.slots| ==> p'.slots[j].unused
    decreases |p.slots| - i
  {
    if i == |p.slots| {
      forall socket: nat ensures socket !in p.zmq.open {
        assert !InUse(p.slots, socket);
      }
    } else if p.slots[i].unused {
      CloseAllCloses(p, records, i + 1);
    } else {
      LiveIndexIs(p.slots, p.slots[i].fsFd, i);
      ClosedSlots(p, records, i);
      CloseKeepsInv(p, records, i);
      CloseAllCloses(Closed(p, i), records, i + 1);
    }
  }

  /** Over every run of opens and closes followed by close_all_comm_files, each socket that was
      created has been closed exactly once, and none is left open. */
  lemma EverySocketClosedOnce(p: Pool, records: seq<Record>, events: seq<Event>, socket: nat)
    requires IsInitial(p) && UniqueFds(records) && forall i :: 0 <= i < |events| ==> Possible(events[i])
    ensures var z := ClosedFrom(ApplyAll(p, records, events), 0).zmq;
      && z.open == {}
      && (NULL_SOCKET < socket < z.next <==> multiset(z.closed)[socket] == 1)
      && multiset(z.closed)[socket] <= 1
  {
    InitialHasInv(p, records);
    EventsKeepInv(p, records, events);
    CloseAllCloses(ApplyAll(p, records, events), records, 0);
    var z := ClosedFrom(ApplyAll(p, records, events), 0).zmq;
    DistinctMultiplicity(z.closed, socket);
  }

  lemma {:induction false} DistinctMultiplicity(s: seq<nat>, x: nat)
    requires forall i, j :: 0 <= i < j < |s| ==> s[i] != s[j]
    ensures multiset(s)[x] == if x in s then 1 else 0
  {
    if s != [] {
      DistinctMultiplicity(s[1..], x);
      assert s == [s[0]] + s[1..];
    }
  }

  /** Opening an fd that is not live binds it to the socket of its dual, or to a fresh one, and
      leaves every other fd alone; a failure changes no binding. */
  lemma OpenRefinesMap(p: Pool, records: seq<Record>, fd: int, env: Env, g: int)
    requires Inv(p, records) && IsGarbage(env.garbage)
    ensures g != fd || LiveIndex(p.slots, fd) >= 0 || RecordIndex(records, fd) == -1 ==>
      SocketOf(Opened(p, records, fd, env).slots, g) == SocketOf(p.slots, g)
    ensures LiveIndex(p.slots, fd) == -1 && RecordIndex(records, fd) >= 0 ==>
      SocketOf(Opened(p, records, fd, env).slots, fd) ==
        var dual := DualIndex(p.slots, records, fd);
        if dual >= 0 then p.slots[dual].netwSocket
        else if env.created && env.connected && !records[RecordIndex(records, fd)].how.Unexpected? then p.zmq.next
        else NULL_SOCKET
  {
    var r := RecordIndex(records, fd);
    if LiveIndex(p.slots, fd) == -1 && r >= 0 {
      var dual := DualIndex(p.slots, records, fd);
      if dual >= 0 {
        var sockf := Slot(p.slots[dual].netwSocket, records[r].sock, fd, false);
        AddRefinesMap(p.slots, sockf, env.garbage, g);
        AddRefinesMap(p.slots, sockf, env.garbage, fd);
      } else {
        var sockf := Slot(p.zmq.next, records[r].sock, fd, false);
        AddRefinesMap(p.slots, sockf, env.garbage, g);
        AddRefinesMap(p.slots, sockf, env.garbage, fd);
      }
    }
  }

  /** Closing a live fd ends its binding and leaves every other fd alone. */
  lemma CloseRefinesMap(p: Pool, records: seq<Record>, fd: int, g: int)
    requires Inv(p, records) && LiveIndex(p.slots, fd) >= 0
    ensures SocketOf(Closed(p, LiveIndex(p.slots, fd)).slots, g) ==
      if g == fd then NULL_SOCKET else SocketOf(p.slots, g)
  {
    var i := LiveIndex(p.slots, fd);
    ClosedSlots(p, records, i);
    CloseKeepsInv(p, records, i);
    LiveIndexIs(Closed(p, i).slots, g, if g == fd then -1 else LiveIndex(p.slots, g));
  }

  // ----- the pool in place -----

  datatype ErrCode = ErrOk | ErrAlreadyExist | ErrNotFound

  /** struct zeromq_pool; count_max is the length of sockfArray. */
  class ZeromqPool {
    var sockfArray: seq<Slot>
    var zmq: Zmq

    ghost function Model(): Pool
      reads this
    {
      Pool(sockfArray, zmq)
    }

    /** init_zeromq_pool. */
    constructor ()
      ensures IsInitial(Model())
    {
      sockfArray := seq(ESOCKF_ARRAY_GRANULARITY, _ => Slot(NULL_SOCKET, 0, 0, true));
      zmq := Zmq(1, {}, []);
    }

    method SockfByFd(fd: int) returns (i: int)
      ensures i == LiveIndex(sockfArray, fd)
    {
      i := 0;
      while i < |sockfArray|
        invariant 0 <= i <= |sockfArray|
        invariant forall j :: 0 <= j < i ==> sockfArray[j].unused || sockfArray[j].fsFd != fd
      {
        if !sockfArray[i].unused && sockfArray[i].fsFd == fd { return; }
        i := i + 1;
      }
      i := -1;
    }

    /** garbage is what the memory contains by which the array is extended, if it has to be. */
    method AddSockfCopyToArray(sockf: Slot, garbage: seq<Slot>) returns (err: ErrCode)
      requires IsGarbage(garbage)
      modifies this`sockfArray
      ensures LiveIndex(old(sockfArray), sockf.fsFd) >= 0 ==> err == ErrAlreadyExist && sockfArray == old(sockfArray)
      ensures LiveIndex(old(sockfArray), sockf.fsFd) == -1 ==>
        err == ErrOk && sockfArray == Added(old(sockfArray), sockf, garbage)
    {
      var live := SockfByFd(sockf.fsFd);
      if live >= 0 { return ErrAlreadyExist; }
      var sockfAdd := -1;
      FirstUnusedOfExtended(sockfArray, garbage);
      while sockfAdd == -1
        invariant sockfArray == old(sockfArray) ||
                  (sockfArray == old(sockfArray) + garbage && FirstUnused(old(sockfArray)) == -1)
        invariant sockfAdd == -1 || (sockfAdd == FirstUnused(sockfArray) && 0 <= sockfAdd < |sockfArray|)
        decreases sockfAdd == -1, |old(sockfArray)| + |garbage| - |sockfArray|
      {
        var i := 0;
        while i < |sockfArray|
          invariant 0 <= i <= |sockfArray| && forall j :: 0 <= j < i ==> !sockfArray[j].unused
          invariant sockfAdd == -1
        {
          if sockfArray[i].unused {
            sockfAdd := i;
            break;
          }
          i := i + 1;
        }
        if sockfAdd == -1 {
          sockfArray := sockfArray + garbage;
        }
      }
      sockfArray := sockfArray[sockfAdd := sockf.(unused := false)];
      err := ErrOk;
    }

    method RemoveSockfFromArrayByFd(fd: int) returns (err: ErrCode)
      modifies this`sockfArray
      ensures sockfArray == Removed(old(sockfArray), fd)
      ensures err == if AnyIndex(old(sockfArray), fd) >= 0 then ErrOk else ErrNotFound
    {
      err := ErrNotFound;
      for i := 0 to |sockfArray|
        invariant sockfArray == old(sockfArray) && err == ErrNotFound
        invariant forall j :: 0 <= j < i ==> sockfArray[j].fsFd != fd
      {
        if sockfArray[i].fsFd == fd {
          sockfArray := sockfArray[i := sockfArray[i].(unused := true)];
          return ErrOk;
        }
      }
    }

    method GetDualSockf(records: seq<Record>, fd: int) returns (dual: int)
      ensures dual == DualIndex(sockfArray, records, fd)
    {
      dual := -1;
      var r := RecordIndex(records, fd);
      if r == -1 { return; }
      var key := KeyOf(records[r]);
      var record1, record2 := -1, -1;
      for i := 0 to |records|
        invariant record1 == LastRecord(records[..i], key, 'r')
        invariant record2 == LastRecord(records[..i], key, 'w')
      {
        assert records[..i + 1][..i] == records[..i];
        if KeyOf(records[i]) == key {
          if records[i].fmode == 'r' { record1 := i; }
          if records[i].fmode == 'w' { record2 := i; }
        }
      }
      assert records[..|records|] == records;
      if record1 >= 0 && record2 >= 0 {
        var sockf1 := SockfByFd(records[record1].fd);
        var sockf2 := SockfByFd(records[record2].fd);
        if sockf1 >= 0 {
          dual := sockf1;
        } else if sockf2 >= 0 {
          dual := sockf2;
        }
      }
    }

    /** open_sockf. Adding cannot fail here, so its error branch does not show. */
    method OpenSockf(records: seq<Record>, fd: int, env: Env) returns (ok: bool)
      requires IsGarbage(env.garbage)
      modifies this
      ensures Model() == Opened(old(Model()), records, fd, env)
      ensures ok <==> LiveIndex(sockfArray, fd) >= 0
    {
      var sockf := SockfByFd(fd);
      if sockf >= 0 { return true; }
      var r := RecordIndex(records, fd);
      if r == -1 { return false; }
      var slot := Slot(NULL_SOCKET, records[r].sock, records[r].fd, false);
      var dual := GetDualSockf(records, fd);
      if dual >= 0 {
        slot := slot.(netwSocket := sockfArray[dual].netwSocket);
      } else {
        if !env.created { return false; }
        slot := slot.(netwSocket := zmq.next);
        zmq := CreateSocket(zmq);
        if records[r].how.Unexpected? || !env.connected {
          zmq := CloseSocket(zmq, slot.netwSocket);
          return false;
        }
      }
      var err := AddSockfCopyToArray(slot, env.garbage);
      assert err == ErrOk;
      AddedSlots(old(sockfArray), slot, env.garbage);
      ok := true;
    }

    /** close_sockf, on the slot that SockfByFd has found. */
    method CloseSockf(sockf: nat) returns (err: ErrCode)
      requires sockf < |sockfArray|
      modifies this
      ensures err == ErrOk && Model() == Closed(old(Model()), sockf)
    {
      var slot := sockfArray[sockf];
      var usedTwice := 0;
      for i := 0 to |sockfArray|
        invariant usedTwice == Uses(sockfArray[..i], slot.netwSocket)
      {
        assert sockfArray[..i + 1][..i] == sockfArray[..i];
        if !sockfArray[i].unused && sockfArray[i].netwSocket == slot.netwSocket {
          usedTwice := usedTwice + 1;
        }
      }
      assert sockfArray[..|sockfArray|] == sockfArray;
      if usedTwice > 1 {
        // The socket is closed later; here, only the temporary buffer is released.
      } else if slot.netwSocket != NULL_SOCKET {
        zmq := CloseSocket(zmq, slot.netwSocket);
        sockfArray := sockfArray[sockf := slot.(netwSocket := NULL_SOCKET)];
      }
      assert sockfArray[sockf].fsFd == slot.fsFd;
      err := RemoveSockfFromArrayByFd(slot.fsFd);
    }

    method CloseAllCommFiles(ghost records: seq<Record>) returns (err: ErrCode)
      requires Inv(Model(), records)
      modifies this
      ensures err == ErrOk && Model() == ClosedFrom(old(Model()), 0)
    {
      hide Added, SharingAgrees, OpenIsInUse, ClosedOnce, InUse, LiveIsLowest, Uses, Removed, Closed;
      err := ErrOk;
      var i := 0;
      while i < |sockfArray|
        invariant 0 <= i <= |sockfArray| == |old(sockfArray)| && err == ErrOk
        invariant ClosedFrom(Model(), i) == ClosedFrom(old(Model()), 0)
      {
        if !sockfArray[i].unused {
          var sockf := SockfByFd(sockfArray[i].fsFd);
          ClosedKeepsLength(Model(), sockf);
          err := CloseSockf(sockf);
        }
        if err != ErrOk { return; }
        assert ClosedFrom(Model(), i + 1) == ClosedFrom(old(Model()), 0);
        i := i + 1;
      }
    }
  }

  lemma FirstUnusedOfExtended(slots: seq<Slot>, garbage: seq<Slot>)
    requires IsGarbage(garbage)
    ensures FirstUnused(slots) == -1 ==> FirstUnused(slots + garbage) == |slots|
  {
    assert (slots + garbage)[|slots|].unused;
  }
}
