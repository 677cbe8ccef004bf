/** When two files share a network socket, and what exactly opening and closing do, said of the
    records and the slots alone. */
module SocketSharing {
  import opened SocketPool

  ghost predicate IsLive(slots: seq<Slot>, fd: int) {
    exists k :: 0 <= k < |slots| && !slots[k].unused && slots[k].fsFd == fd
  }

  /** Another live slot than i uses this socket. */
  ghost predicate OtherUses(slots: seq<Slot>, i: nat, socket: nat) {
    exists k :: 0 <= k < |slots| && k != i && !slots[k].unused && slots[k].netwSocket == socket
  }

  /** The same endpoint, opened in the same way, with the same type of socket. */
  ghost predicate AreAlike(r: Record, r': Record) {
    r.endpoint == r'.endpoint && r.how == r'.how && r.sock == r'.sock
  }

  /** Record i is the last one like r that is opened in this mode. */
  ghost predicate IsLastAlike(records: seq<Record>, r: Record, fmode: char, i: nat) {
    && i < |records| && AreAlike(records[i], r) && records[i].fmode == fmode
    && forall j :: i < j < |records| && AreAlike(records[j], r) ==> records[j].fmode != fmode
  }

  /** The records like r have both directions, in the end with these descriptors. */
  ghost predicate IsDual(records: seq<Record>, r: Record, reader: nat, writer: nat) {
    IsLastAlike(records, r, 'r', reader) && IsLastAlike(records, r, 'w', writer)
  }

  /** A file has somebody to share with. */
  ghost predicate HasPartner(slots: seq<Slot>, records: seq<Record>, r: Record) {
    exists reader: nat, writer: nat ::
      IsDual(records, r, reader, writer) &&
      (IsLive(slots, records[reader].fd) || IsLive(slots, records[writer].fd))
  }

  /** Records g and f are the two directions of one file, and no further record is like them. */
  ghost predicate ArePair(records: seq<Record>, f: nat, g: nat) {
    && f < |records| && g < |records| && AreAlike(records[f], records[g])
    && ((records[f].fmode == 'r' && records[g].fmode == 'w') || (records[f].fmode == 'w' && records[g].fmode == 'r'))
    && forall j :: 0 <= j < |records| && AreAlike(records[j], records[f]) ==> j == f || j == g
  }

  lemma LiveIndexMeansLive(slots: seq<Slot>, fd: int)
    ensures IsLive(slots, fd) <==> LiveIndex(slots, fd) >= 0
  {
  }

  lemma LastRecordIsLast(records: seq<Record>, r: Record, fmode: char, i: nat)
    ensures IsLastAlike(records, r, fmode, i) <==> LastRecord(records, KeyOf(r), fmode) == i
  {
  }

  /** A dual socket is found if and only if there is a partner: the last reader's slot, if that is
      live, and otherwise the last writer's. */
  lemma DualIsFoundExactly(slots: seq<Slot>, records: seq<Record>, fd: int)
    requires RecordIndex(records, fd) >= 0
    ensures var r, dual := records[RecordIndex(records, fd)], DualIndex(slots, records, fd);
      && (dual >= 0 <==> HasPartner(slots, records, r))
      && forall reader: nat, writer: nat :: IsDual(records, r, reader, writer) ==>
           dual == LiveIndex(slots,
             if IsLive(slots, records[reader].fd) then records[reader].fd else records[writer].fd)
  {
    var r, dual := records[RecordIndex(records, fd)], DualIndex(slots, records, fd);
    var last1, last2 := LastRecord(records, KeyOf(r), 'r'), LastRecord(records, KeyOf(r), 'w');
    forall reader: nat, writer: nat
      ensures IsDual(records, r, reader, writer) <==> reader == last1 && writer == last2
    {
      LastRecordIsLast(records, r, 'r', reader);
      LastRecordIsLast(records, r, 'w', writer);
    }
    hide LastRecord, LiveIndex, RecordIndex, IsDual, KeyOf, IsLive;
    if last1 >= 0 && last2 >= 0 {
      LiveIndexMeansLive(slots, records[last1].fd);
      LiveIndexMeansLive(slots, records[last2].fd);
      assert IsDual(records, r, last1, last2);
    }
  }

  // ----- the whole effect of opening and closing -----

  /** Slot at is the first unused one, or the first of those that have to be added. */
  ghost predicate TakesSlot(slots: seq<Slot>, slots': seq<Slot>, at: nat) {
    && (forall j :: 0 <= j < at && j < |slots| ==> !slots[j].unused)
    && (if at < |slots| then slots[at].unused && |slots'| == |slots|
        else at == |slots| && |slots'| == |slots| + ESOCKF_ARRAY_GRANULARITY)
    && (forall j :: 0 <= j < |slots| && j != at ==> slots'[j] == slots[j])
    && (forall j :: |slots| <= j < |slots'| && j != at ==> slots'[j].unused)
  }

  lemma AddTakesSlot(slots: seq<Slot>, sockf: Slot, garbage: seq<Slot>)
    requires IsGarbage(garbage) && !sockf.unused
    ensures var slots', at := Added(slots, sockf, garbage), AddedAt(slots);
      TakesSlot(slots, slots', at) && slots'[at] == sockf
  {
  }

  /** The slot that is taken for a file, and its new contents. */
  ghost predicate Binds(slots: seq<Slot>, slots': seq<Slot>, r: Record, socket: nat) {
    exists at: nat :: TakesSlot(slots, slots', at) && slots'[at] == Slot(socket, r.sock, r.fd, false)
  }

  /** What a successful open may do, when the socket of the file has to be created. */
  ghost predicate OpensSocket(p: Pool, p': Pool, r: Record) {
    && Binds(p.slots, p'.slots, r, p.zmq.next)
    && p'.zmq.next == p.zmq.next + 1 && p'.zmq.open == p.zmq.open + {p.zmq.next} && p'.zmq.closed == p.zmq.closed
  }

  /** A socket is created, and closed again. */
  ghost predicate FailsToConnect(p: Pool, p': Pool) {
    && p'.slots == p.slots && p'.zmq.next == p.zmq.next + 1
    && p'.zmq.open == p.zmq.open && p'.zmq.closed == p.zmq.closed + [p.zmq.next]
  }

  /** Opening does nothing for a file that is open, or that has no record. Otherwise it shares the
      socket of a partner if and only if there is one, and creates one if there is none. */
  lemma OpenExactly(p: Pool, records: seq<Record>, fd: int, env: Env)
    requires Inv(p, records) && IsGarbage(env.garbage)
    ensures var p' := Opened(p, records, fd, env);
      if IsLive(p.slots, fd) || forall j :: 0 <= j < |records| ==> records[j].fd != fd then p' == p
      else
        var r := records[RecordIndex(records, fd)];
        if HasPartner(p.slots, records, r) then
          p'.zmq == p.zmq && forall reader: nat, writer: nat :: IsDual(records, r, reader, writer) ==>
            Binds(p.slots, p'.slots, r, SocketOf(p.slots,
              if IsLive(p.slots, records[reader].fd) then records[reader].fd else records[writer].fd))
        else if !env.created then p' == p
        else if r.how.Unexpected? || !env.connected then FailsToConnect(p, p')
        else OpensSocket(p, p', r)
  {
    LiveIndexMeansLive(p.slots, fd);
    var i := RecordIndex(records, fd);
    if LiveIndex(p.slots, fd) == -1 && i >= 0 {
      var r := records[i];
      DualIsFoundExactly(p.slots, records, fd);
      NextSocketIsUnused(p, records);
      var dual := DualIndex(p.slots, records, fd);
      AddTakesSlot(p.slots, Slot(if dual >= 0 then p.slots[dual].netwSocket else p.zmq.next, r.sock, fd, false),
        env.garbage);
      hide Inv, LiveIndex, RecordIndex, DualIndex, Added, TakesSlot, IsLive, IsDual;
    }
  }

  /** The two directions of a file share one socket: whichever is opened second gets the socket of
      the first, and nothing is created. What is opened first gets a socket that was never used. */
  lemma SecondDirectionShares(p: Pool, records: seq<Record>, f: nat, g: nat, env: Env)
    requires UniqueFds(records) && Inv(p, records) && IsGarbage(env.garbage)
    requires ArePair(records, f, g) && !IsLive(p.slots, records[f].fd)
    ensures var p' := Opened(p, records, records[f].fd, env);
      var socket := SocketOf(p'.slots, records[f].fd);
      if IsLive(p.slots, records[g].fd) then
        && p'.zmq == p.zmq && IsLive(p'.slots, records[f].fd)
        && socket == SocketOf(p.slots, records[g].fd) == SocketOf(p'.slots, records[g].fd) && socket in p'.zmq.open
      else if env.created && env.connected && !records[f].how.Unexpected? then
        && IsLive(p'.slots, records[f].fd) && socket in p'.zmq.open
        && socket !in p.zmq.open && socket !in p.zmq.closed
      else p'.slots == p.slots && p'.zmq.open == p.zmq.open
  {
    var fd := records[f].fd;
    RecordIndexIs(records, f);
    LiveIndexMeansLive(p.slots, fd);
    LiveIndexMeansLive(p.slots, records[g].fd);
    PairIsDual(records, f, g);
    DualIsFoundExactly(p.slots, records, fd);
    OpenRefinesMap(p, records, fd, env, fd);
    OpenRefinesMap(p, records, fd, env, records[g].fd);
    SocketsOfLive(p, records);
    OpenKeepsInv(p, records, fd, env);
    var p' := Opened(p, records, fd, env);
    SocketsOfLive(p', records);
    LiveIndexMeansLive(p'.slots, fd);
    NextSocketIsUnused(p, records);
  }

  lemma PairIsDual(records: seq<Record>, f: nat, g: nat)
    requires ArePair(records, f, g)
    ensures if records[f].fmode == 'r' then IsDual(records, records[f], f, g) else IsDual(records, records[f], g, f)
  {
  }

  /** A live file has an open socket, and all others the null socket. */
  lemma SocketsOfLive(p: Pool, records: seq<Record>)
    requires Inv(p, records)
    ensures forall fd :: if LiveIndex(p.slots, fd) >= 0 then SocketOf(p.slots, fd) in p.zmq.open
      else SocketOf(p.slots, fd) == NULL_SOCKET
    ensures NULL_SOCKET !in p.zmq.open
  {
    hide RecordIndex, LiveIndex;
    forall i | 0 <= i < |p.slots| && !p.slots[i].unused ensures p.slots[i].netwSocket in p.zmq.open {
      assert InUse(p.slots, p.slots[i].netwSocket);
    }
  }

  /** Closing a live slot only marks it, unless no other live slot uses its socket: then the socket
      is closed, and forgotten by the slot. */
  lemma CloseExactly(p: Pool, records: seq<Record>, i: nat)
    requires Inv(p, records) && i < |p.slots| && !p.slots[i].unused
    ensures var p', s := Closed(p, i), p.slots[i];
      if OtherUses(p.slots, i, s.netwSocket) then
        p'.slots == p.slots[i := Slot(s.netwSocket, s.sockType, s.fsFd, true)] && p'.zmq == p.zmq
      else
        && p'.slots == p.slots[i := Slot(NULL_SOCKET, s.sockType, s.fsFd, true)]
        && p'.zmq.next == p.zmq.next && p'.zmq.open == p.zmq.open - {s.netwSocket}
        && p'.zmq.closed == p.zmq.closed + [s.netwSocket]
  {
    var s := p.slots[i];
    OthersAreCounted(p.slots, i);
    assert InUse(p.slots, s.netwSocket);
    hide RecordIndex, Uses, InUse, OtherUses, SharingAgrees, OpenIsInUse;
    LiveIndexIs(p.slots, s.fsFd, i);
    RemoveFindsLiveSlot(p.slots, s.fsFd);
    var slots := p.slots[i := s.(netwSocket := NULL_SOCKET)];
    LiveIndexIs(slots, s.fsFd, i);
    RemoveFindsLiveSlot(slots, s.fsFd);
  }

  lemma OthersAreCounted(slots: seq<Slot>, i: nat)
    requires i < |slots| && !slots[i].unused
    ensures OtherUses(slots, i, slots[i].netwSocket) <==> Uses(slots, slots[i].netwSocket) > 1
  {
    var s := slots[i];
    var without := slots[i := s.(unused := true)];
    LastReference(slots, i);
    hide Uses;
    if k :| 0 <= k < |slots| && k != i && !slots[k].unused && slots[k].netwSocket == s.netwSocket {
      assert !without[k].unused && without[k].netwSocket == s.netwSocket;
    }
  }
}
