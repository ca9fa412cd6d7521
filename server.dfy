/** The raw socket server of main/main.c: read_from_client (request routing and
    subscriber registration), the broadcast pass of sse_task, and the
    per-descriptor dispatch of socket_server_task. Sockets are descriptors
    (int); every send and close is recorded, in order, in the io log. */
module SseServer {

  import opened Wrappers
  import Router
  import SseProtocol
  import LogBridge

  /** A call the server makes on a socket. */
  datatype Io = Send(fd: int, data: seq<char>) | Close(fd: int)

  /** What read() returned: an error (< 0), end of stream (0) or the bytes read. */
  datatype ReadResult = ReadFailed | PeerClosed | Received(request: seq<char>)

  /** read() never returns more than the buffer it is given. */
  predicate ReadFits(rd: ReadResult)
  {
    rd.Received? ==> 0 < |rd.request| <= Router.ReadBufSize
  }

  /** read_from_client returns -1 exactly when this holds: the read failed, the
      peer closed, or a subscription found every slot taken. */
  predicate RouterFails(slots: seq<int>, rd: ReadResult): (r: bool)
    ensures !rd.Received? ==> r
    ensures rd.Received? && Router.Classify(rd.request) != Router.Subscribe ==> !r
    ensures r && rd.Received? ==> |slots| == 0 || slots[0] != 0
  {
    !rd.Received? ||
    (Router.Classify(rd.request) == Router.Subscribe && SseProtocol.Register(slots, 0).None?)
  }

  /** The sends read_from_client makes on fd for a read that returned rd:
      nothing when the read failed or the peer closed, the 200 event-stream
      response or 503 for /event depending on whether a slot is free, the
      page header and then the page for "/", and 404 otherwise. */
  function RouterIo(slots: seq<int>, fd: int, page: seq<char>, rd: ReadResult): (r: seq<Io>)
    ensures r == [] <==> !rd.Received?
    ensures r != [] ==> r[0].Send? && r[0].fd == fd
    ensures |r| <= 2
  {
    if !rd.Received? then []
    else match Router.Classify(rd.request)
      case Subscribe =>
        if SseProtocol.Register(slots, fd).Some? then [Send(fd, Router.EventStreamOk)] else [Send(fd, Router.Busy503)]
      case Page => [Send(fd, Router.PageHeader(|page|)), Send(fd, page)]
      case NotFound => [Send(fd, Router.NotFound404)]
  }

  /** Every received request is answered on its own connection and nothing
      else is touched; the router reports failure on a received request
      exactly when it answered 503. */
  lemma RouterAnswers(slots: seq<int>, fd: int, page: seq<char>, rd: ReadResult)
    ensures RouterIo(slots, fd, page, rd) != [] <==> rd.Received?
    ensures forall e :: e in RouterIo(slots, fd, page, rd) ==> e.Send? && e.fd == fd
    ensures rd.Received? ==> (RouterFails(slots, rd) <==> RouterIo(slots, fd, page, rd) == [Send(fd, Router.Busy503)])
  {
    if rd.Received? {
      assert SseProtocol.Register(slots, 0).None? <==> SseProtocol.Register(slots, fd).None?;
      assert Router.EventStreamOk != Router.Busy503 by { assert |Router.EventStreamOk| != |Router.Busy503|; }
      assert Router.NotFound404 != Router.Busy503 by { assert |Router.NotFound404| != |Router.Busy503|; }
    }
  }

  /** The calls one broadcast slot holding fd causes: a send of the frame,
      and a close when that send fails. */
  function SlotIo(fd: int, fails: bool, msg: seq<char>): (r: seq<Io>)
    ensures r == [] <==> fd == 0
    ensures |r| <= 2 && (|r| == 2 <==> fd != 0 && fails)
  {
    if fd == 0 then [] else [Send(fd, msg)] + (if fails then [Close(fd)] else [])
  }

  /** The calls of a broadcast pass over slots (in index order), where the
      sends of the slots in failing fail. */
  function BroadcastIo(slots: seq<int>, failing: set<nat>, msg: seq<char>): (r: seq<Io>)
    ensures |r| <= 2 * |slots|
  {
    if slots == [] then []
    else BroadcastIo(slots[..|slots| - 1], failing, msg) + SlotIo(slots[|slots| - 1], |slots| - 1 in failing, msg)
  }

  /** The descriptors sent to by a sequence of calls, in order. */
  function SendTargets(io: seq<Io>): seq<int>
  {
    if io == [] then []
    else SendTargets(io[..|io| - 1]) + (if io[|io| - 1].Send? then [io[|io| - 1].fd] else [])
  }

  lemma {:induction false} SendTargetsAppend(a: seq<Io>, b: seq<Io>)
    ensures SendTargets(a + b) == SendTargets(a) + SendTargets(b)
  {
    if b != [] {
      assert (a + b)[..|a + b| - 1] == a + b[..|b| - 1];
      assert (a + b)[|a + b| - 1] == b[|b| - 1];
      SendTargetsAppend(a, b[..|b| - 1]);
    } else {
      assert a + b == a;
    }
  }

  lemma {:induction false} RecipientsSnoc(slots: seq<int>)
    requires slots != []
    ensures SseProtocol.Recipients(slots) ==
      SseProtocol.Recipients(slots[..|slots| - 1]) + (if slots[|slots| - 1] != 0 then [slots[|slots| - 1]] else [])
  {
    if |slots| > 1 {
      assert slots[1..][..|slots[1..]| - 1] == slots[..|slots| - 1][1..];
      RecipientsSnoc(slots[1..]);
    }
  }

  /** A broadcast sends to every registered subscriber, once each, in slot
      order. */
  lemma {:induction false} BroadcastSendsToRecipients(slots: seq<int>, failing: set<nat>, msg: seq<char>)
    ensures SendTargets(BroadcastIo(slots, failing, msg)) == SseProtocol.Recipients(slots)
  {
    if slots != [] {
      var k := |slots| - 1;
      var init := slots[..k];
      var last := slots[k];
      BroadcastSendsToRecipients(init, failing, msg);
      SendTargetsAppend(BroadcastIo(init, failing, msg), SlotIo(last, k in failing, msg));
      RecipientsSnoc(slots);
      var t := SlotIo(last, k in failing, msg);
      if last != 0 && k in failing {
        assert t == [Send(last, msg)] + [Close(last)];
        assert [Send(last, msg)] + [Close(last)] == [Send(last, msg), Close(last)];
        assert SendTargets([Send(last, msg), Close(last)]) == [last] by {
          assert [Send(last, msg), Close(last)][..1] == [Send(last, msg)];
          assert [Send(last, msg)][..0] == [];
          assert SendTargets([Send(last, msg)]) == [last];
        }
      } else if last != 0 {
        assert t == [Send(last, msg)];
        assert [Send(last, msg)][..0] == [];
      }
    }
  }

  /** Every call of a broadcast is on a descriptor held in a slot, and every
      send carries the frame. */
  lemma {:induction false} BroadcastCallsOnSlots(slots: seq<int>, failing: set<nat>, msg: seq<char>)
    ensures forall e :: e in BroadcastIo(slots, failing, msg) ==> e.fd != 0 && e.fd in slots
    ensures forall e :: e in BroadcastIo(slots, failing, msg) && e.Send? ==> e.data == msg
  {
    if slots != [] {
      var k := |slots| - 1;
      BroadcastCallsOnSlots(slots[..k], failing, msg);
      forall x | x in slots[..k] ensures x in slots {
        var j :| 0 <= j < k && slots[..k][j] == x;
        assert slots[j] == x;
      }
    }
  }

  /** A broadcast closes only descriptors whose send failed. */
  lemma {:induction false} BroadcastClosesFailed(slots: seq<int>, failing: set<nat>, msg: seq<char>)
    ensures forall e :: e in BroadcastIo(slots, failing, msg) && e.Close? ==> e.fd in SseProtocol.FailedRecipients(slots, failing)
  {
    if slots != [] {
      var k := |slots| - 1;
      BroadcastClosesFailed(slots[..k], failing, msg);
      FailedRecipientsSnoc(slots, k, failing);
      assert slots[..k + 1] == slots;
    }
  }

  /** The calls of a pass over one more slot are those of the shorter pass
      followed by the calls for that slot. */
  lemma BroadcastIoSnoc(slots: seq<int>, i: nat, failing: set<nat>, msg: seq<char>)
    requires i < |slots|
    ensures BroadcastIo(slots[..i + 1], failing, msg) ==
      BroadcastIo(slots[..i], failing, msg) + SlotIo(slots[i], i in failing, msg)
  {
    assert slots[..i + 1][..i] == slots[..i];
  }

  lemma FailedRecipientsSnoc(slots: seq<int>, i: nat, failing: set<nat>)
    requires i < |slots|
    ensures SseProtocol.FailedRecipients(slots[..i + 1], failing) ==
      SseProtocol.FailedRecipients(slots[..i], failing) + (if slots[i] != 0 && i in failing then {slots[i]} else {})
  {
    var a := slots[..i + 1];
    var b := slots[..i];
    forall x | x in SseProtocol.FailedRecipients(a, failing)
      ensures x in SseProtocol.FailedRecipients(b, failing) + (if slots[i] != 0 && i in failing then {slots[i]} else {})
    {
      var j :| 0 <= j < |a| && a[j] != 0 && j in failing && a[j] == x;
      if j < i { assert b[j] == x; }
    }
    forall x | x in SseProtocol.FailedRecipients(b, failing)
      ensures x in SseProtocol.FailedRecipients(a, failing)
    {
      var j :| 0 <= j < |b| && b[j] != 0 && j in failing && b[j] == x;
      assert a[j] == x;
    }
    if slots[i] != 0 && i in failing {
      assert a[i] == slots[i];
    }
  }

  class Server {
    /** server_socket. */
    const listener: int
    /** sse_sockets: MAX_SSE_CLIENTS slots, 0 meaning empty. */
    const sseSockets: array<int>
    /** The embedded gzip page, opaque. */
    const page: seq<char>
    /** master_set. */
    var masterSet: set<int>
    /** Every send and close, in order. */
    var io: seq<Io>

    ghost predicate Valid()
      reads this, sseSockets
    {
      sseSockets.Length == SseProtocol.MaxSseClients &&
      listener in masterSet &&
      listener !in SseProtocol.Subscribers(sseSockets[..])
    }

    /** The table after FD_ZERO and FD_SET of the listener. */
    constructor (listener: int, page: seq<char>)
      ensures Valid() && fresh(sseSockets)
      ensures this.listener == listener && this.page == page
      ensures sseSockets[..] == [0, 0] && masterSet == {listener} && io == []
    {
      this.listener := listener;
      this.page := page;
      var slots := new int[SseProtocol.MaxSseClients](_ => 0);
      sseSockets := slots;
      masterSet := {listener};
      io := [];
      assert slots[..] == [0, 0];
    }

    /** The slot search of read_from_client: client_fd goes into the first
        slot holding 0; ok is false when there is none. */
    method RegisterSubscriber(fd: int) returns (ok: bool)
      requires Valid() && fd != listener
      modifies sseSockets
      ensures Valid()
      ensures ok <==> SseProtocol.Register(old(sseSockets[..]), fd).Some?
      ensures ok ==> sseSockets[..] == SseProtocol.Register(old(sseSockets[..]), fd).value
      ensures !ok ==> sseSockets[..] == old(sseSockets[..])
    {
      var i := 0;
      while i < sseSockets.Length
        invariant 0 <= i <= sseSockets.Length
        invariant forall j :: 0 <= j < i ==> sseSockets[j] != 0
        invariant sseSockets[..] == old(sseSockets[..])
      {
        if sseSockets[i] == 0 {
          sseSockets[i] := fd;
          break;
        }
        i := i + 1;
      }
      ok := i < sseSockets.Length;
      var r := SseProtocol.Register(old(sseSockets[..]), fd);
      if ok {
        assert sseSockets[..] == old(sseSockets[..])[i := fd];
        var f := SseProtocol.FirstFree(old(sseSockets[..]));
        assert f == Some(i);
        assert r.Some? && r.value == sseSockets[..];
        forall x | x in SseProtocol.Subscribers(sseSockets[..]) ensures x != listener {
          var j :| 0 <= j < sseSockets.Length && sseSockets[..][j] != 0 && sseSockets[..][j] == x;
          if j != i { assert x in SseProtocol.Subscribers(old(sseSockets[..])); }
        }
      } else {
        assert r.None?;
      }
    }

    /** read_from_client(fd) for a read that returned rd. */
    method ReadFromClient(fd: int, rd: ReadResult) returns (r: int)
      requires Valid() && fd != listener && ReadFits(rd)
      modifies sseSockets, this`io
      ensures Valid()
      ensures r == (if RouterFails(old(sseSockets[..]), rd) then -1 else 0)
      ensures io == old(io) + RouterIo(old(sseSockets[..]), fd, page, rd)
      ensures !rd.Received? ==> sseSockets[..] == old(sseSockets[..]) && io == old(io)
      ensures rd.Received? && Router.Classify(rd.request) == Router.Subscribe ==>
        match SseProtocol.Register(old(sseSockets[..]), fd)
        case Some(slots) => sseSockets[..] == slots && io == old(io) + [Send(fd, Router.EventStreamOk)]
        case None => sseSockets[..] == old(sseSockets[..]) && io == old(io) + [Send(fd, Router.Busy503)]
      ensures rd.Received? && Router.Classify(rd.request) == Router.Page ==>
        sseSockets[..] == old(sseSockets[..]) &&
        io == old(io) + [Send(fd, Router.PageHeader(|page|)), Send(fd, page)]
      ensures rd.Received? && Router.Classify(rd.request) == Router.NotFound ==>
        sseSockets[..] == old(sseSockets[..]) && io == old(io) + [Send(fd, Router.NotFound404)]
    {
      ghost var before := sseSockets[..];
      assert SseProtocol.Register(before, 0).None? <==> SseProtocol.Register(before, fd).None?;
      match rd
      case ReadFailed =>
        return -1;
      case PeerClosed =>
        return -1;
      case Received(request) =>
        var route := Router.Classify(request);
        if route == Router.Subscribe {
          var ok := RegisterSubscriber(fd);
          if !ok {
            io := io + [Send(fd, Router.Busy503)];
            return -1;
          }
          io := io + [Send(fd, Router.EventStreamOk)];
        } else if route == Router.Page {
          io := io + [Send(fd, Router.PageHeader(|page|)), Send(fd, page)];
        } else {
          io := io + [Send(fd, Router.NotFound404)];
        }
        return 0;
    }

    /** The clean-up when the router returns < 0: close fd, FD_CLR it and
        empty every slot holding it. */
    method Drop(fd: int)
      requires Valid() && fd != listener
      modifies sseSockets, this`masterSet, this`io
      ensures Valid()
      ensures masterSet == old(masterSet) - {fd}
      ensures sseSockets[..] == SseProtocol.Unregister(old(sseSockets[..]), fd)
      ensures io == old(io) + [Close(fd)]
    {
      io := io + [Close(fd)];
      masterSet := masterSet - {fd};
      var i := 0;
      while i < sseSockets.Length
        invariant 0 <= i <= sseSockets.Length
        invariant forall j :: 0 <= j < i ==> sseSockets[j] == if old(sseSockets[j]) == fd then 0 else old(sseSockets[j])
        invariant forall j :: i <= j < sseSockets.Length ==> sseSockets[j] == old(sseSockets[j])
        invariant masterSet == old(masterSet) - {fd} && io == old(io) + [Close(fd)]
      {
        if sseSockets[i] == fd {
          sseSockets[i] := 0;
        }
        i := i + 1;
      }
      assert sseSockets[..] == SseProtocol.Unregister(old(sseSockets[..]), fd);
      forall x | x in SseProtocol.Subscribers(sseSockets[..]) ensures x != listener {
        var j :| 0 <= j < sseSockets.Length && sseSockets[..][j] != 0 && sseSockets[..][j] == x;
        assert x in SseProtocol.Subscribers(old(sseSockets[..]));
      }
    }

    /** One ready descriptor of the scan in socket_server_task. accepted is
        what accept() returns when fd is the listener, rd what read() returns
        otherwise. The result is false when the scan is abandoned. */
    method Dispatch(fd: int, accepted: int, rd: ReadResult) returns (continueScan: bool)
      requires Valid() && ReadFits(rd)
      modifies sseSockets, this`masterSet, this`io
      ensures Valid()
      ensures fd == listener ==>
        sseSockets[..] == old(sseSockets[..]) && io == old(io) &&
        continueScan == (accepted >= 0) &&
        masterSet == if accepted >= 0 then old(masterSet) + {accepted} else old(masterSet)
      ensures fd != listener ==>
        continueScan &&
        io == old(io) + RouterIo(old(sseSockets[..]), fd, page, rd) +
              (if RouterFails(old(sseSockets[..]), rd) then [Close(fd)] else [])
      ensures fd != listener && RouterFails(old(sseSockets[..]), rd) ==>
        masterSet == old(masterSet) - {fd} &&
        sseSockets[..] == SseProtocol.Unregister(old(sseSockets[..]), fd) &&
        |io| > 0 && io[|io| - 1] == Close(fd)
      ensures fd != listener && !RouterFails(old(sseSockets[..]), rd) ==>
        masterSet == old(masterSet) &&
        sseSockets[..] == (if Router.Classify(rd.request) == Router.Subscribe
                           then SseProtocol.Register(old(sseSockets[..]), fd).value
                           else old(sseSockets[..]))
    {
      if fd == listener {
        if accepted < 0 {
          return false;
        }
        masterSet := masterSet + {accepted};
        return true;
      }
      ghost var before := sseSockets[..];
      assert SseProtocol.Register(before, 0).None? <==> SseProtocol.Register(before, fd).None?;
      var r := ReadFromClient(fd, rd);
      if r < 0 {
        ghost var mid := sseSockets[..];
        assert mid == before;
        Drop(fd);
      }
      return true;
    }

    /** The body of the sse_task loop for one dequeued line: the frame goes
        to every non-empty slot in index order, and a slot whose send fails
        (its index is in failing) has its descriptor closed and removed from
        master_set, and is emptied. */
    method Broadcast(line: seq<char>, failing: set<nat>)
      requires Valid()
      modifies sseSockets, this`masterSet, this`io
      ensures Valid()
      ensures sseSockets[..] == SseProtocol.AfterBroadcast(old(sseSockets[..]), failing)
      ensures masterSet == old(masterSet) - SseProtocol.FailedRecipients(old(sseSockets[..]), failing)
      ensures io == old(io) + BroadcastIo(old(sseSockets[..]), failing, SseProtocol.Frame(line))
    {
      var msg := SseProtocol.Frame(line);
      ghost var slots := sseSockets[..];
      var i := 0;
      while i < sseSockets.Length
        invariant 0 <= i <= sseSockets.Length
        invariant forall j :: 0 <= j < i ==> sseSockets[j] == if j in failing then 0 else slots[j]
        invariant forall j :: i <= j < sseSockets.Length ==> sseSockets[j] == slots[j]
        invariant masterSet == old(masterSet) - SseProtocol.FailedRecipients(slots[..i], failing)
        invariant io == old(io) + BroadcastIo(slots[..i], failing, msg)
      {
        FailedRecipientsSnoc(slots, i, failing);
        BroadcastIoSnoc(slots, i, failing, msg);
        SendToSlot(i, msg, i in failing);
        i := i + 1;
      }
      assert slots[..i] == slots;
      assert sseSockets[..] == SseProtocol.AfterBroadcast(slots, failing);
      SseProtocol.BroadcastKeepsSurvivors(slots, failing);
      assert listener !in SseProtocol.FailedRecipients(slots, failing);
    }

    /** One slot of a broadcast pass: a taken slot is sent msg, and when that
        send fails its descriptor is closed, removed from master_set and the
        slot emptied. */
    method SendToSlot(i: nat, msg: seq<char>, fails: bool)
      requires i < sseSockets.Length
      modifies sseSockets, this`masterSet, this`io
      ensures var s := old(sseSockets[i]);
        && sseSockets[i] == (if fails then 0 else s)
        && masterSet == old(masterSet) - (if s != 0 && fails then {s} else {})
        && io == old(io) + SlotIo(s, fails, msg)
      ensures forall j :: 0 <= j < sseSockets.Length && j != i ==> sseSockets[j] == old(sseSockets[j])
    {
      var s := sseSockets[i];
      if s != 0 {
        io := io + [Send(s, msg)];
        if fails {
          io := io + [Close(s)];
          masterSet := masterSet - {s};
          sseSockets[i] := 0;
        }
      }
    }

    /** One turn of sse_task: take the next line from the queue and
        broadcast it. An empty queue, where sse_task would block, does
        nothing. */
    method SseTaskStep(q: LogBridge.MessageQueue, failing: set<nat>) returns (sent: bool, line: seq<char>)
      requires Valid() && q.Valid() && LogBridge.WellFormedLines(q.items)
      modifies q, sseSockets, this`masterSet, this`io
      ensures Valid() && q.Valid() && LogBridge.WellFormedLines(q.items)
      ensures sent <==> old(q.items) != []
      ensures sent ==> line == old(q.items)[0] && q.items == old(q.items)[1..]
      ensures sent ==> |SseProtocol.Frame(line)| < SseProtocol.RecvBufSize && '\n' !in line
      ensures sent ==> io == old(io) + BroadcastIo(old(sseSockets[..]), failing, SseProtocol.Frame(line))
      ensures sent ==> sseSockets[..] == SseProtocol.AfterBroadcast(old(sseSockets[..]), failing)
      ensures sent ==> masterSet == old(masterSet) - SseProtocol.FailedRecipients(old(sseSockets[..]), failing)
      ensures !sent ==> q.items == old(q.items) && sseSockets[..] == old(sseSockets[..]) && io == old(io) &&
                        masterSet == old(masterSet)
    {
      sent, line := q.Receive();
      if sent {
        SseProtocol.FrameFits(line);
        Broadcast(line, failing);
      }
    }
  }
}
