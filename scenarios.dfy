/** Clients of the model that rely on the contracts alone: end-to-end
    behaviours of the page, the subscriber limit, a broadcast line, the log
    bridge and the upload handler. */
module Scenarios {

  import Router
  import Wrappers
  import SseProtocol
  import LogBridge
  import SseServer
  import Ota

  const EventRequest: seq<char> := "GET /event HTTP/1.1\r\n\r\n"
  const PageRequest: seq<char> := "GET / HTTP/1.1\r\n\r\n"

  lemma EventRequestSubscribes()
    ensures Router.Classify(EventRequest) == Router.Subscribe
  {
    var req := EventRequest;
    assert Router.FirstSpaceAt(req, 3);
    assert req[4..][..6] == "/event";
  }

  lemma PageRequestGetsPage()
    ensures Router.Classify(PageRequest) == Router.Page
  {
    var req := PageRequest;
    assert Router.FirstSpaceAt(req, 3);
    assert req[4..][..2] == "/ ";
    assert req[4..][..6] != "/event" by { assert req[4..][..6][1] == ' '; }
  }

  /** A NUL ends the request before its space, so no URI is found and the
      request is answered 404. */
  lemma NulBeforeSpace()
    ensures Router.Uri("GET\0 /event") == Wrappers.None
    ensures Router.Classify("GET\0 /event") == Router.NotFound
  {
  }

  /** Two subscriptions fill an empty table in slot order; a third finds no slot. */
  lemma FillTable(a: int, b: int, c: int)
    requires a != 0 && b != 0
    ensures SseProtocol.Register([0, 0], a) == Wrappers.Some([a, 0])
    ensures SseProtocol.Register([a, 0], b) == Wrappers.Some([a, b])
    ensures SseProtocol.Register([a, b], c) == Wrappers.None
  {
    assert SseProtocol.FirstFree([0, 0]) == Wrappers.Some(0);
    assert [0, 0][0 := a] == [a, 0];
    assert [a, 0][1..] == [0];
    assert SseProtocol.FirstFree([a, 0]) == Wrappers.Some(1);
    assert [a, 0][1 := b] == [a, b];
    assert [a, b][1..] == [b] && [b][1..] == [];
  }

  /** A subscriber that sends GET /event again takes a second slot; the drop
      rule then empties both, and it still counts as one subscriber. */
  lemma DuplicateSubscription()
    ensures SseProtocol.Register([5, 0], 5) == Wrappers.Some([5, 5])
    ensures SseProtocol.Subscribers([5, 5]) == {5}
    ensures SseProtocol.Unregister([5, 5], 5) == [0, 0]
  {
    FillTable(5, 5, 0);
    SseProtocol.UnregisterRemoves([5, 5], 5);
    assert SseProtocol.Subscribers([0, 0]) == {};
    assert 5 in SseProtocol.Subscribers([5, 5]) by { assert [5, 5][0] == 5; }
  }

  /** A descriptor held in both slots whose second send fails: the second slot
      is emptied and the descriptor closed, yet the first slot still holds it. */
  lemma DuplicateBroadcast()
    ensures SseProtocol.AfterBroadcast([5, 5], {1}) == [5, 0]
    ensures SseProtocol.FailedRecipients([5, 5], {1}) == {5}
    ensures SseProtocol.Subscribers([5, 0]) == {5}
  {
    var r := SseProtocol.AfterBroadcast([5, 5], {1});
    assert r[0] == 5 && r[1] == 0;
    assert 5 in SseProtocol.FailedRecipients([5, 5], {1}) by { assert [5, 5][1] == 5; }
    assert 5 in SseProtocol.Subscribers([5, 0]) by { assert [5, 0][0] == 5; }
  }

  /** Two clients subscribe; a third finds both slots taken and is answered 503. */
  method SubscriberLimit(page: seq<char>) returns (r1: int, r2: int, r3: int, slots: seq<int>, last: SseServer.Io)
    ensures r1 == 0 && r2 == 0 && r3 == -1
    ensures slots == [5, 6]
    ensures last == SseServer.Send(7, Router.Busy503)
  {
    EventRequestSubscribes();
    FillTable(5, 6, 7);
    FillTable(5, 6, 0);
    var s := new SseServer.Server(3, page);
    r1 := s.ReadFromClient(5, SseServer.Received(EventRequest));
    r2 := s.ReadFromClient(6, SseServer.Received(EventRequest));
    r3 := s.ReadFromClient(7, SseServer.Received(EventRequest));
    slots := s.sseSockets[..];
    last := s.io[|s.io| - 1];
  }

  /** "GET / HTTP/1.1" is answered with the page header announcing the
      payload's length, then the payload. The result is 0, so the connection
      stays in master_set. */
  method PageFetch(page: seq<char>) returns (r: int, io: seq<SseServer.Io>, announced: Wrappers.Option<nat>)
    ensures r == 0
    ensures io == [SseServer.Send(4, Router.PageHeader(|page|)), SseServer.Send(4, page)]
    ensures announced == Wrappers.Some(|page|)
  {
    PageRequestGetsPage();
    var s := new SseServer.Server(3, page);
    r := s.ReadFromClient(4, SseServer.Received(PageRequest));
    io := s.io;
    Router.PageHeaderAnnouncesLength(|page|);
    announced := Router.ContentLengthOf(io[0].data);
  }

  /** With both slots taken and no send failing, a pass sends the event to
      slot 0 and then slot 1, and closes nothing. */
  lemma TwoSubscribersBroadcast(a: int, b: int, msg: seq<char>)
    requires a != 0 && b != 0
    ensures SseServer.BroadcastIo([a, b], {}, msg) == [SseServer.Send(a, msg), SseServer.Send(b, msg)]
  {
    assert [a, b][..1] == [a] && [a][..0] == [];
    assert SseServer.SlotIo(a, false, msg) == [SseServer.Send(a, msg)];
    assert SseServer.SlotIo(b, false, msg) == [SseServer.Send(b, msg)];
    assert SseServer.BroadcastIo([a], {}, msg) == [SseServer.Send(a, msg)];
  }

  /** With two subscribers registered, a queued log line reaches both, in
      slot order, as one event each that a client reads back as the line. */
  method LineToSubscribers(page: seq<char>, line: seq<char>) returns (io: seq<SseServer.Io>)
    requires |line| <= LogBridge.MaxLineChars && '\n' !in line
    ensures io == [SseServer.Send(5, SseProtocol.Frame(line)), SseServer.Send(6, SseProtocol.Frame(line))]
    ensures forall k :: 0 <= k < |io| ==> SseProtocol.ParseEvent(io[k].data) == Wrappers.Some(line)
  {
    FillTable(5, 6, 0);
    var s := new SseServer.Server(3, page);
    var ok := s.RegisterSubscriber(5);
    ok := s.RegisterSubscriber(6);
    var q := new LogBridge.MessageQueue(LogBridge.QueueLength);
    ok := q.SendToBack(line);
    assert q.items == [line];
    assert LogBridge.WellFormedLines([line]);
    s.io := [];
    var sent, got := s.SseTaskStep(q, {});
    TwoSubscribersBroadcast(5, 6, SseProtocol.Frame(line));
    SseProtocol.FrameParses(line);
    io := s.io;
    assert io[0].data == SseProtocol.Frame(line) && io[1].data == SseProtocol.Frame(line);
  }

  /** The bridge turns "ok\n" into the queued line "ok", forwarding all
      three characters to the console. */
  method BridgeQueuesLine() returns (queued: seq<seq<char>>, console: seq<char>, buf: seq<char>)
    ensures queued == ["ok"] && console == "ok\n" && buf == []
  {
    var q := new LogBridge.MessageQueue(LogBridge.QueueLength);
    var bridge := new LogBridge.LogBridge(q);
    assert LogBridge.Append([], 'o') == ['o'];
    assert LogBridge.Append(['o'], 'k') == ['o', 'k'];
    var r := bridge.PutChar('o');
    r := bridge.PutChar('k');
    r := bridge.PutChar('\n');
    queued, console, buf := q.items, bridge.console, bridge.logBuf;
  }

  /** A connection that closes before the whole image arrived leaves the boot
      partition as it was, and the handler fails. */
  method CutOffUpload(body: seq<Ota.byte>, steps: seq<Ota.RecvStep>, results: seq<int>)
    returns (err: int, bootBefore: Ota.Partition, bootAfter: Ota.Partition)
    requires |body| < 1000
    ensures err == Ota.EspFail && bootAfter == bootBefore
  {
    var next := Ota.Partition(0x110000, 0x90000);
    bootBefore := Ota.Partition(0x10000, 0x90000);
    var ota := new Ota.OtaFlash(next, bootBefore, results);
    var req := new Ota.HttpReq(1000, body, steps);
    var httpd := new Ota.Httpd();
    err := httpd.UploadPostHandler(req, ota);
    bootAfter := ota.bootTarget;
  }

  /** A three-byte image arrives in three receives with a timeout between
      the first two; every flash call succeeds, so the handler succeeds and
      the next partition becomes the boot partition. */
  method FullUpload(a: Ota.byte, b: Ota.byte, c: Ota.byte)
    returns (err: int, written: seq<Ota.byte>, bootAfter: Ota.Partition, next: Ota.Partition)
    ensures err == Ota.EspOk && written == [a, b, c] && bootAfter == next
  {
    next := Ota.Partition(0x110000, 0x90000);
    var steps := [Ota.Deliver(1), Ota.TimedOut, Ota.Deliver(1), Ota.Deliver(2)];
    assert Ota.Deliveries(steps[3..]) == 1;
    assert Ota.Deliveries(steps[2..]) == 2;
    assert Ota.Deliveries(steps) == 3 by { assert steps[1..][1..] == steps[2..]; }
    var ota := new Ota.OtaFlash(next, Ota.Partition(0x10000, 0x90000), [0, 0, 0, 0, 0, 0]);
    var req := new Ota.HttpReq(3, [a, b, c], steps);
    var httpd := new Ota.Httpd();
    err := httpd.UploadPostHandler(req, ota);
    written, bootAfter := ota.written, ota.bootTarget;
  }
}
