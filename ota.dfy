/** The firmware upload handler of main/httpd.c (upload_post_handler): admission
    against the size of the next OTA partition, esp_ota_begin, a loop that
    receives the body in windows of at most SCRATCH_BUFSIZE bytes and writes
    each one straight to flash, esp_ota_end and esp_ota_set_boot_partition.

    The flash layer and the request body are objects whose results come from
    scripts given when they are built, so that every sequence of outcomes the
    platform may produce is covered. The calls the handler makes are recorded
    in order, and the automaton Run below says which orders are allowed. */
module Ota {

  newtype byte = x: int | 0 <= x < 256

  const EspOk: int := 0
  const EspFail: int := -1
  /** Result codes of httpd_req_recv in ESP-IDF's esp_http_server.h. */
  const HttpdSockErrFail: int := -1
  const HttpdSockErrTimeout: int := -3
  /** SCRATCH_BUFSIZE: the receive buffer of the handler. */
  const ScratchBufSize: nat := 512

  /** C's conversion of an int to uint8_t (reduction modulo 256). */
  function ToUint8(x: int): (r: byte)
    ensures (r as int - x) % 256 == 0
  {
    (x % 256) as byte
  }

  /** The value "flash_status = -1" stores: the failed-attempt sentinel. */
  const FlashStatusFailed: byte := ToUint8(-1)

  /** The size of the next receive, MIN(remaining, SCRATCH_BUFSIZE). */
  function Window(remaining: nat): (w: nat)
    requires remaining > 0
    ensures 0 < w <= remaining && w <= ScratchBufSize
    ensures w == remaining || w == ScratchBufSize
  {
    if remaining < ScratchBufSize then remaining else ScratchBufSize
  }

  datatype Partition = Partition(address: nat, size: nat)

  /** A call of the handler on the request or on the flash layer, with its result. */
  datatype Call =
    | Recv(want: nat, result: int, data: seq<byte>)
    | OtaBegin(err: int)
    | OtaWrite(data: seq<byte>, err: int)
    | OtaEnd(err: int)
    | OtaSetBoot(err: int)

  /** Where a handler invocation stands after a sequence of calls. */
  datatype Phase =
    | Idle                                  // nothing called yet
    | Streaming(remaining: nat)             // session open, remaining bytes still to come
    | Chunk(remaining: nat, data: seq<byte>) // a chunk was received and must be written next
    | Ended                                 // esp_ota_end succeeded
    | Done(ok: bool)                        // the handler has returned
    | Broken                                // a call the protocol does not allow

  /** The upload protocol, one call at a time: begin only after admission;
      receive windows of MIN(remaining, 512); a timeout changes nothing; any
      other result <= 0 ends the attempt; every chunk is written before the
      next receive; end only when nothing remains; switch the boot partition
      only after a successful end; no call after the handler's return. */
  function Step(contentLen: nat, capacity: nat, p: Phase, c: Call): (r: Phase)
    ensures r != Idle
    ensures p.Done? || p.Broken? ==> r == Broken
    ensures p == Idle && r != Broken ==> c.OtaBegin? && contentLen <= capacity
  {
    match p
    case Idle =>
      if contentLen <= capacity && c.OtaBegin? then
        (if c.err == EspOk then Streaming(contentLen) else Done(false))
      else Broken
    case Streaming(rem) =>
      if rem > 0 && c.Recv? && c.want == Window(rem) then
        if c.result > 0 then
          (if |c.data| == c.result <= c.want then Chunk(rem, c.data) else Broken)
        else if c.result == HttpdSockErrTimeout then Streaming(rem)
        else Done(false)
      else if rem == 0 && c.OtaEnd? then
        (if c.err == EspOk then Ended else Done(false))
      else Broken
    case Chunk(rem, d) =>
      if c.OtaWrite? && c.data == d && |d| <= rem then
        (if c.err == EspOk then Streaming(rem - |d|) else Done(false))
      else Broken
    case Ended =>
      if c.OtaSetBoot? then Done(c.err == EspOk) else Broken
    case Done(_) => Broken
    case Broken => Broken
  }

  /** The phase a sequence of calls leads to. */
  function Run(contentLen: nat, capacity: nat, t: seq<Call>): (r: Phase)
    ensures r == Idle <==> t == []
  {
    if t == [] then Idle else Step(contentLen, capacity, Run(contentLen, capacity, t[..|t| - 1]), t[|t| - 1])
  }

  /** The bytes esp_ota_write accepted, in call order. */
  function Written(t: seq<Call>): seq<byte>
  {
    if t == [] then []
    else
      var c := t[|t| - 1];
      Written(t[..|t| - 1]) + (if c.OtaWrite? && c.err == EspOk then c.data else [])
  }

  lemma RunSnoc(contentLen: nat, capacity: nat, t: seq<Call>, c: Call)
    ensures Run(contentLen, capacity, t + [c]) == Step(contentLen, capacity, Run(contentLen, capacity, t), c)
    ensures Written(t + [c]) == Written(t) + (if c.OtaWrite? && c.err == EspOk then c.data else [])
  {
    assert (t + [c])[..|t|] == t;
  }

  /** The byte accounting each phase guarantees. */
  ghost predicate Accounts(contentLen: nat, t: seq<Call>, p: Phase)
  {
    match p
    case Idle => Written(t) == []
    case Streaming(rem) => |Written(t)| + rem == contentLen
    case Chunk(rem, d) => |Written(t)| + rem == contentLen && 0 < |d| <= rem && |d| <= ScratchBufSize
    case Ended => |Written(t)| == contentLen
    case Done(ok) => ok ==> |Written(t)| == contentLen
    case Broken => true
  }

  /** |written| + remaining == content_len holds throughout. */
  lemma {:induction false} RunAccounts(contentLen: nat, capacity: nat, t: seq<Call>)
    ensures Accounts(contentLen, t, Run(contentLen, capacity, t))
  {
    if t != [] {
      var init := t[..|t| - 1];
      RunAccounts(contentLen, capacity, init);
      assert t == init + [t[|t| - 1]];
      RunSnoc(contentLen, capacity, init, t[|t| - 1]);
    }
  }

  /** Once the protocol is broken it stays broken; after the handler has
      returned, any further call breaks it. */
  lemma {:induction false} BrokenStays(contentLen: nat, capacity: nat, t: seq<Call>, j: nat)
    requires j <= |t|
    requires Run(contentLen, capacity, t[..j]) == Broken || (Run(contentLen, capacity, t[..j]).Done? && j < |t|)
    ensures Run(contentLen, capacity, t) == Broken
    decreases |t| - j
  {
    if j < |t| {
      RunSnoc(contentLen, capacity, t[..j], t[j]);
      assert t[..j + 1] == t[..j] + [t[j]];
      BrokenStays(contentLen, capacity, t, j + 1);
    } else {
      assert t[..j] == t;
    }
  }

  /** The phase before call i is Run of the prefix, and call i moves it on. */
  lemma PrefixStep(contentLen: nat, capacity: nat, t: seq<Call>, i: nat)
    requires i < |t|
    ensures Run(contentLen, capacity, t[..i + 1]) == Step(contentLen, capacity, Run(contentLen, capacity, t[..i]), t[i])
    ensures Written(t[..i + 1]) == Written(t[..i]) + (if t[i].OtaWrite? && t[i].err == EspOk then t[i].data else [])
  {
    assert t[..i + 1] == t[..i] + [t[i]];
    RunSnoc(contentLen, capacity, t[..i], t[i]);
  }

  /** The phase after a receive in the streaming phase. */
  lemma AfterRecv(contentLen: nat, capacity: nat, t: seq<Call>, rem: nat, want: nat, n: int, data: seq<byte>)
    requires Run(contentLen, capacity, t) == Streaming(rem) && rem > 0 && want == Window(rem)
    requires n > 0 ==> |data| == n <= want
    ensures Run(contentLen, capacity, t + [Recv(want, n, data)]) ==
      if n > 0 then Chunk(rem, data) else if n == HttpdSockErrTimeout then Streaming(rem) else Done(false)
    ensures Written(t + [Recv(want, n, data)]) == Written(t)
  {
    RunSnoc(contentLen, capacity, t, Recv(want, n, data));
  }

  /** The phase after the write of a received chunk. */
  lemma AfterWrite(contentLen: nat, capacity: nat, t: seq<Call>, rem: nat, data: seq<byte>, e: int)
    requires Run(contentLen, capacity, t) == Chunk(rem, data) && |data| <= rem
    ensures Run(contentLen, capacity, t + [OtaWrite(data, e)]) == if e == EspOk then Streaming(rem - |data|) else Done(false)
    ensures Written(t + [OtaWrite(data, e)]) == Written(t) + (if e == EspOk then data else [])
  {
    RunSnoc(contentLen, capacity, t, OtaWrite(data, e));
  }

  /** The body splits into the bytes written so far and the bytes still unread. */
  ghost predicate SplitAt(body: seq<byte>, written: seq<byte>, unread: seq<byte>)
  {
    |written| <= |body| && written == body[..|written|] && unread == body[|written|..]
  }

  /** Taking a chunk off the front of the unread bytes and writing it keeps
      the split. */
  lemma BodySlices(body: seq<byte>, w: seq<byte>, d: seq<byte>, rest: seq<byte>)
    requires SplitAt(body, w, d + rest)
    ensures SplitAt(body, w + d, rest)
  {
  }

  /** Every receive of an allowed call sequence asks for MIN(remaining, 512)
      bytes, where remaining is content_len minus what was written before it. */
  lemma ReceiveWindows(contentLen: nat, capacity: nat, t: seq<Call>, i: nat)
    requires Run(contentLen, capacity, t) != Broken
    requires i < |t| && t[i].Recv?
    ensures |Written(t[..i])| < contentLen
    ensures t[i].want == Window(contentLen - |Written(t[..i])|)
    ensures 0 < t[i].want <= ScratchBufSize
  {
    PrefixStep(contentLen, capacity, t, i);
    if Run(contentLen, capacity, t[..i + 1]) == Broken {
      BrokenStays(contentLen, capacity, t, i + 1);
    }
    RunAccounts(contentLen, capacity, t[..i]);
  }

  /** A timeout is retried: the next call is a receive of the same size.
      Any other receive result <= 0 is the last call. */
  lemma ReceiveFailures(contentLen: nat, capacity: nat, t: seq<Call>, i: nat)
    requires Run(contentLen, capacity, t).Done?
    requires i < |t| && t[i].Recv? && t[i].result <= 0
    ensures t[i].result == HttpdSockErrTimeout ==>
      i + 1 < |t| && t[i + 1].Recv? && t[i + 1].want == t[i].want && Written(t[..i + 1]) == Written(t[..i])
    ensures t[i].result != HttpdSockErrTimeout ==> i == |t| - 1 && !Run(contentLen, capacity, t).ok
  {
    PrefixStep(contentLen, capacity, t, i);
    var p := Run(contentLen, capacity, t[..i]);
    if Run(contentLen, capacity, t[..i + 1]) == Broken {
      BrokenStays(contentLen, capacity, t, i + 1);
    }
    if t[i].result == HttpdSockErrTimeout {
      if i + 1 < |t| {
        PrefixStep(contentLen, capacity, t, i + 1);
        if Run(contentLen, capacity, t[..i + 2]) == Broken {
          BrokenStays(contentLen, capacity, t, i + 2);
        }
      }
    } else if i + 1 < |t| {
      BrokenStays(contentLen, capacity, t, i + 1);
    } else {
      assert t[..i + 1] == t;
    }
  }

  /** Each write carries exactly the chunk received by the call before it; a
      failed write is the last call. */
  lemma WritesFollowReceives(contentLen: nat, capacity: nat, t: seq<Call>, i: nat)
    requires Run(contentLen, capacity, t) != Broken
    requires i < |t| && t[i].OtaWrite?
    ensures 0 < i && t[i - 1].Recv? && t[i - 1].result > 0 && t[i - 1].data == t[i].data
    ensures t[i].err != EspOk ==> i == |t| - 1
  {
    PrefixStep(contentLen, capacity, t, i);
    if Run(contentLen, capacity, t[..i + 1]) == Broken {
      BrokenStays(contentLen, capacity, t, i + 1);
    }
    assert Run(contentLen, capacity, t[..i]).Chunk?;
    assert i > 0;
    PrefixStep(contentLen, capacity, t, i - 1);
    if t[i].err != EspOk && i + 1 < |t| {
      BrokenStays(contentLen, capacity, t, i + 1);
    }
  }

  /** The boot partition is switched only as the very last call, right after
      a successful esp_ota_end, with the whole body written. */
  lemma SetBootOnlyAfterEnd(contentLen: nat, capacity: nat, t: seq<Call>, i: nat)
    requires Run(contentLen, capacity, t) != Broken
    requires i < |t| && t[i].OtaSetBoot?
    ensures i == |t| - 1 && 0 < i && t[i - 1] == OtaEnd(EspOk)
    ensures |Written(t)| == contentLen && contentLen <= capacity
  {
    PrefixStep(contentLen, capacity, t, i);
    if Run(contentLen, capacity, t[..i + 1]) == Broken {
      BrokenStays(contentLen, capacity, t, i + 1);
    }
    assert Run(contentLen, capacity, t[..i]) == Ended;
    if i + 1 < |t| {
      BrokenStays(contentLen, capacity, t, i + 1);
    }
    assert t[..i + 1] == t;
    assert i > 0;
    PrefixStep(contentLen, capacity, t, i - 1);
    RunAccounts(contentLen, capacity, t[..i]);
    FirstCallIsBegin(contentLen, capacity, t);
  }

  /** Admission: no call at all on an oversize body, and the first call of an
      admitted one is esp_ota_begin; a failed begin is the only call. */
  lemma FirstCallIsBegin(contentLen: nat, capacity: nat, t: seq<Call>)
    requires Run(contentLen, capacity, t) != Broken && t != []
    ensures contentLen <= capacity && t[0].OtaBegin?
    ensures t[0].err != EspOk ==> t == [t[0]]
  {
    PrefixStep(contentLen, capacity, t, 0);
    assert t[..0] == [];
    if Run(contentLen, capacity, t[..1]) == Broken || (t[0].err != EspOk && |t| > 1) {
      BrokenStays(contentLen, capacity, t, 1);
    }
  }

  /** A successful run made the whole protocol: begin, the body, end, boot switch. */
  lemma SuccessfulRun(contentLen: nat, capacity: nat, t: seq<Call>)
    requires Run(contentLen, capacity, t) == Done(true)
    ensures contentLen <= capacity && |Written(t)| == contentLen
    ensures |t| >= 3 && t[0] == OtaBegin(EspOk)
    ensures t[|t| - 2] == OtaEnd(EspOk) && t[|t| - 1] == OtaSetBoot(EspOk)
  {
    var init := t[..|t| - 1];
    assert t == init + [t[|t| - 1]];
    RunSnoc(contentLen, capacity, init, t[|t| - 1]);
    assert Run(contentLen, capacity, init) == Ended;
    SetBootOnlyAfterEnd(contentLen, capacity, t, |t| - 1);
    FirstCallIsBegin(contentLen, capacity, t);
  }

  function NextResult(results: seq<int>): int
  {
    if results == [] then EspOk else results[0]
  }

  function RestResults(results: seq<int>): seq<int>
  {
    if results == [] then [] else results[1..]
  }

  /** Every scripted flash result is ESP_OK. */
  ghost predicate AllOk(results: seq<int>)
  {
    forall i :: 0 <= i < |results| ==> results[i] == EspOk
  }

  /** The esp_ota_* layer: one partition written through a session, and the
      partition the device boots. results holds what the coming calls
      return (0 is ESP_OK); once it is used up every call succeeds. */
  class OtaFlash {
    const next: Partition
    var begun: bool
    var written: seq<byte>
    var bootTarget: Partition
    var results: seq<int>

    constructor (next: Partition, bootTarget: Partition, results: seq<int>)
      ensures this.next == next && this.bootTarget == bootTarget && this.results == results
      ensures !begun && written == []
    {
      this.next := next;
      this.bootTarget := bootTarget;
      this.results := results;
      begun := false;
      written := [];
    }

    method TakeResult() returns (err: int)
      modifies this`results
      ensures err == NextResult(old(results)) && results == RestResults(old(results))
    {
      err := NextResult(results);
      results := RestResults(results);
    }

    /** esp_ota_begin: a session opens with nothing written. */
    method Begin() returns (err: int)
      modifies this
      ensures err == NextResult(old(results)) && results == RestResults(old(results))
      ensures bootTarget == old(bootTarget)
      ensures err == EspOk ==> begun && written == []
      ensures err != EspOk ==> begun == old(begun) && written == old(written)
    {
      err := TakeResult();
      if err == EspOk {
        begun := true;
        written := [];
      }
    }

    /** esp_ota_write: on success the bytes follow what the session holds. */
    method Write(data: seq<byte>) returns (err: int)
      requires begun
      modifies this
      ensures err == NextResult(old(results)) && results == RestResults(old(results))
      ensures begun && bootTarget == old(bootTarget)
      ensures written == if err == EspOk then old(written) + data else old(written)
    {
      err := TakeResult();
      if err == EspOk {
        written := written + data;
      }
    }

    /** esp_ota_end: closes the session; its result says whether the image
        validated. */
    method End() returns (err: int)
      requires begun
      modifies this
      ensures err == NextResult(old(results)) && results == RestResults(old(results))
      ensures !begun && written == old(written) && bootTarget == old(bootTarget)
    {
      err := TakeResult();
      begun := false;
    }

    /** esp_ota_set_boot_partition. */
    method SetBootPartition(p: Partition) returns (err: int)
      modifies this
      ensures err == NextResult(old(results)) && results == RestResults(old(results))
      ensures begun == old(begun) && written == old(written)
      ensures bootTarget == if err == EspOk then p else old(bootTarget)
    {
      err := TakeResult();
      if err == EspOk {
        bootTarget := p;
      }
    }
  }

  /** How one httpd_req_recv call behaves: deliver at most max bytes, time
      out, or fail. */
  datatype RecvStep = Deliver(max: nat) | TimedOut | SockFail

  /** No receive of the script fails outright: each one delivers or times out. */
  ghost predicate NeverFails(steps: seq<RecvStep>)
  {
    forall i :: 0 <= i < |steps| ==> steps[i] == TimedOut || (steps[i].Deliver? && steps[i].max > 0)
  }

  /** The number of receives of the script that deliver bytes (while the
      client still has bytes to send). */
  function Deliveries(steps: seq<RecvStep>): (r: nat)
    ensures r <= |steps|
  {
    if steps == [] then 0
    else (if steps[0].Deliver? && steps[0].max > 0 then 1 else 0) + Deliveries(steps[1..])
  }

  /** A client that still sends at least remaining bytes, with enough
      receives that deliver them and none that fails. */
  ghost predicate Cooperative(remaining: nat, body: seq<byte>, steps: seq<RecvStep>)
  {
    NeverFails(steps) && Deliveries(steps) >= remaining && |body| >= remaining
  }

  /** The upload request: its declared length, the bytes the client still
      sends, and how the coming receive calls behave. When the script is used
      up the connection is closed. */
  class HttpReq {
    const contentLen: nat
    var body: seq<byte>
    var steps: seq<RecvStep>

    constructor (contentLen: nat, body: seq<byte>, steps: seq<RecvStep>)
      ensures this.contentLen == contentLen && this.body == body && this.steps == steps
    {
      this.contentLen := contentLen;
      this.body := body;
      this.steps := steps;
    }

    /** httpd_req_recv(req, buf, want): the number of bytes received and the
        bytes, or 0 for a closed connection, or a negative error code. */
    method Recv(want: nat) returns (n: int, data: seq<byte>)
      requires want > 0
      modifies this
      ensures n > 0 ==> |data| == n <= want && old(body) == data + body
      ensures n <= 0 ==> data == [] && body == old(body)
      ensures n >= 0 || n == HttpdSockErrTimeout || n == HttpdSockErrFail
      ensures old(steps) == [] ==> n == 0 && steps == []
      ensures old(steps) != [] ==> steps == old(steps)[1..]
      ensures old(steps) != [] && old(steps)[0] == TimedOut ==> n == HttpdSockErrTimeout
      ensures old(steps) != [] && old(steps)[0].Deliver? && old(steps)[0].max > 0 && old(body) != [] ==> n > 0
    {
      if steps == [] {
        return 0, [];
      }
      var s := steps[0];
      steps := steps[1..];
      match s
      case Deliver(max) =>
        var k := if want < max then want else max;
        k := if k < |body| then k else |body|;
        data := body[..k];
        body := body[k..];
        n := k;
      case TimedOut =>
        n, data := HttpdSockErrTimeout, [];
      case SockFail =>
        n, data := HttpdSockErrFail, [];
    }
  }

  /** The module state of httpd.c and its upload handler. */
  class Httpd {
    /** flash_status. */
    var flashStatus: byte
    /** The calls of the latest handler invocation, in order. */
    ghost var calls: seq<Call>

    constructor ()
      ensures flashStatus == 0 && calls == []
    {
      flashStatus := 0;
      calls := [];
    }

    /** upload_post_handler. */
    method UploadPostHandler(req: HttpReq, ota: OtaFlash) returns (err: int)
      modifies this, req, ota
      ensures flashStatus == FlashStatusFailed
      ensures err == EspOk || err == EspFail
      ensures req.contentLen > ota.next.size ==>
        err == EspFail && calls == [] &&
        ota.begun == old(ota.begun) && ota.written == old(ota.written) && ota.results == old(ota.results) &&
        req.body == old(req.body) && req.steps == old(req.steps)
      ensures req.contentLen <= ota.next.size ==> Run(req.contentLen, ota.next.size, calls) == Done(err == EspOk)
      ensures (req.contentLen <= ota.next.size && AllOk(old(ota.results)) &&
               Cooperative(req.contentLen, old(req.body), old(req.steps))) ==> err == EspOk
      ensures ota.bootTarget == if err == EspOk then ota.next else old(ota.bootTarget)
      ensures calls != [] && calls[0] == OtaBegin(EspOk) ==>
        ota.written == Written(calls) && ota.written <= old(req.body)
      ensures err == EspOk ==> |ota.written| == req.contentLen && ota.written <= old(req.body)
      ensures calls != [] && calls[0] == OtaBegin(EspOk) ==>
        (ota.begun <==> !calls[|calls| - 1].OtaEnd? && !calls[|calls| - 1].OtaSetBoot?)
    {
      flashStatus := ToUint8(-1);
      calls := [];
      var contentLen := req.contentLen;
      var capacity := ota.next.size;
      if contentLen > capacity {
        return EspFail;
      }
      var e := ota.Begin();
      RunSnoc(contentLen, capacity, calls, OtaBegin(e));
      calls := calls + [OtaBegin(e)];
      if e != EspOk {
        return EspFail;
      }
      var ok := ReceiveBody(req, ota);
      if !ok {
        return EspFail;
      }
      RunAccounts(contentLen, capacity, calls);
      err := Finish(req, ota);
    }

    /** The end of upload_post_handler once the whole body is written:
        esp_ota_end, then esp_ota_set_boot_partition only if that succeeded. */
    method Finish(req: HttpReq, ota: OtaFlash) returns (err: int)
      requires ota.begun && calls != [] && calls[0] == OtaBegin(EspOk)
      requires Run(req.contentLen, ota.next.size, calls) == Streaming(0)
      requires ota.written == Written(calls)
      modifies this`calls, ota
      ensures err == EspOk || err == EspFail
      ensures Run(req.contentLen, ota.next.size, calls) == Done(err == EspOk)
      ensures ota.bootTarget == if err == EspOk then ota.next else old(ota.bootTarget)
      ensures calls != [] && calls[0] == OtaBegin(EspOk)
      ensures ota.written == old(ota.written) && Written(calls) == old(Written(calls))
      ensures AllOk(old(ota.results)) ==> err == EspOk
      ensures !ota.begun && (calls[|calls| - 1].OtaEnd? || calls[|calls| - 1].OtaSetBoot?)
    {
      var contentLen := req.contentLen;
      var capacity := ota.next.size;
      var e := ota.End();
      RunSnoc(contentLen, capacity, calls, OtaEnd(e));
      calls := calls + [OtaEnd(e)];
      if e != EspOk {
        return EspFail;
      }
      e := ota.SetBootPartition(ota.next);
      RunSnoc(contentLen, capacity, calls, OtaSetBoot(e));
      calls := calls + [OtaSetBoot(e)];
      if e != EspOk {
        return EspFail;
      }
      return EspOk;
    }

    /** The state the receive loop keeps: the session is open and the boot
        partition untouched; the calls so far are an allowed run that is
        streaming with remaining bytes to come; |written| + remaining ==
        content_len; the written bytes are the front of the body and the
        unread bytes the rest; and with a cooperative client and a flash layer
        that never fails, the loop is still on track to finish. */
    ghost predicate Receiving(req: HttpReq, ota: OtaFlash, remaining: nat, body0: seq<byte>, boot0: Partition, coop: bool)
      reads this, req, ota
    {
      remaining <= req.contentLen && ota.begun && ota.bootTarget == boot0 &&
      calls != [] && calls[0] == OtaBegin(EspOk) &&
      Run(req.contentLen, ota.next.size, calls) == Streaming(remaining) &&
      ota.written == Written(calls) && |ota.written| + remaining == req.contentLen &&
      SplitAt(body0, ota.written, req.body) &&
      (coop ==> AllOk(ota.results) && Cooperative(remaining, req.body, req.steps))
    }

    /** The receive loop of upload_post_handler: while bytes remain, receive
        a window, retry on timeout, give up on any other result <= 0, write
        the chunk and give up if the write fails. */
    method ReceiveBody(req: HttpReq, ota: OtaFlash) returns (ok: bool)
      requires req.contentLen <= ota.next.size
      requires ota.begun && ota.written == [] && calls == [OtaBegin(EspOk)]
      modifies this`calls, req, ota
      ensures ota.bootTarget == old(ota.bootTarget)
      ensures calls != [] && calls[0] == OtaBegin(EspOk)
      ensures ota.written == Written(calls) && ota.written <= old(req.body)
      ensures ok ==> ota.begun && Run(req.contentLen, ota.next.size, calls) == Streaming(0)
      ensures !ok ==> Run(req.contentLen, ota.next.size, calls) == Done(false)
      ensures ota.begun && (!ok ==> calls[|calls| - 1].Recv? || calls[|calls| - 1].OtaWrite?)
      ensures AllOk(old(ota.results)) && Cooperative(req.contentLen, old(req.body), old(req.steps)) ==>
        ok && AllOk(ota.results)
    {
      RunSnoc(req.contentLen, ota.next.size, [], OtaBegin(EspOk));
      assert [] + [OtaBegin(EspOk)] == calls;
      ghost var body0 := req.body;
      ghost var coop := AllOk(ota.results) && Cooperative(req.contentLen, req.body, req.steps);
      var remaining: nat := req.contentLen;
      while remaining > 0
        invariant Receiving(req, ota, remaining, body0, old(ota.bootTarget), coop)
        decreases |req.steps|
      {
        var progress, failed := ReceivePass(req, ota, remaining, body0, old(ota.bootTarget), coop);
        if failed {
          return false;
        }
        remaining := remaining - progress;
      }
      return true;
    }

    /** One pass of the receive loop. A timeout makes no progress (the
        source's continue); any other result <= 0 and a failed write end the
        attempt, which cannot happen with a cooperative client and a flash
        layer that never fails. */
    method ReceivePass(req: HttpReq, ota: OtaFlash, remaining: nat, ghost body0: seq<byte>, ghost boot0: Partition, ghost coop: bool)
      returns (progress: nat, failed: bool)
      requires remaining > 0 && Receiving(req, ota, remaining, body0, boot0, coop)
      modifies this`calls, req, ota
      ensures !failed ==>
        progress <= remaining && Receiving(req, ota, remaining - progress, body0, boot0, coop) &&
        |req.steps| < |old(req.steps)|
      ensures failed ==>
        !coop && ota.bootTarget == boot0 && calls != [] && calls[0] == OtaBegin(EspOk) &&
        ota.written == Written(calls) && ota.written <= body0 &&
        Run(req.contentLen, ota.next.size, calls) == Done(false) &&
        ota.begun && (calls[|calls| - 1].Recv? || calls[|calls| - 1].OtaWrite?)
    {
      ghost var w := ota.written;
      var n, data := ReceiveWindow(req, ota.next.size, remaining);
      if n <= 0 {
        if n == HttpdSockErrTimeout {
          return 0, false;
        }
        return 0, true;
      }
      var e := WriteChunk(ota, req.contentLen, remaining, data);
      if e != EspOk {
        return 0, true;
      }
      BodySlices(body0, w, data, req.body);
      return n, false;
    }

    /** One httpd_req_recv of MIN(remaining, SCRATCH_BUFSIZE) bytes, logged. */
    method ReceiveWindow(req: HttpReq, capacity: nat, remaining: nat) returns (n: int, data: seq<byte>)
      requires remaining > 0 && calls != []
      requires Run(req.contentLen, capacity, calls) == Streaming(remaining)
      modifies this`calls, req
      ensures calls == old(calls) + [Recv(Window(remaining), n, data)]
      ensures Run(req.contentLen, capacity, calls) ==
        if n > 0 then Chunk(remaining, data) else if n == HttpdSockErrTimeout then Streaming(remaining) else Done(false)
      ensures Written(calls) == Written(old(calls))
      ensures n > 0 ==> |data| == n <= remaining && old(req.body) == data + req.body
      ensures n <= 0 ==> req.body == old(req.body)
      ensures (n > 0 || n == HttpdSockErrTimeout) ==> |req.steps| < |old(req.steps)|
      ensures Cooperative(remaining, old(req.body), old(req.steps)) ==>
        (n == HttpdSockErrTimeout && Cooperative(remaining, req.body, req.steps)) ||
        (0 < n <= remaining && Cooperative(remaining - n, req.body, req.steps))
    {
      var want := Window(remaining);
      n, data := req.Recv(want);
      AfterRecv(req.contentLen, capacity, calls, remaining, want, n, data);
      calls := calls + [Recv(want, n, data)];
    }

    /** One esp_ota_write of a received chunk, logged. */
    method WriteChunk(ota: OtaFlash, contentLen: nat, remaining: nat, data: seq<byte>) returns (e: int)
      requires ota.begun && calls != [] && |data| <= remaining
      requires Run(contentLen, ota.next.size, calls) == Chunk(remaining, data)
      requires ota.written == Written(calls)
      modifies this`calls, ota
      ensures calls == old(calls) + [OtaWrite(data, e)]
      ensures ota.begun && ota.bootTarget == old(ota.bootTarget)
      ensures Run(contentLen, ota.next.size, calls) == if e == EspOk then Streaming(remaining - |data|) else Done(false)
      ensures ota.written == Written(calls)
      ensures ota.written == if e == EspOk then old(ota.written) + data else old(ota.written)
      ensures AllOk(old(ota.results)) ==> e == EspOk && AllOk(ota.results)
    {
      e := ota.Write(data);
      AfterWrite(contentLen, ota.next.size, calls, remaining, data, e);
      calls := calls + [OtaWrite(data, e)];
    }
  }
}
