/** The subscriber slot table (sse_sockets in main/main.c) as values, and the
    Server-Sent-Event framing the broadcast loop applies. A slot holding 0 is
    empty. The class in server.dfy updates an array in place and is proved to
    agree with the functions here. */
module SseProtocol {

  import opened Wrappers
  import Router

  /** MAX_SSE_CLIENTS. */
  const MaxSseClients: nat := 2
  /** LOG_BUF_MAX_LINE_SIZE: a queued line holds at most one less character. */
  const LogBufMaxLineSize: nat := 120
  const SseBegin: seq<char> := "data: "
  const SseEnd: seq<char> := "\n\n"
  /** Size of recv_buf in sse_task: line buffer plus prefix plus terminator. */
  const RecvBufSize: nat := LogBufMaxLineSize + |SseBegin| + |SseEnd|

  /** No descriptor occupies two slots. */
  ghost predicate NoDuplicates(slots: seq<int>)
  {
    forall i, j :: 0 <= i < j < |slots| && slots[i] != 0 ==> slots[i] != slots[j]
  }

  /** The descriptors registered as subscribers. */
  ghost function Subscribers(slots: seq<int>): set<int>
  {
    set i | 0 <= i < |slots| && slots[i] != 0 :: slots[i]
  }

  /** The lowest-indexed empty slot, as the registration loop finds it. */
  function FirstFree(slots: seq<int>): (r: Option<nat>)
    ensures r.Some? ==> r.value < |slots| && slots[r.value] == 0 &&
                        forall j :: 0 <= j < r.value ==> slots[j] != 0
    ensures r.None? ==> forall j :: 0 <= j < |slots| ==> slots[j] != 0
  {
    if slots == [] then None
    else if slots[0] == 0 then Some(0)
    else match FirstFree(slots[1..])
      case None => None
      case Some(k) => Some(k + 1)
  }

  /** The table after registering fd: None when every slot is taken. */
  function Register(slots: seq<int>, fd: int): (r: Option<seq<int>>)
    ensures r.None? <==> forall j :: 0 <= j < |slots| ==> slots[j] != 0
    ensures r.Some? ==> exists k :: 0 <= k < |slots| && slots[k] == 0 &&
                          (forall j :: 0 <= j < k ==> slots[j] != 0) && r.value == slots[k := fd]
  {
    match FirstFree(slots)
    case None => None
    case Some(k) => Some(slots[k := fd])
  }

  /** The drop rule: every slot equal to fd becomes empty. */
  function Unregister(slots: seq<int>, fd: int): (r: seq<int>)
    ensures |r| == |slots|
    ensures forall i :: 0 <= i < |slots| ==> r[i] == if slots[i] == fd then 0 else slots[i]
  {
    if slots == [] then [] else [if slots[0] == fd then 0 else slots[0]] + Unregister(slots[1..], fd)
  }

  lemma RegisterKeepsNoDuplicates(slots: seq<int>, fd: int)
    requires NoDuplicates(slots)
    requires fd !in slots
    requires Register(slots, fd).Some?
    ensures NoDuplicates(Register(slots, fd).value)
  {
    var k :| 0 <= k < |slots| && slots[k] == 0 && Register(slots, fd).value == slots[k := fd];
  }

  /** Registering a new descriptor adds exactly that subscriber. */
  lemma RegisterAddsSubscriber(slots: seq<int>, fd: int)
    requires fd != 0
    requires Register(slots, fd).Some?
    ensures Subscribers(Register(slots, fd).value) == Subscribers(slots) + {fd}
  {
    var r := Register(slots, fd).value;
    var k :| 0 <= k < |slots| && slots[k] == 0 && r == slots[k := fd];
    forall x | x in Subscribers(r) ensures x in Subscribers(slots) + {fd} {
      var i :| 0 <= i < |r| && r[i] != 0 && r[i] == x;
      if i != k { assert slots[i] == x; }
    }
    forall x | x in Subscribers(slots) + {fd} ensures x in Subscribers(r) {
      if x == fd { assert r[k] == fd; }
      else {
        var i :| 0 <= i < |slots| && slots[i] != 0 && slots[i] == x;
        assert r[i] == x;
      }
    }
  }

  /** Dropping a connection right after registering it restores the table. */
  lemma RegisterThenUnregister(slots: seq<int>, fd: int)
    requires fd != 0 && fd !in slots
    requires Register(slots, fd).Some?
    ensures Unregister(Register(slots, fd).value, fd) == slots
  {
    var r := Register(slots, fd).value;
    var k :| 0 <= k < |slots| && slots[k] == 0 && r == slots[k := fd];
    var u := Unregister(r, fd);
    forall i | 0 <= i < |slots| ensures u[i] == slots[i] {
      if i != k { assert slots[i] != fd by { assert slots[i] in slots; } }
    }
  }

  /** The drop rule removes exactly fd from the subscribers, also from a
      table that holds it twice. */
  lemma UnregisterRemoves(slots: seq<int>, fd: int)
    ensures fd != 0 ==> Subscribers(Unregister(slots, fd)) == Subscribers(slots) - {fd}
  {
    var u := Unregister(slots, fd);
    if fd != 0 {
      forall x | x in Subscribers(u) ensures x in Subscribers(slots) - {fd} {
        var i :| 0 <= i < |u| && u[i] != 0 && u[i] == x;
      }
      forall x | x in Subscribers(slots) - {fd} ensures x in Subscribers(u) {
        var i :| 0 <= i < |slots| && slots[i] != 0 && slots[i] == x;
        assert u[i] == x;
      }
    }
  }

  /** The drop rule keeps a table free of duplicates. */
  lemma UnregisterKeepsNoDuplicates(slots: seq<int>, fd: int)
    requires NoDuplicates(slots)
    ensures NoDuplicates(Unregister(slots, fd))
  {
  }

  /** The descriptors a broadcast sends to, in slot order. */
  function Recipients(slots: seq<int>): (r: seq<int>)
    ensures forall x :: x in r <==> x in slots && x != 0
    ensures |r| <= |slots|
  {
    if slots == [] then []
    else (if slots[0] != 0 then [slots[0]] else []) + Recipients(slots[1..])
  }

  /** The table after a broadcast pass in which the sends of the slots in
      failing (slot indices) went wrong: those slots are emptied, all others
      are kept. Each slot's send succeeds or fails on its own, so a
      descriptor held in two slots may keep one and lose the other. */
  function AfterBroadcast(slots: seq<int>, failing: set<nat>): (r: seq<int>)
    ensures |r| == |slots|
    ensures forall i :: 0 <= i < |slots| ==> r[i] == if i in failing then 0 else slots[i]
  {
    if slots == [] then []
    else AfterBroadcast(slots[..|slots| - 1], failing) + [if |slots| - 1 in failing then 0 else slots[|slots| - 1]]
  }

  /** The descriptors a broadcast closes and removes from the master set:
      those held in a taken slot whose send failed. */
  ghost function FailedRecipients(slots: seq<int>, failing: set<nat>): set<int>
  {
    set i | 0 <= i < |slots| && slots[i] != 0 && i in failing :: slots[i]
  }

  /** In a table without duplicates, a broadcast removes exactly the
      subscribers whose send failed. */
  lemma BroadcastDropsExactlyFailed(slots: seq<int>, failing: set<nat>)
    requires NoDuplicates(slots)
    ensures Subscribers(AfterBroadcast(slots, failing)) == Subscribers(slots) - FailedRecipients(slots, failing)
  {
    var r := AfterBroadcast(slots, failing);
    forall x | x in Subscribers(r) ensures x in Subscribers(slots) - FailedRecipients(slots, failing) {
      var i :| 0 <= i < |r| && r[i] != 0 && r[i] == x;
      assert x in Subscribers(slots);
      forall j | 0 <= j < |slots| && slots[j] != 0 && j in failing ensures slots[j] != x {
        assert i != j;
      }
    }
    BroadcastKeepsSurvivors(slots, failing);
  }

  /** For every table: a broadcast only removes subscribers, and keeps every
      subscriber none of whose sends failed. */
  lemma BroadcastKeepsSurvivors(slots: seq<int>, failing: set<nat>)
    ensures Subscribers(AfterBroadcast(slots, failing)) <= Subscribers(slots)
    ensures Subscribers(slots) - FailedRecipients(slots, failing) <= Subscribers(AfterBroadcast(slots, failing))
  {
    var r := AfterBroadcast(slots, failing);
    forall x | x in Subscribers(r) ensures x in Subscribers(slots) {
      var i :| 0 <= i < |r| && r[i] != 0 && r[i] == x;
      assert slots[i] == x;
    }
    forall x | x in Subscribers(slots) - FailedRecipients(slots, failing) ensures x in Subscribers(r) {
      var i :| 0 <= i < |slots| && slots[i] != 0 && slots[i] == x;
      assert i !in failing;
      assert r[i] == x;
    }
  }

  /** A broadcast keeps a table free of duplicates. */
  lemma BroadcastKeepsNoDuplicates(slots: seq<int>, failing: set<nat>)
    requires NoDuplicates(slots)
    ensures NoDuplicates(AfterBroadcast(slots, failing))
  {
  }

  /** One event on the wire. */
  function Frame(line: seq<char>): (m: seq<char>)
    ensures |m| == |SseBegin| + |line| + |SseEnd|
    ensures Router.StartsWith(m, SseBegin) && m[|SseBegin|..|m| - |SseEnd|] == line
    ensures m[|m| - |SseEnd|..] == SseEnd
  {
    SseBegin + line + SseEnd
  }

  /** Position of the first newline of s, if any. */
  function FindNewline(s: seq<char>): (r: Option<nat>)
    ensures r.Some? ==> r.value < |s| && s[r.value] == '\n' && forall j :: 0 <= j < r.value ==> s[j] != '\n'
    ensures r.None? ==> '\n' !in s
  {
    if s == [] then None
    else if s[0] == '\n' then Some(0)
    else match FindNewline(s[1..])
      case None => None
      case Some(k) => Some(k + 1)
  }

  /** How an event-stream client reads one complete message holding a single
      data field: the text after "data: " up to the first newline, which must
      be the final blank line. */
  function ParseEvent(msg: seq<char>): Option<seq<char>>
  {
    if !Router.StartsWith(msg, SseBegin) then None
    else
      var rest := msg[|SseBegin|..];
      match FindNewline(rest)
      case None => None
      case Some(k) => if rest[k..] == SseEnd then Some(rest[..k]) else None
  }

  /** A line without a newline reaches every client intact. */
  lemma FrameParses(line: seq<char>)
    requires '\n' !in line
    ensures ParseEvent(Frame(line)) == Some(line)
  {
    var msg := Frame(line);
    assert msg[..|SseBegin|] == SseBegin;
    var rest := msg[|SseBegin|..];
    assert rest == line + SseEnd;
    assert FindNewline(rest) == Some(|line|) by {
      var f := FindNewline(rest);
      assert rest[|line|] == '\n';
    }
  }

  /** A queued line (at most LogBufMaxLineSize - 1 characters) framed, with
      the string terminator strcat adds, fits recv_buf. */
  lemma FrameFits(line: seq<char>)
    requires |line| < LogBufMaxLineSize
    ensures |Frame(line)| + 1 <= RecvBufSize
    ensures |Frame(line)| == |line| + 8
  {
  }
}
