/** The log-to-event bridge of main/main.c: sse_logging_putchar receives every
    character of log output, forwards it to the previous console sink, and
    collects it into the line buffer log_buf; a newline moves the line onto
    the message queue q_sse_message_queue with zero wait. */
module LogBridge {

  import SseProtocol

  /** Length of q_sse_message_queue (xQueueCreate(10, ...)). */
  const QueueLength: nat := 10
  /** log_buf holds LOG_BUF_MAX_LINE_SIZE chars including the terminator. */
  const MaxLineChars: nat := SseProtocol.LogBufMaxLineSize - 1

  /** The characters of s other than NUL. */
  function NonNul(s: seq<char>): (r: seq<char>)
    ensures |r| <= |s|
    ensures forall c :: c in r ==> c in s && c != '\0'
  {
    if s == [] then []
    else NonNul(s[..|s| - 1]) + (if s[|s| - 1] == '\0' then [] else [s[|s| - 1]])
  }

  /** The first MaxLineChars elements of v. */
  function Truncate(v: seq<char>): seq<char>
  {
    if |v| <= MaxLineChars then v else v[..MaxLineChars]
  }

  /** The string in log_buf after one non-newline character: it is appended
      while strlen(log_buf) < 119; storing a NUL leaves the string as it was. */
  function Append(buf: seq<char>, c: char): (r: seq<char>)
    ensures r == buf || r == buf + [c]
    ensures |buf| <= MaxLineChars ==> |r| <= MaxLineChars
    ensures c == '\0' ==> r == buf
  {
    if |buf| < MaxLineChars && c != '\0' then buf + [c] else buf
  }

  /** The string in log_buf after the characters of a line, one call at a time. */
  function Replay(pending: seq<char>): (r: seq<char>)
    ensures |r| <= MaxLineChars && |r| <= |pending| && '\0' !in r
  {
    if pending == [] then [] else Append(Replay(pending[..|pending| - 1]), pending[|pending| - 1])
  }

  /** The buffer holds the first 119 non-NUL characters received since the last
      newline: long lines are truncated, never corrupted. */
  lemma {:induction false} ReplayIsTruncation(pending: seq<char>)
    ensures Replay(pending) == Truncate(NonNul(pending))
  {
    if pending != [] {
      var init := pending[..|pending| - 1];
      ReplayIsTruncation(init);
      var v := NonNul(init);
      if |v| > MaxLineChars {
        var w := NonNul(pending);
        assert w[..MaxLineChars] == v[..MaxLineChars];
      }
    }
  }

  /** Consequences for a reader of log_buf. */
  lemma LineIsPrefix(pending: seq<char>)
    ensures |Replay(pending)| <= MaxLineChars && |Replay(pending)| <= |NonNul(pending)|
    ensures forall c :: c in Replay(pending) ==> c in pending
    ensures Replay(pending) == NonNul(pending)[..|Replay(pending)|]
    ensures |NonNul(pending)| <= MaxLineChars ==> Replay(pending) == NonNul(pending)
  {
    ReplayIsTruncation(pending);
    var v := NonNul(pending);
    forall c | c in Replay(pending) ensures c in pending {
      assert c in v by { if |v| > MaxLineChars { var i :| 0 <= i < MaxLineChars && v[..MaxLineChars][i] == c; assert v[i] == c; } }
    }
  }

  /** The lines that may sit in the queue: short enough for the frame buffer
      and free of newlines. */
  ghost predicate WellFormedLines(lines: seq<seq<char>>)
  {
    forall i :: 0 <= i < |lines| ==> |lines[i]| <= MaxLineChars && '\n' !in lines[i]
  }

  /** Appending one more received character to the line. */
  lemma ReplaySnoc(pending: seq<char>, c: char)
    ensures Replay(pending + [c]) == Append(Replay(pending), c)
  {
    assert (pending + [c])[..|pending|] == pending;
  }

  /** A line taken from log_buf may join the queued lines. */
  lemma EnqueueKeepsWellFormed(lines: seq<seq<char>>, pending: seq<char>)
    requires WellFormedLines(lines) && '\n' !in pending
    ensures WellFormedLines(lines + [Replay(pending)])
  {
    LineIsPrefix(pending);
  }

  /** A FreeRTOS queue of lines with a fixed length. */
  class MessageQueue {
    const capacity: nat
    var items: seq<seq<char>>

    ghost predicate Valid()
      reads this
    {
      |items| <= capacity
    }

    constructor (capacity: nat)
      ensures Valid() && this.capacity == capacity && items == []
    {
      this.capacity := capacity;
      items := [];
    }

    /** xQueueSendToBack with a wait of 0: a full queue refuses the item. */
    method SendToBack(item: seq<char>) returns (ok: bool)
      requires Valid()
      modifies this
      ensures Valid()
      ensures ok <==> |old(items)| < capacity
      ensures items == if ok then old(items) + [item] else old(items)
    {
      ok := |items| < capacity;
      if ok {
        items := items + [item];
      }
    }

    /** xQueueReceive; where the source blocks on an empty queue, the model
        reports that nothing was received. */
    method Receive() returns (got: bool, item: seq<char>)
      requires Valid()
      modifies this
      ensures Valid()
      ensures got <==> old(items) != []
      ensures got ==> item == old(items)[0] && items == old(items)[1..]
      ensures !got ==> item == [] && items == old(items)
    {
      got := items != [];
      if got {
        item := items[0];
        items := items[1..];
      } else {
        item := [];
      }
    }
  }

  /** The global state sse_logging_putchar works on. */
  class LogBridge {
    const queue: MessageQueue
    /** The string held in log_buf (up to its terminator). */
    var logBuf: seq<char>
    /** Everything forwarded to the previous putchar sink. */
    var console: seq<char>
    /** The characters received since the last newline. */
    ghost var pending: seq<char>

    ghost predicate Valid()
      reads this, queue
    {
      queue.Valid() && queue.capacity == QueueLength &&
      WellFormedLines(queue.items) &&
      '\n' !in pending && logBuf == Replay(pending)
    }

    constructor (q: MessageQueue)
      requires q.Valid() && q.capacity == QueueLength && q.items == []
      ensures Valid() && queue == q && logBuf == [] && console == [] && pending == []
    {
      queue := q;
      logBuf := [];
      console := [];
      pending := [];
    }

    /** One call of sse_logging_putchar. */
    method PutChar(c: char) returns (r: int)
      requires Valid()
      modifies this, queue
      ensures Valid()
      ensures console == old(console) + [c] && r == c as int
      ensures c == '\n' ==>
        logBuf == [] && pending == [] &&
        queue.items == if |old(queue.items)| < QueueLength then old(queue.items) + [old(logBuf)] else old(queue.items)
      ensures c != '\n' ==>
        pending == old(pending) + [c] && logBuf == Append(old(logBuf), c) && queue.items == old(queue.items)
    {
      if c == '\n' {
        EnqueueKeepsWellFormed(queue.items, pending);
        var _ := queue.SendToBack(logBuf);
        logBuf := [];
        pending := [];
      } else {
        ReplaySnoc(pending, c);
        logBuf := Append(logBuf, c);
        pending := pending + [c];
      }
      console := console + [c];
      r := c as int;
    }
  }
}
