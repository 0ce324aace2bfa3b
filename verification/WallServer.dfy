/** The wall server: its message queue, and the line reader of its connections. */
module WallServer {
  import opened Bytes
  import opened Paths

  // ---------- the message queue ----------

  /** The last `n` elements of `s`, or all of them. */
  function LastOf<T>(s: seq<T>, n: nat): seq<T> {
    if |s| <= n then s else s[|s| - n..]
  }

  /** The slots from `head` up to `tail`, around the end of the array. */
  function Ring<T>(q: seq<T>, head: nat, tail: nat): seq<T>
    requires head < |q| && tail < |q|
  {
    if head <= tail then q[head..tail] else q[head..] + q[..tail]
  }

  /** The slot after `k`. */
  function After(k: nat, length: nat): nat
    requires k < length
  {
    if k + 1 == length then 0 else k + 1
  }

  /** Filling the slot at `tail` appends; when the queue was full the oldest message goes. */
  lemma RingPost<T>(q: seq<T>, head: nat, tail: nat, x: T)
    requires |q| >= 2 && head < |q| && tail < |q|
    ensures var q', tail' := q[tail := x], After(tail, |q|);
            var head' := if head == tail' then After(head, |q|) else head;
            Ring(q', head', tail') == LastOf(Ring(q, head, tail) + [x], |q| - 1)
  {
    if head <= tail {
      RingPostAhead(q, head, tail, x);
    } else {
      RingPostWrapped(q, head, tail, x);
    }
  }

  lemma RingPostAhead<T>(q: seq<T>, head: nat, tail: nat, x: T)
    requires |q| >= 2 && head <= tail < |q|
    ensures var q', tail' := q[tail := x], After(tail, |q|);
            var head' := if head == tail' then After(head, |q|) else head;
            Ring(q', head', tail') == LastOf(Ring(q, head, tail) + [x], |q| - 1)
  {
    var q' := q[tail := x];
    var full := q[head..tail] + [x];
    assert q'[head..tail + 1] == full;
    if tail + 1 == |q| {
      assert q'[head..] == full && q'[..0] == [];
      assert head == 0 ==> q'[1..] == full[1..];
    }
  }

  lemma RingPostWrapped<T>(q: seq<T>, head: nat, tail: nat, x: T)
    requires |q| >= 2 && tail < head < |q|
    ensures var q', tail' := q[tail := x], After(tail, |q|);
            var head' := if head == tail' then After(head, |q|) else head;
            Ring(q', head', tail') == LastOf(Ring(q, head, tail) + [x], |q| - 1)
  {
    var q' := q[tail := x];
    var full := q[head..] + q[..tail] + [x];
    assert q'[head..] == q[head..] && q'[..tail + 1] == q[..tail] + [x];
    assert q'[head..] + q'[..tail + 1] == full;
    if head == tail + 1 {
      assert q'[head + 1..] + q'[..tail + 1] == full[1..];
    }
  }

  /** A circular queue with one slot more than it holds messages; full, it drops the oldest. */
  class Wall {
    var queue: array<string>
    var head: nat
    var tail: nat
    /** All messages posted since the wall was last cleared. */
    ghost var posts: seq<string>

    ghost function Contents(): seq<string>
      reads this, queue
      requires head < queue.Length && tail < queue.Length
    {
      Ring(queue[..], head, tail)
    }

    ghost predicate Valid()
      reads this, queue
    {
      queue.Length >= 2 && head < queue.Length && tail < queue.Length
      && Contents() == LastOf(posts, queue.Length - 1)
    }

    constructor (queueSize: nat)
      requires queueSize > 0
      ensures Valid() && fresh(queue) && queue.Length == queueSize + 1 && posts == []
    {
      queue := new string[queueSize + 1](_ => "");
      head, tail := 0, 0;
      posts := [];
    }

    method Clear()
      requires Valid()
      modifies `tail, `posts
      ensures Valid() && posts == [] && Contents() == []
    {
      tail := head;
      posts := [];
    }

    method Post(message: string)
      requires Valid()
      modifies this, queue
      ensures Valid() && queue == old(queue) && posts == old(posts) + [message]
      ensures Contents() == LastOf(old(Contents()) + [message], queue.Length - 1)
    {
      hide Ring, LastOf;
      ghost var before := Contents();
      RingPost(queue[..], head, tail, message);
      ghost var filled := queue[..][tail := message];
      queue[tail] := message;
      assert queue[..] == filled;
      tail := tail + 1;
      if tail == queue.Length {
        tail := 0;
      }
      if head == tail {
        head := head + 1;
        if head == queue.Length {
          head := 0;
        }
      }
      posts := posts + [message];
      LastOfLast(old(posts), message, queue.Length - 1);
    }

    /** The wall listing: every message from `head` to `tail`. */
    method Show() returns (out: seq<string>)
      requires Valid()
      ensures out == LastOf(posts, queue.Length - 1)
      ensures |out| == (if |posts| < queue.Length then |posts| else queue.Length - 1)
      ensures out == posts[|posts| - |out|..]
    {
      out := [];
      var m := head;
      while m != tail
        invariant 0 <= m < queue.Length
        invariant if head <= tail then head <= m <= tail else head <= m || m <= tail
        invariant out == if head <= m then queue[head..m] else queue[head..] + queue[..m]
        decreases if m <= tail then tail - m else queue.Length - m + tail
      {
        out := out + [queue[m]];
        m := m + 1;
        if m == queue.Length {
          m := 0;
        }
      }
    }
  }

  lemma LastOfLast<T>(s: seq<T>, x: T, n: nat)
    requires n > 0
    ensures LastOf(LastOf(s, n) + [x], n) == LastOf(s + [x], n)
  {
  }

  // ---------- the line reader ----------

  const READ_MAX: nat := 80
  const NEWLINE: byte := 10

  function Concat(chunks: seq<seq<byte>>): seq<byte> {
    if chunks == [] then [] else chunks[0] + Concat(chunks[1..])
  }

  /** What a buffer of `size` bytes keeps of a line: the NUL takes one byte. */
  function Kept(line: seq<byte>, size: nat): seq<byte>
    requires size > 0
  {
    if |line| < size then line else line[..size - 1]
  }

  /** `dest` holds what fits of `line` so far, with `room` bytes to spare besides the NUL. */
  predicate Copied(dest: seq<byte>, room: nat, line: seq<byte>, size: nat) {
    |dest| + room + 1 == size && dest <= line && (|dest| == |line| || room == 0)
  }

  lemma StartCopy(size: nat)
    requires size > 0
    ensures Copied([], size - 1, [], size)
  {
  }

  lemma ConcatStep(chunks: seq<seq<byte>>)
    ensures Concat(chunks) == if chunks == [] then [] else chunks[0] + Concat(chunks[1..])
  {
  }

  lemma KeptIs(dest: seq<byte>, line: seq<byte>, size: nat)
    requires size > 0 && exists room: nat :: Copied(dest, room, line, size)
    ensures dest == Kept(line, size)
  {
  }

  /** Chunks that fit the receive buffer. */
  predicate Receivable(chunks: seq<seq<byte>>) {
    forall i | 0 <= i < |chunks| :: 0 < |chunks[i]| <= READ_MAX
  }

  /** A call's outcome: the line it takes, the bytes left over behind it, the chunks still to come. */
  datatype Taken = Taken(line: seq<byte>, left: seq<byte>, chunks: seq<seq<byte>>)

  /** What one call takes: the left-over bytes unseen, then chunks up to the first that holds a newline. */
  function Take(left: seq<byte>, chunks: seq<seq<byte>>): (r: Option<Taken>)
    ensures r.Some? ==> |r.value.chunks| < |chunks|
    decreases |chunks|
  {
    if chunks == [] then None
    else
      var chunk := chunks[0];
      var k := CountTo(chunk, NEWLINE);
      if k == |chunk| then Take(left + chunk, chunks[1..])
      else Some(Taken(left + chunk[..k], chunk[k + 1..], chunks[1..]))
  }

  /** A connection: the receive buffer with what is left over in it, and the chunks to come. */
  class Conn {
    var buf: array<byte>
    var rsize: nat
    /** What successive `recv` calls will deliver; then the peer has closed. */
    var chunks: seq<seq<byte>>

    ghost predicate Valid()
      reads this, buf
    {
      buf.Length == READ_MAX && rsize <= READ_MAX
      && Receivable(chunks)
    }

    ghost function Left(): seq<byte>
      reads this, buf
      requires Valid()
    {
      buf[..rsize]
    }

    constructor (chunks: seq<seq<byte>>)
      requires Receivable(chunks)
      ensures Valid() && fresh(buf) && buf.Length == 80 && Left() == [] && this.chunks == chunks
    {
      buf := new byte[READ_MAX](_ => 0);
      rsize := 0;
      this.chunks := chunks;
    }

    /** `recv` into the buffer: the number of bytes received, 0 when the peer has closed. */
    method Recv() returns (received: nat)
      requires Valid()
      modifies buf, `chunks
      ensures Valid() && received <= READ_MAX && (received == 0 <==> old(chunks) == [])
      ensures old(chunks) == [] ==> chunks == []
      ensures old(chunks) != [] ==> buf[..received] == old(chunks)[0] && chunks == old(chunks)[1..]
    {
      if chunks == [] {
        return 0;
      }
      var chunk := chunks[0];
      received := |chunk|;
      forall i | 0 <= i < received {
        buf[i] := chunk[i];
      }
      chunks := chunks[1..];
    }

    /** `memchr` for a newline among the first `n` bytes. */
    method FindNewline(n: nat) returns (k: nat)
      requires Valid() && n <= READ_MAX
      ensures k == CountTo(buf[..n], NEWLINE)
    {
      k := 0;
      while k < n && buf[k] != NEWLINE
        invariant k <= n && NEWLINE !in buf[..k]
      {
        k := k + 1;
      }
      assert buf[..n][..k] == buf[..k];
      CountToUnique(buf[..n], NEWLINE, k);
    }

    /** `memcpy` of as much of the first `count` buffered bytes as there is room for. */
    method Copy(dest: seq<byte>, room: nat, count: nat, ghost line: seq<byte>, ghost size: nat)
      returns (dest': seq<byte>, room': nat)
      requires Valid() && count <= READ_MAX && Copied(dest, room, line, size)
      ensures Copied(dest', room', line + buf[..count], size)
    {
      var copysize := if room < count then room else count;
      dest' := dest + buf[..copysize];
      room' := room - copysize;
    }

    /** `memmove` of what follows the newline at `end` to the front of the buffer. */
    method KeepAfter(end: nat, received: nat)
      requires Valid() && end < received <= READ_MAX
      modifies buf, `rsize
      ensures Valid() && Left() == old(buf[..received])[end + 1..]
    {
      rsize := received - (end + 1);
      forall i | 0 <= i < rsize {
        buf[i] := buf[end + 1 + i];
      }
    }

    /** The last piece of a line: up to the newline at `end`, which is dropped. */
    method TakeLine(end: nat, received: nat, dest: seq<byte>, room: nat, n: nat, ghost line: seq<byte>, ghost size: nat)
      returns (n': nat, dest': seq<byte>)
      requires Valid() && end < received <= READ_MAX && size > 0 && n == |line| && Copied(dest, room, line, size)
      modifies buf, `rsize
      ensures Valid() && n' == |line| + end && dest' == Kept(line + old(buf[..received])[..end], size)
      ensures Left() == old(buf[..received])[end + 1..]
    {
      n' := n + end;
      var room';
      dest', room' := Copy(dest, room, end, line, size);
      assert buf[..received][..end] == buf[..end];
      KeptIs(dest', line + buf[..end], size);
      KeepAfter(end, received);
    }

    /**
     * Takes the left-over bytes as they are, then receives until a chunk holds a newline.
     * Returns the length of the line and what fits of it, or -1 when no newline arrives.
     */
    method Read(size: nat) returns (n: int, dest: seq<byte>)
      requires Valid() && size > 0
      modifies this, buf
      ensures Valid() && buf == old(buf)
      ensures match old(Take(Left(), chunks))
              case None => n == -1
              case Some(t) => n == |t.line| && dest == Kept(t.line, size) && Left() == t.left && chunks == t.chunks
    {
      hide Kept, CountTo, Copied, Receivable, Take;
      ghost var all := Take(Left(), chunks);
      StartCopy(size);
      var received: nat := rsize;
      n, dest := 0, [];
      var room: nat := size - 1;
      ghost var line := [];
      assert line + buf[..received] == Left();
      while true
        invariant Valid() && received <= READ_MAX && rsize == old(rsize) && buf == old(buf)
        invariant Take(line + buf[..received], chunks) == all
        invariant n == |line| && Copied(dest, room, line, size)
        decreases |chunks|
      {
        n := n + received;
        dest, room := Copy(dest, room, received, line, size);
        line := line + buf[..received];
        TakeStep(line, chunks);
        received := Recv();
        if received == 0 {
          return -1, [];
        }
        var end := FindNewline(received);
        if end < received {
          n, dest := TakeLine(end, received, dest, room, n, line, size);
          return;
        }
      }
    }
  }

  lemma TakeStep(left: seq<byte>, chunks: seq<seq<byte>>)
    ensures Take(left, chunks) ==
            if chunks == [] then None
            else
              var chunk := chunks[0];
              var k := CountTo(chunk, NEWLINE);
              if k == |chunk| then Take(left + chunk, chunks[1..])
              else Some(Taken(left + chunk[..k], chunk[k + 1..], chunks[1..]))
  {
  }

  /**
   * A call takes everything up to the first newline (byte 10) in a chunk still to come and
   * leaves what follows it; without such a newline it takes nothing.
   */
  lemma {:induction false} TakeWhere(left: seq<byte>, chunks: seq<seq<byte>>, j: nat, k: nat)
    requires j <= |chunks| && (forall i | 0 <= i < j :: 10 !in chunks[i])
    requires j < |chunks| ==> k < |chunks[j]| && chunks[j][k] == 10 && 10 !in chunks[j][..k]
    ensures Take(left, chunks) ==
            if j == |chunks| then None
            else Some(Taken(left + Concat(chunks[..j]) + chunks[j][..k], chunks[j][k + 1..], chunks[j + 1..]))
    decreases |chunks|
  {
    hide Concat;
    TakeStep(left, chunks);
    if chunks != [] {
      var chunk := chunks[0];
      if j == 0 {
        CountToUnique(chunk, 10, k);
        ConcatStep([]);
        assert chunks[..0] == [] && left + [] == left;
      } else {
        CountToUnique(chunk, 10, |chunk|);
        TakeWhere(left + chunk, chunks[1..], j - 1, k);
        ConcatStep(chunks[..j]);
        assert chunks[..j][0] == chunk && chunks[..j][1..] == chunks[1..][..j - 1];
        assert left + (chunk + Concat(chunks[..j][1..])) == (left + chunk) + Concat(chunks[..j][1..]);
      }
    }
  }

  /** What is kept of a line: all of it if it leaves room for the NUL, else as much as does. */
  lemma KeptPrefix(line: seq<byte>, size: nat)
    requires size > 0
    ensures Kept(line, size) <= line
    ensures |Kept(line, size)| == if |line| < size then |line| else size - 1
  {
  }

  /** Every chunk holds at most one newline. */
  predicate SingleNewlines(chunks: seq<seq<byte>>) {
    forall i | 0 <= i < |chunks| :: Newlines(chunks[i]) <= 1
  }

  function Newlines(s: seq<byte>): nat {
    if s == [] then 0 else (if s[0] == NEWLINE then 1 else 0) + Newlines(s[1..])
  }

  lemma {:induction false} NewlinesConcat(a: seq<byte>, b: seq<byte>)
    ensures Newlines(a + b) == Newlines(a) + Newlines(b)
    decreases |a|
  {
    if a == [] {
      assert a + b == b;
    } else {
      assert (a + b)[1..] == a[1..] + b;
      NewlinesConcat(a[1..], b);
    }
  }

  lemma {:induction false} NewlinesNone(s: seq<byte>)
    ensures Newlines(s) == 0 <==> NEWLINE !in s
    ensures CountTo(s, NEWLINE) == |s| <==> NEWLINE !in s
    decreases |s|
  {
    if s != [] {
      NewlinesNone(s[1..]);
      assert s == [s[0]] + s[1..];
    }
  }

  /** Cutting a stream at its first newline. */
  lemma {:induction false} NewlinesCut(s: seq<byte>)
    requires CountTo(s, NEWLINE) < |s|
    ensures Newlines(s) == 1 + Newlines(s[CountTo(s, NEWLINE) + 1..])
    decreases |s|
  {
    if s[0] == NEWLINE {
      assert s[1..] == s[CountTo(s, NEWLINE) + 1..];
    } else {
      NewlinesCut(s[1..]);
      assert s[CountTo(s, NEWLINE) + 1..] == s[1..][CountTo(s[1..], NEWLINE) + 1..];
    }
  }

  // ---------- one call ----------

  /** The next line of a stream, if it has a whole one. */
  function FirstLine(stream: seq<byte>): Option<seq<byte>> {
    var k := CountTo(stream, NEWLINE);
    if k == |stream| then None else Some(stream[..k])
  }

  /** The line that a call takes, if any. */
  function ReplyLine(left: seq<byte>, chunks: seq<seq<byte>>): Option<seq<byte>> {
    match Take(left, chunks)
    case None => None
    case Some(t) => Some(t.line)
  }

  /**
   * A call replies with the next line of the stream, or -1 if there is none, exactly when no
   * newline is among the left-over bytes: one that is there is taken for a part of the line,
   * or lost when nothing follows.
   */
  lemma NextLineIff(left: seq<byte>, chunks: seq<seq<byte>>)
    ensures ReplyLine(left, chunks) == FirstLine(left + Concat(chunks)) <==> NEWLINE !in left
  {
    if NEWLINE in left {
      var i :| 0 <= i < |left| && left[i] == NEWLINE;
      CountToBound(left + Concat(chunks), NEWLINE, i);
      TakeTakesLeft(left, chunks);
    } else {
      TakeFirstLine(left, chunks);
    }
  }

  /** The left-over bytes always become part of the line. */
  lemma {:induction false} TakeTakesLeft(left: seq<byte>, chunks: seq<seq<byte>>)
    ensures Take(left, chunks).Some? ==> |Take(left, chunks).value.line| >= |left|
    decreases |chunks|
  {
    hide CountTo;
    if chunks != [] {
      TakeTakesLeft(left + chunks[0], chunks[1..]);
    }
  }

  /** With a newline-free buffer a call takes the first line off the stream. */
  lemma {:induction false} TakeFirstLine(left: seq<byte>, chunks: seq<seq<byte>>)
    requires NEWLINE !in left
    ensures ReplyLine(left, chunks) == FirstLine(left + Concat(chunks))
    ensures var s, t := left + Concat(chunks), Take(left, chunks);
            t.Some? ==> CountTo(s, NEWLINE) < |s|
                        && t.value.left + Concat(t.value.chunks) == s[CountTo(s, NEWLINE) + 1..]
    decreases |chunks|
  {
    hide CountTo, Concat;
    ConcatStep(chunks);
    if chunks == [] {
      assert left + [] == left;
      NewlinesNone(left);
    } else {
      var chunk, later := chunks[0], Concat(chunks[1..]);
      assert left + (chunk + later) == (left + chunk) + later;
      NewlinesNone(chunk);
      if NEWLINE !in chunk {
        TakeFirstLine(left + chunk, chunks[1..]);
      } else {
        NewlineFound(left, chunk, later);
      }
    }
  }

  /** The first newline of the stream is the first one of the chunk behind newline-free bytes. */
  lemma NewlineFound(left: seq<byte>, chunk: seq<byte>, later: seq<byte>)
    requires NEWLINE !in left && CountTo(chunk, NEWLINE) < |chunk|
    ensures var s, k := left + (chunk + later), CountTo(chunk, NEWLINE);
            CountTo(s, NEWLINE) == |left| + k < |s| && s[..|left| + k] == left + chunk[..k]
            && s[|left| + k + 1..] == chunk[k + 1..] + later
  {
    hide CountTo;
    CountToJoin(left, chunk + later, NEWLINE);
    ChunkFirst(chunk, later);
  }

  lemma {:induction false} ChunkFirst(chunk: seq<byte>, later: seq<byte>)
    requires CountTo(chunk, NEWLINE) < |chunk|
    ensures CountTo(chunk + later, NEWLINE) == CountTo(chunk, NEWLINE)
    decreases |chunk|
  {
    if chunk[0] != NEWLINE {
      assert (chunk + later)[1..] == chunk[1..] + later;
      ChunkFirst(chunk[1..], later);
    }
  }

  // ---------- whole conversations ----------

  /** The lines that successive calls take until one finds no newline. */
  function Heard(left: seq<byte>, chunks: seq<seq<byte>>): seq<seq<byte>>
    decreases |chunks|
  {
    match Take(left, chunks)
    case None => []
    case Some(t) => [t.line] + Heard(t.left, t.chunks)
  }

  /** The lines of a stream that end in a newline. */
  function Lines(stream: seq<byte>): seq<seq<byte>>
    decreases |stream|
  {
    var k := CountTo(stream, NEWLINE);
    if k == |stream| then [] else [stream[..k]] + Lines(stream[k + 1..])
  }

  /** With no line in a string without byte 10, this law fixes `Lines` on every stream. */
  lemma LinesSplit(a: seq<byte>, b: seq<byte>)
    requires 10 !in a
    ensures Lines(a) == [] && Lines(a + [10] + b) == [a] + Lines(b)
  {
    var s := a + [10] + b;
    CountToUnique(a, 10, |a|);
    assert s[..|a|] == a && s[|a| + 1..] == b;
    CountToUnique(s, 10, |a|);
  }

  /** Chunks that hold a newline: each call uses up one. */
  function Breaks(chunks: seq<seq<byte>>): nat {
    if chunks == [] then 0 else (if Newlines(chunks[0]) > 0 then 1 else 0) + Breaks(chunks[1..])
  }

  lemma {:induction false} LinesCount(stream: seq<byte>)
    ensures |Lines(stream)| == Newlines(stream)
    decreases |stream|
  {
    hide CountTo, Newlines;
    var k := CountTo(stream, NEWLINE);
    if k == |stream| {
      NewlinesNone(stream);
    } else {
      NewlinesCut(stream);
      LinesCount(stream[k + 1..]);
    }
  }

  lemma {:induction false} TakeBreaks(left: seq<byte>, chunks: seq<seq<byte>>)
    ensures match Take(left, chunks)
            case None => Breaks(chunks) == 0
            case Some(t) => Breaks(chunks) == 1 + Breaks(t.chunks)
    decreases |chunks|
  {
    hide CountTo, Newlines;
    if chunks != [] {
      NewlinesNone(chunks[0]);
      if CountTo(chunks[0], NEWLINE) == |chunks[0]| {
        TakeBreaks(left + chunks[0], chunks[1..]);
      }
    }
  }

  lemma {:induction false} HeardCount(left: seq<byte>, chunks: seq<seq<byte>>)
    ensures |Heard(left, chunks)| == Breaks(chunks)
    decreases |chunks|
  {
    hide Take, Breaks;
    TakeBreaks(left, chunks);
    match Take(left, chunks)
    case None =>
    case Some(t) => HeardCount(t.left, t.chunks);
  }

  /** A stream has at least as many newlines as chunks with one, and as many only if each has just one. */
  lemma {:induction false} BreaksCount(chunks: seq<seq<byte>>)
    ensures Breaks(chunks) <= Newlines(Concat(chunks))
    ensures Breaks(chunks) == Newlines(Concat(chunks)) <==> SingleNewlines(chunks)
    decreases |chunks|
  {
    hide Newlines;
    if chunks == [] {
      NewlinesNone([]);
    } else {
      BreaksCount(chunks[1..]);
      NewlinesConcat(chunks[0], Concat(chunks[1..]));
      assert SingleNewlines(chunks) <==> Newlines(chunks[0]) <= 1 && SingleNewlines(chunks[1..]) by {
        assert forall i | 0 <= i < |chunks| - 1 :: chunks[1..][i] == chunks[i + 1];
      }
    }
  }

  lemma {:induction false} TakeSingle(left: seq<byte>, chunks: seq<seq<byte>>)
    requires SingleNewlines(chunks) && Take(left, chunks).Some?
    ensures NEWLINE !in Take(left, chunks).value.left && SingleNewlines(Take(left, chunks).value.chunks)
    decreases |chunks|
  {
    hide CountTo, Newlines;
    var chunk := chunks[0];
    var k := CountTo(chunk, NEWLINE);
    assert Newlines(chunk) <= 1;
    if k == |chunk| {
      TakeSingle(left + chunk, chunks[1..]);
    } else {
      NewlinesCut(chunk);
      NewlinesNone(chunk[k + 1..]);
    }
  }

  lemma {:induction false} HeardLines(left: seq<byte>, chunks: seq<seq<byte>>)
    requires NEWLINE !in left && SingleNewlines(chunks)
    ensures Heard(left, chunks) == Lines(left + Concat(chunks))
    decreases |chunks|
  {
    hide CountTo, Take, Concat, SingleNewlines;
    TakeFirstLine(left, chunks);
    if Take(left, chunks).Some? {
      var t := Take(left, chunks).value;
      TakeSingle(left, chunks);
      HeardLines(t.left, t.chunks);
    }
  }

  /**
   * Successive calls hand out the lines of the stream if and only if no newline is left over
   * at the start and every chunk holds at most one; otherwise they hand out fewer.
   */
  lemma HeardIff(left: seq<byte>, chunks: seq<seq<byte>>)
    ensures Heard(left, chunks) == Lines(left + Concat(chunks)) <==> NEWLINE !in left && SingleNewlines(chunks)
    ensures Heard(left, chunks) != Lines(left + Concat(chunks)) ==>
              |Heard(left, chunks)| < |Lines(left + Concat(chunks))|
  {
    hide Heard, Lines, Newlines, Breaks, Concat, SingleNewlines;
    HeardCount(left, chunks);
    LinesCount(left + Concat(chunks));
    NewlinesConcat(left, Concat(chunks));
    NewlinesNone(left);
    BreaksCount(chunks);
    if NEWLINE !in left && SingleNewlines(chunks) {
      HeardLines(left, chunks);
    }
  }

  /** What the reader hands out for some lines: full lengths and what fits of each. */
  function Replies(lines: seq<seq<byte>>, size: nat): (r: seq<(int, seq<byte>)>)
    requires size > 0
    ensures |r| == |lines|
  {
    seq(|lines|, i requires 0 <= i < |lines| => (|lines[i]|, Kept(lines[i], size)))
  }

  lemma RepliesStep(line: seq<byte>, lines: seq<seq<byte>>, size: nat)
    requires size > 0
    ensures Replies([line] + lines, size) == [(|line|, Kept(line, size))] + Replies(lines, size)
  {
  }

  /**
   * Reads until a call returns -1. On a fresh connection the replies are the lines of the
   * whole stream, wherever the chunk boundaries fall, if and only if every received chunk
   * holds at most one newline.
   */
  method ReadAll(c: Conn, size: nat) returns (out: seq<(int, seq<byte>)>)
    requires c.Valid() && size > 0
    modifies c, c.buf
    ensures out == Replies(old(Heard(c.Left(), c.chunks)), size)
    ensures old(c.Left()) == [] ==>
              (out == Replies(Lines(old(Concat(c.chunks))), size) <==> SingleNewlines(old(c.chunks)))
  {
    hide Heard, Lines, Replies, Concat, SingleNewlines, Kept, Take, Receivable;
    out := [];
    ghost var left, chunks := c.Left(), c.chunks;
    HeardIff(left, chunks);
    assert [] + Concat(chunks) == Concat(chunks);
    assert [] + Replies(Heard(left, chunks), size) == Replies(Heard(left, chunks), size);
    while true
      invariant c.Valid() && c.buf == old(c.buf)
      invariant out + Replies(Heard(c.Left(), c.chunks), size) == Replies(Heard(left, chunks), size)
      decreases |c.chunks|
    {
      HeardStep(c.Left(), c.chunks, out, size);
      var n, line := c.Read(size);
      if n < 0 {
        return;
      }
      out := out + [(n, line)];
    }
  }

  lemma HeardStep(left: seq<byte>, chunks: seq<seq<byte>>, out: seq<(int, seq<byte>)>, size: nat)
    requires size > 0
    ensures out + Replies(Heard(left, chunks), size) ==
            match Take(left, chunks)
            case None => out
            case Some(t) => out + [(|t.line|, Kept(t.line, size))] + Replies(Heard(t.left, t.chunks), size)
  {
    hide Take, Kept;
    match Take(left, chunks)
    case None =>
    case Some(t) => RepliesStep(t.line, Heard(t.left, t.chunks), size);
  }

  /**
   * A chunk with two newlines: of the stream `a`, `b` only `a` is handed out; the second
   * line lies whole in the buffer and the next call returns -1.
   */
  method LineLost() returns (first: (int, seq<byte>), second: int, lines: seq<seq<byte>>)
    ensures first == (1, [97]) && second == -1
    ensures lines == [[97], [98]]
  {
    var stream: seq<byte> := [97, 10, 98, 10];
    var c := new Conn([stream]);
    LostSteps(stream);
    lines := Lines(stream);
    var n, dest := c.Read(80);
    first := (n, dest);
    second, dest := c.Read(80);
  }

  lemma LostSteps(stream: seq<byte>)
    requires stream == [97, 10, 98, 10]
    ensures Lines(stream) == [[97], [98]]
    ensures Take([], [stream]) == Some(Taken([97], [98, 10], [])) && Take([98, 10], []) == None
    ensures Kept([97], 80) == [97]
  {
    var rest := stream[2..];
    assert rest == [98, 10];
    CountToUnique(stream, NEWLINE, 1);
    CountToUnique(rest, NEWLINE, 1);
    assert rest[2..] == [] && rest[..1] == [98] && Lines([]) == [];
    assert Lines(rest) == [[98]];
    assert [stream][1..] == [] && [] + stream[..1] == [97] && stream[..1] == [97];
  }
}
