/**
 * One client connection: a read buffer filled from the socket (capped at
 * 1 MiB), the parse / dispatch / consume loop over it, and a write buffer
 * flushed to the socket by erasing the accepted prefix after every send
 * (also capped at 1 MiB, checked after each dispatch).
 *
 * The socket is modelled by scripts of the results recv and send return;
 * a script that has run out answers EAGAIN. ReadLoop, FlushLoop and Serve
 * are the reference semantics of the three loops; the Connection class runs
 * them in place and is proved to agree with them.
 */
module Net {
  import opened Resp
  import opened RespParser
  import opened Db
  import opened Commands

  const MaxReadBuffer: nat := 1048576   // 1 << 20
  const MaxWriteBuffer: nat := 1048576  // 1 << 20

  datatype Errno = EAGAIN | EWOULDBLOCK | EINTR | OtherErrno(code: int)

  predicate WouldBlock(e: Errno) {
    e == EAGAIN || e == EWOULDBLOCK
  }

  /** What one recv call returns: some bytes (none means the peer closed), or -1 with errno. */
  datatype RecvResult = Data(bytes: string) | RecvFailed(err: Errno)

  /** What one send call returns: the number of bytes taken, or -1 with errno. */
  datatype SendResult = Accepted(count: nat) | SendFailed(err: Errno)

  /** A loop's verdict, the buffer it leaves and the socket results it did not consume. */
  datatype Outcome<T> = Outcome(ok: bool, buffer: string, rest: seq<T>)

  function Min(a: nat, b: nat): nat {
    if a < b then a else b
  }

  // ----- read_from_socket -----

  /** The bytes one recv result delivers. */
  function Chunk(x: RecvResult): string {
    if x.Data? then x.bytes else []
  }

  /** Whether the read loop goes on after this result: a chunk that fits, or EINTR. */
  predicate ReadContinues(buf: string, x: RecvResult) {
    (x.Data? && |x.bytes| > 0 && |buf| + |x.bytes| <= MaxReadBuffer) || x == RecvFailed(EINTR)
  }

  /** read_from_socket: append chunks until would-block; close on peer close, on a chunk past the cap, or on a hard error. */
  function ReadLoop(buf: string, script: seq<RecvResult>): (r: Outcome<RecvResult>)
    ensures |r.rest| <= |script|
    decreases |script|
  {
    if script == [] then Outcome(true, buf, [])
    else match script[0]
      case Data(bytes) =>
        if |bytes| > 0 then
          if |buf| + |bytes| > MaxReadBuffer then Outcome(false, buf, script[1..])
          else ReadLoop(buf + bytes, script[1..])
        else Outcome(false, buf, script[1..])
      case RecvFailed(e) =>
        if WouldBlock(e) then Outcome(true, buf, script[1..])
        else if e == EINTR then ReadLoop(buf, script[1..])
        else Outcome(false, buf, script[1..])
  }

  /** The results after which the loop goes on reading. */
  predicate KeepsReading(x: RecvResult) {
    (x.Data? && |x.bytes| > 0) || x == RecvFailed(EINTR)
  }

  /** The bytes the results deliver, in arrival order. */
  function Received(script: seq<RecvResult>): string
    decreases |script|
  {
    if script == [] then [] else Chunk(script[0]) + Received(script[1..])
  }

  /** One turn of the read loop. */
  lemma ReadLoopStep(buf: string, script: seq<RecvResult>)
    requires script != []
    ensures ReadContinues(buf, script[0]) ==> ReadLoop(buf, script) == ReadLoop(buf + Chunk(script[0]), script[1..])
    ensures !ReadContinues(buf, script[0]) ==> ReadLoop(buf, script).rest == script[1..]
  {
    assert buf + [] == buf;
  }

  lemma ReceivedOfPrefix(script: seq<RecvResult>, k: nat)
    requires 0 < k <= |script|
    ensures Received(script[..k]) == Chunk(script[0]) + Received(script[1..][..k - 1])
  {
    assert script[..k][1..] == script[1..][..k - 1];
  }

  lemma SuffixAfterOne<T>(script: seq<T>, rest: seq<T>)
    requires script != [] && |rest| <= |script| - 1 && rest == script[1..][|script| - 1 - |rest|..]
    ensures rest == script[|script| - |rest|..]
  {
  }

  /** The read loop consumes a prefix of the results, at least one unless there were none. */
  lemma {:induction false} ReadLoopRest(buf: string, script: seq<RecvResult>)
    ensures var r := ReadLoop(buf, script);
      && r.rest == script[|script| - |r.rest|..]
      && (|r.rest| == |script| <==> script == [])
    decreases |script|
  {
    if script != [] {
      ReadLoopStep(buf, script);
      if ReadContinues(buf, script[0]) {
        ReadLoopRest(buf + Chunk(script[0]), script[1..]);
        SuffixAfterOne(script, ReadLoop(buf, script).rest);
      }
    }
  }

  /**
   * Every consumed result but the last is a data chunk or EINTR; the loop
   * succeeds only when it stopped on would-block or ran out of results, and
   * fails only on a close, a hard error or a chunk that does not fit.
   */
  lemma {:induction false} ReadLoopVerdict(buf: string, script: seq<RecvResult>)
    ensures var r := ReadLoop(buf, script); var n := |script| - |r.rest|;
      && (forall i :: 0 <= i < n - 1 ==> KeepsReading(script[i]))
      && (r.ok ==> n == 0 || (script[n - 1].RecvFailed? && WouldBlock(script[n - 1].err))
                         || (r.rest == [] && KeepsReading(script[n - 1])))
      && (!r.ok ==> n > 0 && (script[n - 1] == Data([])
                    || (script[n - 1].Data? && |r.buffer| + |script[n - 1].bytes| > MaxReadBuffer)
                    || (script[n - 1].RecvFailed? && !WouldBlock(script[n - 1].err) && script[n - 1].err != EINTR)))
    decreases |script|
  {
    ReadLoopRest(buf, script);
    if script != [] {
      ReadLoopStep(buf, script);
      if ReadContinues(buf, script[0]) {
        var tail := script[1..];
        ReadLoopVerdict(buf + Chunk(script[0]), tail);
        ReadLoopRest(buf + Chunk(script[0]), tail);
        var m := |tail| - |ReadLoop(buf, script).rest|;
        assert forall i :: 1 <= i < m + 1 ==> script[i] == tail[i - 1];
      }
    }
  }

  /** The bytes a read holds once it ends: everything received, except the result that ended a failed read. */
  function Kept(r: Outcome<RecvResult>, script: seq<RecvResult>): nat
    requires |r.rest| <= |script|
  {
    if r.ok || |r.rest| == |script| then |script| - |r.rest| else |script| - |r.rest| - 1
  }

  /** A read that succeeds holds every byte received, in order; one that fails, every byte before the last result. */
  lemma {:induction false} ReadLoopBytes(buf: string, script: seq<RecvResult>)
    ensures var r := ReadLoop(buf, script);
      && (!r.ok ==> |r.rest| < |script|)
      && r.buffer == buf + Received(script[..Kept(r, script)])
    decreases |script|
  {
    ReadLoopRest(buf, script);
    var r := ReadLoop(buf, script);
    if script == [] {
    } else if ReadContinues(buf, script[0]) {
      ReadLoopStep(buf, script);
      var chunk := Chunk(script[0]);
      var tail := script[1..];
      ReadLoopBytes(buf + chunk, tail);
      ReadLoopRest(buf + chunk, tail);
      assert r == ReadLoop(buf + chunk, tail);
      var k := Kept(r, script);
      assert |r.rest| < |script|;
      assert Kept(r, tail) == k - 1;
      ReceivedOfPrefix(script, k);
      AppendAssoc(buf, chunk, Received(tail[..k - 1]));
    } else {
      ReadLoopStep(buf, script);
      assert script[..0] == [];
    }
  }

  /** The read buffer never grows past its cap. */
  lemma {:induction false} ReadLoopKeepsCap(buf: string, script: seq<RecvResult>)
    requires |buf| <= MaxReadBuffer
    ensures |ReadLoop(buf, script).buffer| <= MaxReadBuffer
    decreases |script|
  {
    if script != [] {
      ReadLoopStep(buf, script);
      if ReadContinues(buf, script[0]) {
        ReadLoopKeepsCap(buf + Chunk(script[0]), script[1..]);
      }
    }
  }

  // ----- flush_write -----

  /** flush_write: send until the buffer is empty (true), would-block (true), a zero count or a hard error (false). */
  function FlushLoop(buf: string, script: seq<SendResult>): (r: Outcome<SendResult>)
    ensures |r.rest| <= |script|
    decreases |script|
  {
    if buf == [] then Outcome(true, buf, script)
    else if script == [] then Outcome(true, buf, [])
    else match script[0]
      case Accepted(n) =>
        if n > 0 then FlushLoop(buf[Min(n, |buf|)..], script[1..]) else Outcome(false, buf, script[1..])
      case SendFailed(e) =>
        if WouldBlock(e) then Outcome(true, buf, script[1..])
        else if e == EINTR then FlushLoop(buf, script[1..])
        else Outcome(false, buf, script[1..])
  }

  /** The results after which the loop goes on sending. */
  predicate KeepsSending(x: SendResult) {
    (x.Accepted? && x.count > 0) || x == SendFailed(EINTR)
  }

  /** The results on which the connection must be closed. */
  predicate SendFatal(x: SendResult) {
    x == Accepted(0) || (x.SendFailed? && !WouldBlock(x.err) && x.err != EINTR)
  }

  /** What is left of the buffer after one send result. */
  function AfterSend(buf: string, x: SendResult): string {
    if x.Accepted? then buf[Min(x.count, |buf|)..] else buf
  }

  /** One turn of the flush loop. */
  lemma FlushLoopStep(buf: string, script: seq<SendResult>)
    requires buf != [] && script != []
    ensures KeepsSending(script[0]) ==> FlushLoop(buf, script) == FlushLoop(AfterSend(buf, script[0]), script[1..])
    ensures !KeepsSending(script[0]) ==> FlushLoop(buf, script).rest == script[1..]
  {
  }

  lemma SuffixOfSuffix<T>(a: seq<T>, b: seq<T>, c: seq<T>)
    requires |b| <= |a| && a == a[..|a| - |b|] + b
    requires |c| <= |b| && b == b[..|b| - |c|] + c
    ensures a == a[..|a| - |c|] + c
  {
    assert a[..|a| - |c|] == a[..|a| - |b|] + b[..|b| - |c|];
  }

  /** Flushing consumes a prefix of the results. */
  lemma {:induction false} FlushLoopConsumes(buf: string, script: seq<SendResult>)
    ensures var r := FlushLoop(buf, script); r.rest == script[|script| - |r.rest|..]
    decreases |script|
  {
    if buf != [] && script != [] {
      FlushLoopStep(buf, script);
      if KeepsSending(script[0]) {
        var next := AfterSend(buf, script[0]);
        FlushLoopConsumes(next, script[1..]);
        SuffixAfterOne(script, FlushLoop(next, script[1..]).rest);
      }
    }
  }

  /**
   * Flushing only ever removes a prefix of the buffer, so what was sent
   * followed by what is left is the original buffer: nothing is lost,
   * repeated or reordered.
   */
  lemma {:induction false} FlushLoopRest(buf: string, script: seq<SendResult>)
    ensures var r := FlushLoop(buf, script);
      |r.buffer| <= |buf| && buf == buf[..|buf| - |r.buffer|] + r.buffer
    decreases |script|
  {
    if buf != [] && script != [] {
      FlushLoopStep(buf, script);
      if KeepsSending(script[0]) {
        var next := AfterSend(buf, script[0]);
        FlushLoopRest(next, script[1..]);
        assert buf == buf[..|buf| - |next|] + next;
        SuffixOfSuffix(buf, next, FlushLoop(next, script[1..]).buffer);
      }
    }
  }

  /**
   * Every consumed result but the last is a positive count or EINTR; the
   * flush fails exactly when bytes are still pending and the last result was
   * a zero count or a hard error; a success with bytes pending stopped on
   * would-block or ran out of results.
   */
  lemma {:induction false} FlushLoopVerdict(buf: string, script: seq<SendResult>)
    ensures var r := FlushLoop(buf, script); var n := |script| - |r.rest|;
      && (forall i :: 0 <= i < n - 1 ==> KeepsSending(script[i]))
      && (!r.ok <==> n > 0 && r.buffer != [] && SendFatal(script[n - 1]))
      && (r.ok && r.buffer != [] ==> r.rest == [] || (n > 0 && script[n - 1].SendFailed? && WouldBlock(script[n - 1].err)))
    decreases |script|
  {
    if buf != [] && script != [] {
      FlushLoopStep(buf, script);
      if KeepsSending(script[0]) {
        var tail := script[1..];
        FlushLoopVerdict(AfterSend(buf, script[0]), tail);
        var m := |tail| - |FlushLoop(buf, script).rest|;
        assert forall i :: 1 <= i < m + 1 ==> script[i] == tail[i - 1];
      }
    }
  }

  // ----- the parse / dispatch / consume loop of on_read -----

  datatype Served = Served(alive: bool, readBuf: string, writeBuf: string, maps: Maps,
                           commands: seq<seq<string>>, hasError: bool)

  /**
   * on_read after a good read: while the parser finds a complete command,
   * dispatch it, consume it, and give up once the write buffer is past its
   * cap; a parser error appends the protocol error and closes.
   */
  function Serve(readBuf: string, writeBuf: string, m: Maps, now: int, hasError: bool): Served
    decreases |readBuf|
  {
    if hasError then Served(false, readBuf, writeBuf + ErrorReply("protocol error"), m, [], true)
    else match ParseFrame(readBuf)
      case Complete(args, consumed) =>
        var command := Views(readBuf, args);
        var e := Execute(command, m, now);
        var written := writeBuf + Encode(e.0);
        if |written| > MaxWriteBuffer then Served(false, readBuf[consumed..], written, e.1, [command], false)
        else
          var more := Serve(readBuf[consumed..], written, e.1, now, false);
          Served(more.alive, more.readBuf, more.writeBuf, more.maps, [command] + more.commands, more.hasError)
      case Incomplete => Served(true, readBuf, writeBuf, m, [], false)
      case Malformed => Served(false, readBuf, writeBuf + ErrorReply("protocol error"), m, [], true)
  }

  /** Running commands one after another: the replies in order and the final maps. */
  function RunAll(commands: seq<seq<string>>, m: Maps, now: int): (string, Maps)
    decreases |commands|
  {
    if commands == [] then ([], m)
    else
      var e := Execute(commands[0], m, now);
      var more := RunAll(commands[1..], e.1, now);
      (Encode(e.0) + more.0, more.1)
  }

  /**
   * The write buffer receives the replies of the dispatched commands in
   * order, then the protocol error if there was one, and the store is left
   * as running those commands in order leaves it.
   */
  lemma {:induction false} ServeReplies(readBuf: string, writeBuf: string, m: Maps, now: int, hasError: bool)
    ensures var s := Serve(readBuf, writeBuf, m, now, hasError); var run := RunAll(s.commands, m, now);
      && s.writeBuf == writeBuf + run.0 + (if s.hasError then ErrorReply("protocol error") else [])
      && s.maps == run.1
    decreases |readBuf|
  {
    var s := Serve(readBuf, writeBuf, m, now, hasError);
    if hasError || !ParseFrame(readBuf).Complete? {
      assert writeBuf + [] == writeBuf;
    } else {
      var p := ParseFrame(readBuf);
      var command := Views(readBuf, p.args);
      var e := Execute(command, m, now);
      var written := writeBuf + Encode(e.0);
      var tail := readBuf[p.consumed..];
      if |written| > MaxWriteBuffer {
        assert [command][1..] == [];
        assert Encode(e.0) + [] == Encode(e.0);
        assert RunAll([command], m, now) == (Encode(e.0), e.1);
      } else {
        ServeReplies(tail, written, e.1, now, false);
        var more := Serve(tail, written, e.1, now, false);
        assert s.commands == [command] + more.commands;
        assert s.commands[1..] == more.commands;
        var later := RunAll(more.commands, e.1, now);
        assert RunAll(s.commands, m, now) == (Encode(e.0) + later.0, later.1);
        AppendAssoc(writeBuf, Encode(e.0), later.0);
      }
    }
  }

  /** What is left of the read buffer is a suffix of it. */
  lemma {:induction false} ServeRestIsSuffix(readBuf: string, writeBuf: string, m: Maps, now: int, hasError: bool)
    ensures IsSuffix(Serve(readBuf, writeBuf, m, now, hasError).readBuf, readBuf)
    decreases |readBuf|
  {
    if !hasError && ParseFrame(readBuf).Complete? {
      var p := ParseFrame(readBuf);
      ServeStep(readBuf, writeBuf, m, now, p.args, p.consumed);
      var e := Execute(Views(readBuf, p.args), m, now);
      ServeRestIsSuffix(readBuf[p.consumed..], writeBuf + Encode(e.0), e.1, now, false);
      SuffixOfDrop(Serve(readBuf, writeBuf, m, now, hasError).readBuf, readBuf, p.consumed);
    } else {
      assert readBuf == readBuf[|readBuf| - |readBuf|..];
    }
  }

  /**
   * The connection is closed with the protocol error only on a malformed
   * command or an earlier error, and an earlier error dispatches nothing.
   */
  lemma {:induction false} ServeErrorVerdict(readBuf: string, writeBuf: string, m: Maps, now: int, hasError: bool)
    ensures var s := Serve(readBuf, writeBuf, m, now, hasError);
      && (hasError ==> s.commands == [] && s.hasError)
      && (s.hasError ==> !s.alive && (hasError || ParseFrame(s.readBuf).Malformed?))
    decreases |readBuf|
  {
    if !hasError && ParseFrame(readBuf).Complete? {
      var p := ParseFrame(readBuf);
      ServeStep(readBuf, writeBuf, m, now, p.args, p.consumed);
      var e := Execute(Views(readBuf, p.args), m, now);
      ServeErrorVerdict(readBuf[p.consumed..], writeBuf + Encode(e.0), e.1, now, false);
    }
  }

  /** A run that stays open without dispatching anything leaves the write buffer alone. */
  lemma ServeIdle(readBuf: string, writeBuf: string, m: Maps, now: int, hasError: bool)
    ensures var s := Serve(readBuf, writeBuf, m, now, hasError);
      s.alive && s.commands == [] ==> s.writeBuf == writeBuf
  {
    if !hasError && ParseFrame(readBuf).Complete? {
      var p := ParseFrame(readBuf);
      ServeStep(readBuf, writeBuf, m, now, p.args, p.consumed);
    }
  }

  /**
   * The connection stays open only when what is left is an unfinished
   * command and, if anything was dispatched, the write buffer is within its cap.
   */
  lemma {:induction false} ServeAliveVerdict(readBuf: string, writeBuf: string, m: Maps, now: int, hasError: bool)
    ensures var s := Serve(readBuf, writeBuf, m, now, hasError);
      s.alive ==> ParseFrame(s.readBuf).Incomplete? && (s.commands == [] || |s.writeBuf| <= MaxWriteBuffer)
    decreases |readBuf|
  {
    if !hasError && ParseFrame(readBuf).Complete? {
      var p := ParseFrame(readBuf);
      ServeStep(readBuf, writeBuf, m, now, p.args, p.consumed);
      var e := Execute(Views(readBuf, p.args), m, now);
      var written := writeBuf + Encode(e.0);
      if |written| <= MaxWriteBuffer {
        ServeAliveVerdict(readBuf[p.consumed..], written, e.1, now, false);
        ServeIdle(readBuf[p.consumed..], written, e.1, now, false);
      }
    }
  }

  /** Closing without the protocol error happens only because the write buffer went past its cap. */
  lemma {:induction false} ServeBackpressure(readBuf: string, writeBuf: string, m: Maps, now: int, hasError: bool)
    ensures var s := Serve(readBuf, writeBuf, m, now, hasError);
      !s.alive && !s.hasError ==> |s.writeBuf| > MaxWriteBuffer
    decreases |readBuf|
  {
    if !hasError && ParseFrame(readBuf).Complete? {
      var p := ParseFrame(readBuf);
      ServeStep(readBuf, writeBuf, m, now, p.args, p.consumed);
      var e := Execute(Views(readBuf, p.args), m, now);
      var written := writeBuf + Encode(e.0);
      if |written| <= MaxWriteBuffer {
        ServeBackpressure(readBuf[p.consumed..], written, e.1, now, false);
      }
    }
  }

  /** Two runs of the loop that end in the same state, whatever they dispatched on the way. */
  predicate SameEnd(a: Served, b: Served) {
    a.alive == b.alive && a.readBuf == b.readBuf && a.writeBuf == b.writeBuf && a.maps == b.maps && a.hasError == b.hasError
  }

  /** One turn of the loop: the first complete command is dispatched and consumed, and the rest is served in turn unless the write buffer went past its cap. */
  lemma ServeStep(readBuf: string, writeBuf: string, m: Maps, now: int, args: seq<Slice>, consumed: nat)
    requires ParseFrame(readBuf) == Complete(args, consumed)
    ensures var command := Views(readBuf, args); var e := Execute(command, m, now);
      var written := writeBuf + Encode(e.0); var s := Serve(readBuf, writeBuf, m, now, false);
      if |written| > MaxWriteBuffer then s == Served(false, readBuf[consumed..], written, e.1, [command], false)
      else var more := Serve(readBuf[consumed..], written, e.1, now, false);
        s == Served(more.alive, more.readBuf, more.writeBuf, more.maps, [command] + more.commands, more.hasError)
  {
  }

  /** The loop stops when the parser holds an error or the buffer does not start with a complete command. */
  lemma ServeStop(readBuf: string, writeBuf: string, m: Maps, now: int, hasError: bool)
    requires hasError || !ParseFrame(readBuf).Complete?
    ensures var failed := hasError || ParseFrame(readBuf).Malformed?;
      Serve(readBuf, writeBuf, m, now, hasError)
        == Served(!failed, readBuf, if failed then writeBuf + ErrorReply("protocol error") else writeBuf, m, [], failed)
  {
  }

  /**
   * The commands on_read dispatches are the leading commands of the buffer,
   * in order: all of them when it stays open or meets a malformed command,
   * and then it stops where draining the buffer stops.
   */
  lemma {:induction false} ServeFollowsDrain(readBuf: string, writeBuf: string, m: Maps, now: int)
    ensures var s := Serve(readBuf, writeBuf, m, now, false); var d := Drain(readBuf);
      && s.commands <= d.commands
      && (s.alive || s.hasError ==> s.commands == d.commands && s.readBuf == d.rest && s.hasError == d.malformed)
    decreases |readBuf|
  {
    var p := ParseFrame(readBuf);
    if p.Complete? {
      var command := Views(readBuf, p.args);
      var e := Execute(command, m, now);
      var written := writeBuf + Encode(e.0);
      var tail := readBuf[p.consumed..];
      if |written| <= MaxWriteBuffer {
        ServeFollowsDrain(tail, written, e.1, now);
      }
    }
  }

  // ----- the socket and the connection objects -----

  /** The peer as seen through recv and send: the results still to come, and every byte sent so far. */
  class Socket {
    var incoming: seq<RecvResult>
    var replies: seq<SendResult>
    var sent: string

    constructor (incoming: seq<RecvResult>, replies: seq<SendResult>)
      ensures this.incoming == incoming && this.replies == replies && sent == []
    {
      this.incoming := incoming;
      this.replies := replies;
      sent := [];
    }

    method Recv() returns (r: RecvResult)
      modifies this`incoming
      ensures old(incoming) == [] ==> r == RecvFailed(EAGAIN) && incoming == []
      ensures old(incoming) != [] ==> r == old(incoming[0]) && incoming == old(incoming[1..])
    {
      if incoming == [] {
        return RecvFailed(EAGAIN);
      }
      r := incoming[0];
      incoming := incoming[1..];
    }

    /** A send takes at most the bytes offered, and the bytes it takes join the sent log. */
    method Send(data: string) returns (r: SendResult)
      modifies this`replies, this`sent
      ensures old(replies) == [] ==> r == SendFailed(EAGAIN) && replies == [] && sent == old(sent)
      ensures old(replies) != [] && old(replies[0]).Accepted? ==>
        var k := Min(old(replies[0]).count, |data|);
        r == Accepted(k) && replies == old(replies[1..]) && sent == old(sent) + data[..k]
      ensures old(replies) != [] && old(replies[0]).SendFailed? ==>
        r == old(replies[0]) && replies == old(replies[1..]) && sent == old(sent)
    {
      if replies == [] {
        return SendFailed(EAGAIN);
      }
      var head := replies[0];
      replies := replies[1..];
      if head.Accepted? {
        var k := Min(head.count, |data|);
        r := Accepted(k);
        sent := sent + data[..k];
      } else {
        r := head;
      }
    }
  }

  class Connection {
    var readBuf: string
    var writeBuf: string
    const parser: Parser
    const socket: Socket

    constructor (socket: Socket)
      ensures readBuf == [] && writeBuf == [] && this.socket == socket
      ensures fresh(parser) && parser.args == [] && parser.consumed == 0 && !parser.hasError
    {
      readBuf := [];
      writeBuf := [];
      parser := new Parser();
      this.socket := socket;
    }

    /** wants_write: replies are waiting to be sent. */
    predicate WantsWrite()
      reads this
    {
      writeBuf != []
    }

    method ReadFromSocket() returns (ok: bool)
      modifies this`readBuf, socket`incoming
      ensures var r := ReadLoop(old(readBuf), old(socket.incoming));
        ok == r.ok && readBuf == r.buffer && socket.incoming == r.rest
      ensures |old(readBuf)| <= MaxReadBuffer ==> |readBuf| <= MaxReadBuffer
    {
      while true
        invariant ReadLoop(readBuf, socket.incoming) == ReadLoop(old(readBuf), old(socket.incoming))
        invariant |old(readBuf)| <= MaxReadBuffer ==> |readBuf| <= MaxReadBuffer
        decreases |socket.incoming|
      {
        var r := socket.Recv();
        if r.Data? && |r.bytes| > 0 {
          if |readBuf| + |r.bytes| > MaxReadBuffer {
            return false;
          }
          readBuf := readBuf + r.bytes;
          continue;
        }
        if r.Data? {
          return false;
        }
        if r.err == EAGAIN || r.err == EWOULDBLOCK {
          break;
        }
        if r.err == EINTR {
          continue;
        }
        return false;
      }
      return true;
    }

    method FlushWrite() returns (ok: bool)
      modifies this`writeBuf, socket`replies, socket`sent
      ensures var r := FlushLoop(old(writeBuf), old(socket.replies));
        ok == r.ok && writeBuf == r.buffer && socket.replies == r.rest
      ensures |writeBuf| <= |old(writeBuf)|
      ensures socket.sent + writeBuf == old(socket.sent) + old(writeBuf)
    {
      while writeBuf != []
        invariant FlushLoop(writeBuf, socket.replies) == FlushLoop(old(writeBuf), old(socket.replies))
        invariant |writeBuf| <= |old(writeBuf)|
        invariant socket.sent + writeBuf == old(socket.sent) + old(writeBuf)
        decreases |socket.replies|
      {
        ghost var sentBefore := socket.sent;
        var r := socket.Send(writeBuf);
        if r.Accepted? && r.count > 0 {
          assert socket.sent + writeBuf[r.count..] == old(socket.sent) + old(writeBuf) by {
            assert writeBuf == writeBuf[..r.count] + writeBuf[r.count..];
            AppendAssoc(sentBefore, writeBuf[..r.count], writeBuf[r.count..]);
          }
          writeBuf := writeBuf[r.count..];
          continue;
        }
        if r.SendFailed? && (r.err == EAGAIN || r.err == EWOULDBLOCK) {
          return true;
        }
        if r.SendFailed? && r.err == EINTR {
          continue;
        }
        return false;
      }
      return true;
    }

    /** on_write: flush what is pending. */
    method OnWrite() returns (ok: bool)
      modifies this`writeBuf, socket`replies, socket`sent
      ensures var r := FlushLoop(old(writeBuf), old(socket.replies));
        ok == r.ok && writeBuf == r.buffer && socket.replies == r.rest
      ensures socket.sent + writeBuf == old(socket.sent) + old(writeBuf)
    {
      ok := FlushWrite();
    }

    /** on_read: read what the socket has, then serve every complete command in it. */
    method OnRead(d: Dispatcher, now: int) returns (alive: bool)
      requires d.store.Valid()
      modifies this`readBuf, this`writeBuf, parser, socket`incoming, d.store
      ensures d.store.Valid()
      ensures var r := ReadLoop(old(readBuf), old(socket.incoming));
        && socket.incoming == r.rest
        && (!r.ok ==> && !alive && readBuf == r.buffer && writeBuf == old(writeBuf)
                      && d.store.State() == old(d.store.State()) && parser.hasError == old(parser.hasError)
                      && parser.consumed == old(parser.consumed))
        && (r.ok ==> var s := Serve(r.buffer, old(writeBuf), old(d.store.State()), now, old(parser.hasError));
                     && alive == s.alive && readBuf == s.readBuf && writeBuf == s.writeBuf
                     && d.store.State() == s.maps && parser.hasError == s.hasError && parser.consumed == 0)
      ensures |old(readBuf)| <= MaxReadBuffer ==> |readBuf| <= MaxReadBuffer
    {
      ghost var m0 := d.store.State();
      ghost var error0 := parser.hasError;
      var ok := ReadFromSocket();
      if !ok {
        return false;
      }
      ghost var goal := Serve(readBuf, writeBuf, m0, now, error0);
      ghost var unread := socket.incoming;
      ghost var received := readBuf;
      while true
        invariant socket.incoming == unread
        invariant |readBuf| <= |received|
        invariant SameEnd(Serve(readBuf, writeBuf, d.store.State(), now, parser.hasError), goal)
        invariant d.store.Valid()
        decreases |readBuf|
      {
        ghost var hadError := parser.hasError;
        var parsed := parser.Parse(readBuf);
        if !parsed {
          ServeStop(readBuf, writeBuf, d.store.State(), now, hadError);
          break;
        }
        ServeStep(readBuf, writeBuf, d.store.State(), now, parser.args, parser.consumed);
        ghost var before := readBuf;
        var command := Views(readBuf, parser.args);
        writeBuf := d.Dispatch(command, writeBuf, now);
        readBuf := parser.Consume(readBuf);
        if |writeBuf| > MaxWriteBuffer {
          return false;
        }
      }
      if parser.hasError {
        writeBuf := AppendError(writeBuf, "protocol error");
        return false;
      }
      return true;
    }
  }
}
