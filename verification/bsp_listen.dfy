/** The bspwm listener of src/wm/bsp/listen.rs.  A reader thread reads the
    subscription socket one byte at a time, cuts the stream into messages at
    each newline and sends each message, decoded as UTF-8, over a channel;
    the main loop turns the messages that start with "W" (bspwm's report
    lines) into workspace events and restarts the listener when the
    connection failed. */
module BspListen {
  import opened Wrappers
  import opened Utf8

  const Newline: Byte := 10

  /** What the reader thread sends: `Ok(String::from_utf8(msg))` for each
      framed message (`None` when it is not UTF-8), or the connection error. */
  datatype ThreadMessage = Framed(text: Option<string>) | ConnectFailed(error: string)

  /** The sending side of the channel: everything sent so far. */
  class Channel {
    var sent: seq<ThreadMessage>

    constructor ()
      ensures sent == []
    {
      sent := [];
    }

    method Send(m: ThreadMessage)
      modifies this
      ensures sent == old(sent) + [m]
    {
      sent := sent + [m];
    }
  }

  // ---------------------------------------------------------------------
  // Framing, as functions of the bytes read

  /** The bytes of the reads that succeeded, in order; each successful read
      delivers one byte and a failed read (`None`) delivers nothing. */
  function Received(results: seq<Option<Byte>>): seq<Byte>
    decreases |results|
  {
    if results == [] then []
    else
      var last := results[|results| - 1];
      Received(results[..|results| - 1]) + (if last.Some? then [last.value] else [])
  }

  /** The messages emitted and the pending message after reading `bytes`. */
  function Frames(bytes: seq<Byte>): (seq<seq<Byte>>, seq<Byte>)
    decreases |bytes|
  {
    if bytes == [] then ([], [])
    else
      var (ms, pending) := Frames(bytes[..|bytes| - 1]);
      var b := bytes[|bytes| - 1];
      if b == Newline then (ms + [pending], []) else (ms, pending + [b])
  }

  /** Each message followed by a newline, all concatenated. */
  function Join(ms: seq<seq<Byte>>): seq<Byte>
    decreases |ms|
  {
    if ms == [] then [] else Join(ms[..|ms| - 1]) + ms[|ms| - 1] + [Newline]
  }

  /** What the thread sends for a list of framed messages. */
  function Decoded(ms: seq<seq<Byte>>): seq<ThreadMessage> {
    seq(|ms|, i requires 0 <= i < |ms| => Framed(FromUtf8(ms[i])))
  }

  // ---------------------------------------------------------------------
  // The reader thread

  /** The framing loop over the reads made so far: pushes each byte onto the
      pending message and, on a newline, sends the pending message and
      clears it.  Returns the message still pending. */
  method ReadLoop(tx: Channel, results: seq<Option<Byte>>) returns (msg: seq<Byte>)
    modifies tx
    ensures tx.sent == old(tx.sent) + Decoded(Frames(Received(results)).0)
    ensures msg == Frames(Received(results)).1
  {
    var current := new Byte[1];
    current[0] := 0;
    msg := [];
    var i := 0;
    while i < |results|
      invariant 0 <= i <= |results|
      invariant tx.sent == old(tx.sent) + Decoded(Frames(Received(results[..i])).0)
      invariant msg == Frames(Received(results[..i])).1
    {
      ReceivedStep(results, i);
      ghost var bytes := Received(results[..i]);
      if results[i].Some? {
        current[0] := results[i].value;
        FramesStep(bytes, current[0]);
        assert Received(results[..i + 1]) == bytes + [current[0]];
        if current[0] == Newline {
          DecodedStep(Frames(bytes).0, msg);
          tx.Send(Framed(FromUtf8(msg)));
          msg := [];
        } else {
          msg := msg + [current[0]];
        }
      } else {
        assert Received(results[..i + 1]) == bytes;
      }
      i := i + 1;
    }
    assert results[..i] == results;
  }

  /** The reader thread: the connection error when connecting failed,
      otherwise the framing loop over the reads. */
  method ReaderThread(tx: Channel, connection: Option<seq<Option<Byte>>>, error: string)
    modifies tx
    ensures connection.None? ==> tx.sent == old(tx.sent) + [ConnectFailed(error)]
    ensures connection.Some? ==> tx.sent == old(tx.sent) + Decoded(Frames(Received(connection.value)).0)
  {
    if connection.None? {
      tx.Send(ConnectFailed(error));
    } else {
      var _ := ReadLoop(tx, connection.value);
    }
  }

  // ---------------------------------------------------------------------
  // The main loop

  datatype Reaction = EmitWorkspaces(report: string) | Ignore | Restart

  predicate StartsWithW(text: string) {
    |text| >= 1 && text[..1] == "W"
  }

  /** What the main loop does with one message from the thread: a decoded
      report starting with "W" is parsed into workspaces, other messages
      are dropped, and a connection error restarts the listener. */
  function React(m: ThreadMessage): Reaction {
    match m
    case Framed(Some(text)) => if StartsWithW(text) then EmitWorkspaces(text) else Ignore
    case Framed(None) => Ignore
    case ConnectFailed(_) => Restart
  }

  // ---------------------------------------------------------------------
  // Lemmas

  /** One more read adds its byte, if it delivered one. */
  lemma ReceivedStep(results: seq<Option<Byte>>, i: nat)
    requires i < |results|
    ensures Received(results[..i + 1]) ==
              Received(results[..i]) + (if results[i].Some? then [results[i].value] else [])
  {
    assert results[..i + 1][..i] == results[..i];
  }

  /** One more byte either ends the pending message or extends it. */
  lemma FramesStep(bytes: seq<Byte>, b: Byte)
    ensures Frames(bytes + [b]) ==
              if b == Newline then (Frames(bytes).0 + [Frames(bytes).1], [])
              else (Frames(bytes).0, Frames(bytes).1 + [b])
  {
    assert (bytes + [b])[..|bytes|] == bytes;
  }

  lemma DecodedStep(ms: seq<seq<Byte>>, m: seq<Byte>)
    ensures Decoded(ms + [m]) == Decoded(ms) + [Framed(FromUtf8(m))]
  {
  }

  lemma {:induction false} JoinAppend(ms: seq<seq<Byte>>, m: seq<Byte>)
    ensures Join(ms + [m]) == Join(ms) + m + [Newline]
  {
    assert (ms + [m])[..|ms|] == ms;
  }

  /** The messages, each followed by a newline, then the pending message,
      give back exactly the bytes read; no message contains a newline. */
  lemma {:induction false} FramesRoundTrip(bytes: seq<Byte>)
    ensures Join(Frames(bytes).0) + Frames(bytes).1 == bytes
    ensures forall m :: m in Frames(bytes).0 ==> Newline !in m
    ensures Newline !in Frames(bytes).1
    decreases |bytes|
  {
    if bytes != [] {
      var front := bytes[..|bytes| - 1];
      var b := bytes[|bytes| - 1];
      FramesRoundTrip(front);
      var (ms, pending) := Frames(front);
      assert bytes == front + [b];
      if b == Newline {
        JoinAppend(ms, pending);
      }
    }
  }

  /** One message per newline read. */
  lemma {:induction false} FramesCount(bytes: seq<Byte>)
    ensures |Frames(bytes).0| == multiset(bytes)[Newline]
    decreases |bytes|
  {
    if bytes != [] {
      var front := bytes[..|bytes| - 1];
      FramesCount(front);
      assert bytes == front + [bytes[|bytes| - 1]];
    }
  }

  /** Framing is the only way to cut the bytes into newline-free messages
      and a newline-free rest: `Join` and `Frames` are inverse. */
  lemma {:induction false} FramesUnique(ms: seq<seq<Byte>>, pending: seq<Byte>)
    requires forall m :: m in ms ==> Newline !in m
    requires Newline !in pending
    ensures Frames(Join(ms) + pending) == (ms, pending)
    decreases |ms|, |pending|
  {
    var bytes := Join(ms) + pending;
    if pending != [] {
      var front := pending[..|pending| - 1];
      assert bytes[..|bytes| - 1] == Join(ms) + front;
      assert pending[|pending| - 1] in pending;
      FramesUnique(ms, front);
      assert front + [pending[|pending| - 1]] == pending;
    } else if ms != [] {
      var init, last := ms[..|ms| - 1], ms[|ms| - 1];
      assert ms == init + [last];
      assert bytes == Join(init) + last + [Newline];
      assert bytes[..|bytes| - 1] == Join(init) + last;
      assert last in ms;
      FramesUnique(init, last);
    } else {
      assert bytes == [];
    }
  }

  /** Two newlines in a row emit an empty message. */
  lemma ConsecutiveNewlines(bytes: seq<Byte>)
    ensures Frames(bytes + [Newline, Newline]).0 == Frames(bytes).0 + [Frames(bytes).1, []]
    ensures Frames(bytes + [Newline, Newline]).1 == []
  {
    var b1 := bytes + [Newline];
    var b2 := bytes + [Newline, Newline];
    assert b2[..|b2| - 1] == b1 && b1[..|b1| - 1] == bytes;
  }

  /** A framed message is turned into workspaces exactly when it is UTF-8
      and its first byte is 'W' (0x57); the report handed to the parser is
      then the message itself, decoded without loss. */
  lemma ReportFilter(msg: seq<Byte>)
    ensures React(Framed(FromUtf8(msg))).EmitWorkspaces? <==>
              FromUtf8(msg).Some? && msg != [] && msg[0] == 0x57
    ensures React(Framed(FromUtf8(msg))).EmitWorkspaces? ==>
              Encode(React(Framed(FromUtf8(msg))).report) == msg
  {
    if FromUtf8(msg).Some? {
      EncodeFromUtf8(msg);
      if msg != [] {
        FirstChar(msg);
      }
    }
  }

  /** Only a connection error restarts the listener. */
  lemma RestartOnlyOnError(m: ThreadMessage)
    ensures React(m) == Restart <==> m.ConnectFailed?
  {
  }
}
