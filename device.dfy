/** The `MySmartUsb` controller: each operation writes its frame to the
    port and parses the reply out of the device's byte stream, step by
    step, and is proved to agree with the pure description in `Protocol`. */
module Device {
  import opened Bytes
  import opened Protocol
  import opened Serial

  /** Drops the value of a successful result, as the Python callers do. */
  function Discard<T>(r: Result<T>): (u: Result<()>)
    ensures u.Ok? <==> r.Ok?
    ensures u.Err? ==> u.error == r.error
  {
    match r
    case Ok(_) => Ok(())
    case Err(e) => Err(e)
  }

  class MySmartUsb {
    const serial: Port

    ghost predicate Valid()
      reads serial
    {
      serial.Valid()
    }

    /** Takes over a port that is already open. */
    constructor (port: Port)
      requires port.Valid()
      ensures serial == port && Valid()
    {
      serial := port;
    }

    /** The resynchronisation loop of `__sendCmd`: read a 5-byte window
        and slide it one byte at a time until the envelope markers line
        up. Returns the aligned window, or None when the input runs out
        first. */
    method Resync() returns (window: Option<seq<byte>>)
      requires Valid()
      modifies serial
      ensures Valid()
      ensures window.Some? ==>
                old(serial.cursor) + 5 <= serial.cursor &&
                window.value == serial.input[serial.cursor - 5..serial.cursor] &&
                Aligned(window.value) &&
                forall j :: old(serial.cursor) <= j < serial.cursor - 5 ==> !EnvelopeAt(serial.input, j)
      ensures window.None? ==>
                serial.cursor == |serial.input| &&
                forall j :: old(serial.cursor) <= j && j + 5 <= |serial.input| ==> !EnvelopeAt(serial.input, j)
      ensures ReadsOnly(old(serial.trace), serial.trace)
    {
      ghost var s := serial.input;
      ghost var c0 := serial.cursor;
      ghost var t0 := serial.trace;
      var got := serial.Read(5);
      ReadsOnlySnoc(t0, t0, Got(s[c0..serial.cursor]));
      if got.None? {
        return None;
      }
      var ret := got.value;
      while !Aligned(ret)
        invariant serial.Valid()
        invariant c0 + 5 <= serial.cursor <= |s|
        invariant ret == s[serial.cursor - 5..serial.cursor]
        invariant forall j :: c0 <= j < serial.cursor - 5 ==> !EnvelopeAt(s, j)
        invariant ReadsOnly(t0, serial.trace)
        decreases |s| - serial.cursor
      {
        assert !EnvelopeAt(s, serial.cursor - 5);
        ghost var t1 := serial.trace;
        var next := Slide(ret);
        ReadsOnlyTrans(t0, t1, serial.trace);
        if next.None? {
          return None;
        }
        ret := next.value;
      }
      window := Some(ret);
    }

    /** One step of the scan: drop the oldest byte of the window and
        append the next byte read. */
    method Slide(window: seq<byte>) returns (next: Option<seq<byte>>)
      requires Valid() && 5 <= serial.cursor
      requires window == serial.input[serial.cursor - 5..serial.cursor]
      modifies serial
      ensures Valid()
      ensures next.Some? ==>
                serial.cursor == old(serial.cursor) + 1 &&
                next.value == serial.input[serial.cursor - 5..serial.cursor]
      ensures next.None? ==> old(serial.cursor) == serial.cursor == |serial.input|
      ensures ReadsOnly(old(serial.trace), serial.trace)
    {
      ghost var s := serial.input;
      ghost var c := serial.cursor;
      var got := serial.Read(1);
      if got.None? {
        return None;
      }
      assert s[c - 4..c] + s[c..c + 1] == s[c - 4..c + 1];
      next := Some(window[1..] + got.value);
    }

    /** The envelope part of `__sendCmd`: resynchronise, then check that
        the payload echoes the command (any payload answers `i`). */
    method ReadReply(cmd: byte) returns (r: Result<Option<seq<byte>>>)
      requires Valid()
      requires cmd != CMD_RESET_PROG && cmd != CMD_GET_VERSION
      modifies serial
      ensures Valid()
      ensures Transact(cmd, serial.input, old(serial.cursor)) == Step(r, serial.cursor)
      ensures ReadsOnly(old(serial.trace), serial.trace)
    {
      ghost var c0 := serial.cursor;
      var window := Resync();
      if window.None? {
        FindEnvelopeNone(serial.input, c0);
        return Err(NoReply);
      }
      FindEnvelopeIs(serial.input, c0, serial.cursor - 5);
      var ret := window.value;
      if cmd != CMD_GET_MODE && ret[2] != cmd {
        r := Err(DeviceError(MismatchMessage(ret[2])));
      } else {
        r := Ok(Some([ret[2]]));
      }
    }

    /** The `v` part of `__sendCmd`: wait 250 ms, take everything buffered
        and cut the text out of it. */
    method ReadVersion() returns (version: seq<byte>)
      requires Valid()
      modifies serial
      ensures Valid()
      ensures version == VersionSlice(serial.input[old(serial.cursor)..])
      ensures serial.cursor == |serial.input|
      ensures serial.trace == old(serial.trace) + [Slept(250), Got(serial.input[old(serial.cursor)..])]
      ensures ReadsOnly(old(serial.trace), serial.trace)
    {
      ghost var s := serial.input;
      ghost var c := serial.cursor;
      ghost var t0 := serial.trace;
      serial.Sleep(250);
      ReadsOnlySnoc(t0, t0, Slept(250));
      var count := serial.InWaiting();
      ghost var t1 := serial.trace;
      var buffered := serial.Read(count);
      ReadsOnlySnoc(t0, t1, Got(s[c..serial.cursor]));
      assert buffered.value == s[c..] by {
        assert c + count == |s|;
      }
      version := VersionSlice(buffered.value);
    }

    /** `__sendCmd(cmd)`: write the frame, flush, then read the reply whose
        shape the command selects. */
    method SendCmd(cmd: byte) returns (r: Result<Option<seq<byte>>>)
      requires Valid()
      modifies serial
      ensures Valid()
      ensures Transact(cmd, serial.input, old(serial.cursor)) == Step(r, serial.cursor)
      ensures FrameThenReads(old(serial.trace), serial.trace, Frame(cmd))
      ensures Sent(serial.trace) == Sent(old(serial.trace)) + Frame(cmd)
      ensures cmd == CMD_RESET_PROG ==> serial.trace == old(serial.trace) + [Wrote(Frame(cmd)), Flushed]
      ensures cmd == CMD_GET_VERSION ==>
                serial.trace == old(serial.trace) +
                  [Wrote(Frame(cmd)), Flushed, Slept(250), Got(serial.input[old(serial.cursor)..])]
    {
      ghost var t0 := serial.trace;
      var data := PREFIX + [cmd];
      serial.Write(data);
      serial.Flush();
      ghost var t1 := serial.trace;
      assert t1 == t0 + [Wrote(Frame(cmd)), Flushed];
      if cmd == CMD_RESET_PROG {
        r := Ok(None);
      } else if cmd == CMD_GET_VERSION {
        ghost var t2 := serial.trace;
        var version := ReadVersion();
        ReadsOnlyTrans(t1, t2, serial.trace);
        r := Ok(Some(version));
      } else {
        ghost var t2 := serial.trace;
        r := ReadReply(cmd);
        ReadsOnlyTrans(t1, t2, serial.trace);
      }
      SentFrameThenReads(t0, serial.trace, Frame(cmd));
    }

    /** `resetBoard()`: the `r` command; the echoed byte is dropped. */
    method ResetBoard() returns (r: Result<()>)
      requires Valid()
      modifies serial
      ensures Valid()
      ensures var x := Transact(CMD_RESET_BOARD, serial.input, old(serial.cursor));
              r == Discard(x.result) && serial.cursor == x.next
      ensures FrameThenReads(old(serial.trace), serial.trace, Frame(CMD_RESET_BOARD))
      ensures Sent(serial.trace) == Sent(old(serial.trace)) + Frame(CMD_RESET_BOARD)
    {
      var x := SendCmd(CMD_RESET_BOARD);
      r := Discard(x);
    }

    /** `resetProg()`: the `R` frame goes out and the call returns without
        reading, so it cannot wait for a reply that never comes. */
    method ResetProg() returns (r: Result<()>)
      requires Valid()
      modifies serial
      ensures Valid()
      ensures r == Ok(()) && serial.cursor == old(serial.cursor)
      ensures serial.trace == old(serial.trace) + [Wrote(Frame(CMD_RESET_PROG)), Flushed]
    {
      var x := SendCmd(CMD_RESET_PROG);
      r := Discard(x);
    }

    /** `power(on)`: `+` to switch the board supply on, `-` to switch it off. */
    method Power(on: bool) returns (r: Result<()>)
      requires Valid()
      modifies serial
      ensures Valid()
      ensures var cmd := if on then CMD_POWER_ON else CMD_POWER_OFF;
              var x := Transact(cmd, serial.input, old(serial.cursor));
              r == Discard(x.result) && serial.cursor == x.next &&
              FrameThenReads(old(serial.trace), serial.trace, Frame(cmd)) &&
              Sent(serial.trace) == Sent(old(serial.trace)) + Frame(cmd)
    {
      var x := SendCmd(if on then CMD_POWER_ON else CMD_POWER_OFF);
      r := Discard(x);
    }

    /** `getMode()`: the payload of the `i` reply, whatever it is. */
    method GetMode() returns (r: Result<byte>)
      requires Valid()
      modifies serial
      ensures Valid()
      ensures ModeQuery(serial.input, old(serial.cursor)) == Step(r, serial.cursor)
      ensures FrameThenReads(old(serial.trace), serial.trace, Frame(CMD_GET_MODE))
      ensures Sent(serial.trace) == Sent(old(serial.trace)) + Frame(CMD_GET_MODE)
    {
      ModeQueryIsTransact(serial.input, serial.cursor);
      var x := SendCmd(CMD_GET_MODE);
      match x
      case Err(e) => r := Err(e);
      case Ok(reply) => r := Ok(reply.value[0]);
    }

    /** `setMode(mode)`: query the mode; if it differs, send `mode`, wait
        500 ms and query once more; fail if the mode still differs. */
    method SetMode(mode: byte) returns (r: Result<()>)
      requires Valid()
      modifies serial
      ensures Valid()
      ensures var run := SetModeRun(mode, serial.input, old(serial.cursor));
              r == run.result && serial.cursor == run.next &&
              Sent(serial.trace) == Sent(old(serial.trace)) + run.sent
    {
      FramesUpToThree(CMD_GET_MODE, mode, CMD_GET_MODE);
      ghost var sent0 := Sent(serial.trace);
      var m := GetMode();
      ghost var sent1 := Sent(serial.trace);
      assert sent1 == sent0 + Frames([CMD_GET_MODE]);
      if m.Err? || m.value == mode {
        return if m.Err? then Err(m.error) else Ok(());
      }
      var x := SendCmd(mode);
      ghost var sent2 := Sent(serial.trace);
      assert sent2 == sent0 + Frames([CMD_GET_MODE, mode]);
      if x.Err? {
        return Err(x.error);
      }
      ghost var t := serial.trace;
      serial.Sleep(500);
      ReadsOnlySnoc(t, t, Slept(500));
      SentReadsOnly(t, serial.trace);
      m := GetMode();
      assert Sent(serial.trace) == sent0 + Frames([CMD_GET_MODE, mode, CMD_GET_MODE]);
      if m.Err? || m.value == mode {
        return if m.Err? then Err(m.error) else Ok(());
      }
      return Err(DeviceError(SET_MODE_FAILED));
    }

    /** `getVersion()`: the bytes between the first two F7 markers of the
        buffered `v` reply, decoded as ASCII. */
    method GetVersion() returns (r: Result<string>)
      requires Valid()
      modifies serial
      ensures Valid()
      ensures r == DecodeVersion(VersionSlice(serial.input[old(serial.cursor)..]))
      ensures serial.cursor == |serial.input|
      ensures serial.trace == old(serial.trace) +
                [Wrote(Frame(CMD_GET_VERSION)), Flushed, Slept(250), Got(serial.input[old(serial.cursor)..])]
      ensures FrameThenReads(old(serial.trace), serial.trace, Frame(CMD_GET_VERSION))
      ensures Sent(serial.trace) == Sent(old(serial.trace)) + Frame(CMD_GET_VERSION)
    {
      var x := SendCmd(CMD_GET_VERSION);
      var b := x.value.value;
      match AsciiDecode(b)
      case None => r := Err(DeviceError(VERSION_FAILED));
      case Some(text) => r := Ok(text);
    }
  }
}
