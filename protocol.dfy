/** The MySmartUSB command/response codec as pure functions over the byte
    stream the device sends: how a command is framed, where the reply to
    it sits in the stream, what the command returns, and how `setMode`
    composes three exchanges. The `Device` module runs the same protocol
    step by step against a `Serial.Port` and is proved to agree with
    these functions. */
module Protocol {
  import opened Bytes
  import opened Hex

  /** The fixed magic bytes in front of every command byte. */
  const PREFIX: seq<byte> := [0xE6, 0xB5, 0xBA, 0xB9, 0xB2, 0xB3, 0xA9]

  const CMD_RESET_BOARD: byte := 'r' as int
  const CMD_RESET_PROG: byte := 'R' as int
  const CMD_POWER_ON: byte := '+' as int
  const CMD_POWER_OFF: byte := '-' as int
  const CMD_GET_MODE: byte := 'i' as int
  const CMD_GET_VERSION: byte := 'v' as int

  const MODE_PROG: byte := 'p' as int
  const MODE_DATA: byte := 'd' as int
  const MODE_QUIET: byte := 'q' as int

  /** The byte that brackets the version text in the `v` reply. */
  const VERSION_MARK: byte := 0xF7

  const MISMATCH_PREFIX := "Invalid command return: "
  const SET_MODE_FAILED := "Failed to set mode"
  const VERSION_FAILED := "Failed to read version string"

  /** `MySmartUsbError` carries a message. `NoReply` exists only in the
      model: the input ended before the bytes a blocking read waits for,
      where the real program would wait for ever. */
  datatype Error = DeviceError(message: string) | NoReply

  datatype Result<+T> = Ok(value: T) | Err(error: Error)

  /** What one protocol step returns, and the read cursor after it. */
  datatype Step<+T> = Step(result: Result<T>, next: nat)

  // ----- Framing -----

  /** The bytes written for one command. */
  function Frame(cmd: byte): (f: seq<byte>)
    ensures |f| == 8 && f[..7] == PREFIX && f[7] == cmd
  {
    PREFIX + [cmd]
  }

  /** The bytes written for a sequence of commands, one frame after another. */
  function Frames(cmds: seq<byte>): (s: seq<byte>)
    ensures |s| == 8 * |cmds|
  {
    if cmds == [] then [] else Frame(cmds[0]) + Frames(cmds[1..])
  }

  /** The frames of one, two and three commands, written out. */
  lemma FramesUpToThree(a: byte, b: byte, c: byte)
    ensures Frames([a]) == Frame(a)
    ensures Frames([a, b]) == Frame(a) + Frame(b)
    ensures Frames([a, b, c]) == Frame(a) + Frame(b) + Frame(c)
  {
    assert [a, b, c][1..] == [b, c];
    assert [b, c][1..] == [c];
    assert [a, b][1..] == [b];
    assert [c][1..] == [];
    assert [b][1..] == [];
    assert [a][1..] == [];
    assert Frames([a, b, c]) == Frame(a) + Frames([b, c]);
    assert Frames([b, c]) == Frame(b) + Frame(c);
  }

  /** Splits written bytes into frames and returns their command bytes;
      None when the bytes are not a whole number of prefixed frames. */
  function ParseFrames(s: seq<byte>): (r: Option<seq<byte>>)
    decreases |s|
  {
    if s == [] then Some([])
    else if |s| < 8 || s[..7] != PREFIX then None
    else match ParseFrames(s[8..])
      case None => None
      case Some(cmds) => Some([s[7]] + cmds)
  }

  /** The written bytes determine the commands: frames are never ambiguous. */
  lemma {:induction false} FramesRoundTrip(cmds: seq<byte>)
    ensures ParseFrames(Frames(cmds)) == Some(cmds)
  {
    if cmds != [] {
      var s := Frames(cmds);
      FramesRoundTrip(cmds[1..]);
      assert s[..7] == PREFIX && s[7] == cmds[0];
      assert s[8..] == Frames(cmds[1..]);
      assert [cmds[0]] + cmds[1..] == cmds;
    }
  }

  // ----- The simple reply envelope F7 B1 <payload> 0D 0A -----

  /** The marker test of the resynchronisation loop on a 5-byte window. */
  predicate Aligned(w: seq<byte>)
    requires |w| == 5
  {
    w[0] == 0xF7 && w[1] == 0xB1 && w[3] == 0x0D && w[4] == 0x0A
  }

  /** A complete envelope starts at index `k` of `s`. */
  predicate EnvelopeAt(s: seq<byte>, k: nat) {
    k + 5 <= |s| && Aligned(s[k..k + 5])
  }

  /** The envelope a device sends around `payload`. */
  function Envelope(payload: byte): (e: seq<byte>)
    ensures |e| == 5 && Aligned(e) && e[2] == payload
  {
    [0xF7, 0xB1, payload, 0x0D, 0x0A]
  }

  /** The marker test passes exactly on windows that are the envelope
      around their own middle byte. */
  lemma AlignedIsEnvelope(w: seq<byte>)
    requires |w| == 5
    ensures Aligned(w) <==> w == Envelope(w[2])
  {
    if Aligned(w) {
      assert w == [w[0], w[1], w[2], w[3], w[4]];
    }
  }

  /** The first index at or after `from` where an envelope starts. The
      contract characterises it completely: an envelope is found exactly
      when one exists, and none starts before the one found. */
  function FindEnvelope(s: seq<byte>, from: nat): (r: Option<nat>)
    decreases |s| - from
    ensures r.Some? ==> from <= r.value && EnvelopeAt(s, r.value)
    ensures r.Some? ==> forall j :: from <= j < r.value ==> !EnvelopeAt(s, j)
    ensures r.None? ==> forall j :: from <= j ==> !EnvelopeAt(s, j)
  {
    if from + 5 > |s| then None
    else if EnvelopeAt(s, from) then Some(from)
    else FindEnvelope(s, from + 1)
  }

  /** If an envelope starts at `k` and none between `from` and `k`, the
      search finds exactly `k`. */
  lemma FindEnvelopeIs(s: seq<byte>, from: nat, k: nat)
    requires from <= k && EnvelopeAt(s, k)
    requires forall j :: from <= j < k ==> !EnvelopeAt(s, j)
    ensures FindEnvelope(s, from) == Some(k)
  {
  }

  /** With no envelope anywhere at or after `from`, the search fails. */
  lemma FindEnvelopeNone(s: seq<byte>, from: nat)
    requires forall j :: from <= j && j + 5 <= |s| ==> !EnvelopeAt(s, j)
    ensures FindEnvelope(s, from) == None
  {
  }

  // ----- The version reply -----

  /** Python's `bytes.find` for one byte: the first index of `b`, or -1. */
  function Find(s: seq<byte>, b: byte): (i: int)
    ensures -1 <= i < |s|
    ensures i == -1 <==> b !in s
    ensures i >= 0 ==> s[i] == b && b !in s[..i]
  {
    if s == [] then -1
    else if s[0] == b then 0
    else
      var i := Find(s[1..], b);
      assert s[1..][..i + 1] == s[1..i + 2];
      if i == -1 then -1 else i + 1
  }

  /** Python's slice `s[:j]` for `j >= -1`: `j == -1` drops the last byte. */
  function SliceTo(s: seq<byte>, j: int): (r: seq<byte>)
    requires -1 <= j <= |s|
    ensures j >= 0 ==> r == s[..j]
    ensures j == -1 ==> forall x :: x in r ==> x in s
  {
    if j >= 0 then s[..j] else if s == [] then [] else s[..|s| - 1]
  }

  /** The bytes `v` returns: everything after the first F7, cut at the next F7. */
  function VersionSlice(buf: seq<byte>): (v: seq<byte>)
    ensures VERSION_MARK !in v
  {
    var rest := buf[Find(buf, VERSION_MARK) + 1..];
    SliceTo(rest, Find(rest, VERSION_MARK))
  }

  /** `find` hits the first occurrence after a prefix free of it. */
  lemma FindAfter(pre: seq<byte>, b: byte, post: seq<byte>)
    requires b !in pre
    ensures Find(pre + [b] + post, b) == |pre|
  {
    var s := pre + [b] + post;
    assert s[|pre|] == b;
    assert s[..|pre|] == pre;
    assert s[..|pre| + 1] == pre + [b];
  }

  /** A well-formed reply: the text between the first two markers. */
  lemma VersionBetweenMarkers(pre: seq<byte>, text: seq<byte>, post: seq<byte>)
    requires VERSION_MARK !in pre && VERSION_MARK !in text
    ensures VersionSlice(pre + [VERSION_MARK] + text + [VERSION_MARK] + post) == text
  {
    var buf := pre + [VERSION_MARK] + text + [VERSION_MARK] + post;
    assert buf == pre + [VERSION_MARK] + (text + [VERSION_MARK] + post);
    FindAfter(pre, VERSION_MARK, text + [VERSION_MARK] + post);
    var rest := buf[|pre| + 1..];
    assert rest == text + [VERSION_MARK] + post;
    FindAfter(text, VERSION_MARK, post);
  }

  /** No marker at all: `find` gives -1 twice, so the whole buffer but its
      last byte is returned. */
  lemma VersionNoMarker(buf: seq<byte>)
    requires VERSION_MARK !in buf
    ensures VersionSlice(buf) == if buf == [] then [] else buf[..|buf| - 1]
  {
  }

  /** One marker only: what follows it, minus the last byte. */
  lemma VersionOneMarker(pre: seq<byte>, post: seq<byte>)
    requires VERSION_MARK !in pre && VERSION_MARK !in post
    ensures VersionSlice(pre + [VERSION_MARK] + post) == if post == [] then [] else post[..|post| - 1]
  {
    FindAfter(pre, VERSION_MARK, post);
    assert (pre + [VERSION_MARK] + post)[|pre| + 1..] == post;
  }

  /** `getVersion`'s decoding of the sliced bytes. */
  function DecodeVersion(b: seq<byte>): (r: Result<string>)
    ensures r.Err? <==> exists i :: 0 <= i < |b| && b[i] > 0x7F
    ensures r.Err? ==> r.error == DeviceError(VERSION_FAILED)
    ensures r.Ok? ==> |r.value| == |b| && forall i :: 0 <= i < |b| ==> r.value[i] as int == b[i]
  {
    match AsciiDecode(b)
    case None => Err(DeviceError(VERSION_FAILED))
    case Some(t) => Ok(t)
  }

  /** The example reply `... F7 "1.23" F7 ...` yields the text "1.23". */
  lemma VersionExample(pre: seq<byte>, post: seq<byte>)
    requires VERSION_MARK !in pre
    ensures DecodeVersion(VersionSlice(pre + [VERSION_MARK] + [0x31, 0x2E, 0x32, 0x33] + [VERSION_MARK] + post)) == Ok("1.23")
  {
    var text: seq<byte> := [0x31, 0x2E, 0x32, 0x33];
    VersionBetweenMarkers(pre, text, post);
    assert forall i :: 0 <= i < |text| ==> text[i] < 0x80;
    var t := AsciiDecode(text).value;
    assert t[0] as int == 0x31 && t[1] as int == 0x2E && t[2] as int == 0x32 && t[3] as int == 0x33;
    assert t == "1.23";
  }

  // ----- One exchange: frame out, reply in -----

  /** The message of the mismatch error: the payload in `"%02X"` form. */
  function MismatchMessage(payload: byte): (m: string)
    ensures |m| == |MISMATCH_PREFIX| + 2
    ensures m[..|MISMATCH_PREFIX|] == MISMATCH_PREFIX
    ensures ParseHexByte(m[|MISMATCH_PREFIX|..]) == Some(payload)
  {
    MISMATCH_PREFIX + HexByte(payload)
  }

  /** The echo check on an aligned envelope: the mode query accepts any
      payload; every other command must see itself echoed. */
  function EchoCheck(cmd: byte, payload: byte): (r: Result<Option<seq<byte>>>)
    ensures r.Ok? <==> cmd == CMD_GET_MODE || payload == cmd
    ensures r.Ok? ==> r.value == Some([payload])
    ensures r.Err? ==> r.error == DeviceError(MismatchMessage(payload))
  {
    if cmd != CMD_GET_MODE && payload != cmd then Err(DeviceError(MismatchMessage(payload)))
    else Ok(Some([payload]))
  }

  /** What `__sendCmd(cmd)` returns when the device's bytes are `s` and
      the first `c` of them were already read, with the cursor after it.
      `R` reads nothing; `v` takes all buffered bytes; every other command
      takes the first envelope at or after `c`. */
  function Transact(cmd: byte, s: seq<byte>, c: nat): (x: Step<Option<seq<byte>>>)
    requires c <= |s|
    ensures c <= x.next <= |s|
  {
    if cmd == CMD_RESET_PROG then Step(Ok(None), c)
    else if cmd == CMD_GET_VERSION then Step(Ok(Some(VersionSlice(s[c..]))), |s|)
    else match FindEnvelope(s, c)
      case None => Step(Err(NoReply), |s|)
      case Some(k) => Step(EchoCheck(cmd, s[k + 2]), k + 5)
  }

  /** `R` never waits for a reply: nothing is read and nothing can fail. */
  lemma ResetProgReadsNothing(s: seq<byte>, c: nat)
    requires c <= |s|
    ensures Transact(CMD_RESET_PROG, s, c) == Step(Ok(None), c)
  {
  }

  /** The resynchronisation: with the first envelope after `c` at `k`, an
      enveloped command consumes up to `k + 5` and its result is decided
      by the payload `s[k + 2]` alone. */
  lemma TransactResyncs(cmd: byte, s: seq<byte>, c: nat, k: nat)
    requires cmd != CMD_RESET_PROG && cmd != CMD_GET_VERSION
    requires c <= k && EnvelopeAt(s, k)
    requires forall j :: c <= j < k ==> !EnvelopeAt(s, j)
    ensures Transact(cmd, s, c) == Step(EchoCheck(cmd, s[k + 2]), k + 5)
  {
    FindEnvelopeIs(s, c, k);
  }

  /** Garbage free of F7 in front of an envelope is skipped: exactly
      `|garbage| + 5` bytes are consumed. */
  lemma {:induction false} GarbageSkipped(cmd: byte, garbage: seq<byte>, payload: byte, rest: seq<byte>)
    requires cmd != CMD_RESET_PROG && cmd != CMD_GET_VERSION
    requires 0xF7 !in garbage
    ensures Transact(cmd, garbage + Envelope(payload) + rest, 0)
         == Step(EchoCheck(cmd, payload), |garbage| + 5)
  {
    var s := garbage + Envelope(payload) + rest;
    var k := |garbage|;
    assert s[k..k + 5] == Envelope(payload);
    forall j | 0 <= j < k
      ensures !EnvelopeAt(s, j)
    {
      assert s[j] == garbage[j];
      assert s[j..j + 5][0] == s[j];
    }
    TransactResyncs(cmd, s, 0, k);
  }

  /** An enveloped command whose echo comes back intact returns itself. */
  lemma EchoRoundTrip(cmd: byte, rest: seq<byte>)
    requires cmd != CMD_RESET_PROG && cmd != CMD_GET_VERSION
    ensures Transact(cmd, Envelope(cmd) + rest, 0) == Step(Ok(Some([cmd])), 5)
  {
    GarbageSkipped(cmd, [], cmd, rest);
  }

  /** A wrong echo fails with a message that names the byte received. */
  lemma MismatchDetected(cmd: byte, payload: byte, rest: seq<byte>)
    requires cmd != CMD_RESET_PROG && cmd != CMD_GET_VERSION && cmd != CMD_GET_MODE
    requires payload != cmd
    ensures Transact(cmd, Envelope(payload) + rest, 0).result
         == Err(DeviceError(MISMATCH_PREFIX + HexByte(payload)))
  {
    GarbageSkipped(cmd, [], payload, rest);
  }

  // ----- Mode query and setMode -----

  /** `getMode`: the payload of the first envelope, whatever it is. */
  function ModeQuery(s: seq<byte>, c: nat): (q: Step<byte>)
    requires c <= |s|
    ensures c <= q.next <= |s|
  {
    match FindEnvelope(s, c)
    case None => Step(Err(NoReply), |s|)
    case Some(k) => Step(Ok(s[k + 2]), k + 5)
  }

  /** The mode query is the `i` exchange with its one payload byte taken
      out; it never reports a mismatch. */
  lemma ModeQueryIsTransact(s: seq<byte>, c: nat)
    requires c <= |s|
    ensures var x := Transact(CMD_GET_MODE, s, c);
            var q := ModeQuery(s, c);
            q.next == x.next &&
            (q.result.Ok? <==> x.result.Ok?) &&
            (q.result.Ok? ==> x.result.value == Some([q.result.value])) &&
            (q.result.Err? ==> q.result.error == x.result.error == NoReply)
  {
  }

  /** What a call of `setMode(mode)` returns, where the cursor ends, and
      the bytes it writes. */
  datatype Run = Run(result: Result<()>, next: nat, sent: seq<byte>)

  function SetModeRun(mode: byte, s: seq<byte>, c: nat): (run: Run)
    requires c <= |s|
    ensures c <= run.next <= |s|
  {
    var q1 := ModeQuery(s, c);
    if q1.result.Err? then Run(Err(q1.result.error), q1.next, Frames([CMD_GET_MODE]))
    else if q1.result.value == mode then Run(Ok(()), q1.next, Frames([CMD_GET_MODE]))
    else
      var x := Transact(mode, s, q1.next);
      if x.result.Err? then Run(Err(x.result.error), x.next, Frames([CMD_GET_MODE, mode]))
      else
        var q2 := ModeQuery(s, x.next);
        var sent := Frames([CMD_GET_MODE, mode, CMD_GET_MODE]);
        if q2.result.Err? then Run(Err(q2.result.error), q2.next, sent)
        else if q2.result.value == mode then Run(Ok(()), q2.next, sent)
        else Run(Err(DeviceError(SET_MODE_FAILED)), q2.next, sent)
  }

  /** Already in the requested mode: one query, nothing switched. */
  lemma SetModeAlreadySet(mode: byte, s: seq<byte>, c: nat)
    requires c <= |s| && ModeQuery(s, c).result == Ok(mode)
    ensures SetModeRun(mode, s, c) == Run(Ok(()), ModeQuery(s, c).next, Frames([CMD_GET_MODE]))
  {
  }

  /** A different mode reported: query, switch, one verifying query; the
      call fails exactly when the verifying query does not report `mode`. */
  lemma SetModeSwitches(mode: byte, s: seq<byte>, c: nat)
    requires c <= |s|
    requires ModeQuery(s, c).result.Ok? && ModeQuery(s, c).result.value != mode
    requires Transact(mode, s, ModeQuery(s, c).next).result.Ok?
    requires ModeQuery(s, Transact(mode, s, ModeQuery(s, c).next).next).result.Ok?
    ensures var q2 := ModeQuery(s, Transact(mode, s, ModeQuery(s, c).next).next);
            var run := SetModeRun(mode, s, c);
            run.sent == Frames([CMD_GET_MODE, mode, CMD_GET_MODE]) &&
            run.next == q2.next &&
            (run.result.Ok? <==> q2.result.value == mode) &&
            (run.result.Err? ==> run.result.error == DeviceError(SET_MODE_FAILED))
  {
  }

  /** Whatever happens, setMode writes the frames `i`, `i m` or `i m i`
      and no others, and sends `m` only after a query reported another mode. */
  lemma {:induction false} SetModeFrames(mode: byte, s: seq<byte>, c: nat)
    requires c <= |s|
    ensures var run := SetModeRun(mode, s, c);
            ParseFrames(run.sent) in {Some([CMD_GET_MODE]), Some([CMD_GET_MODE, mode]),
                                      Some([CMD_GET_MODE, mode, CMD_GET_MODE])}
    ensures |SetModeRun(mode, s, c).sent| > 8 ==>
            ModeQuery(s, c).result.Ok? && ModeQuery(s, c).result.value != mode
  {
    FramesRoundTrip([CMD_GET_MODE]);
    FramesRoundTrip([CMD_GET_MODE, mode]);
    FramesRoundTrip([CMD_GET_MODE, mode, CMD_GET_MODE]);
  }

  /** The device keeps reporting a mode other than the one requested:
      one switch frame, one verifying query, then "Failed to set mode". */
  lemma SetModeFailsAfterOneVerify(mode: byte, m1: byte, m2: byte, rest: seq<byte>)
    requires mode in {MODE_PROG, MODE_DATA, MODE_QUIET}
    requires m1 != mode && m2 != mode
    ensures SetModeRun(mode, Envelope(m1) + Envelope(mode) + Envelope(m2) + rest, 0)
         == Run(Err(DeviceError(SET_MODE_FAILED)), 15, Frames([CMD_GET_MODE, mode, CMD_GET_MODE]))
  {
    var s := Envelope(m1) + Envelope(mode) + Envelope(m2) + rest;
    assert s[0..5] == Envelope(m1);
    assert s[5..10] == Envelope(mode);
    assert s[10..15] == Envelope(m2);
    FindEnvelopeIs(s, 0, 0);
    FindEnvelopeIs(s, 5, 5);
    FindEnvelopeIs(s, 10, 10);
  }
}
