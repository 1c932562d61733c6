/**
  The request/response exchange with the terminal (`termRequestResponse`),
  the attribute query built on it (`termAttributes`) and the Sixel probe
  (`hasSixelSupport`), all from term_unix.go.

  The terminal itself is not modelled: a `TtyWorld` records what each of
  its calls answers, and the exchange is the decision logic of
  `termRequestResponse` over those answers. The race between the read and the 1/16 second timer is
  summed up by `timerStopped`, the result of stopping the timer after the
  read returned: true when the read won and the timer never fired.
 */
module TermQuery {
  import opened Common
  import opened DeviceAttributes

  /** Size of the reply buffer: at most this many bytes of a reply are kept. */
  const BufferSize: nat := 1024

  /** The Primary Device Attributes request, `ESC [ 0 c`. */
  const AttributesQuery: string := "\U{1B}[0c"

  /** Cursor position request written when the timer fires, only to make the read return. */
  const Nudge: string := "\U{1B}\U{1B}[6n"

  /** What the terminal and the operating system answer during one exchange. */
  datatype TtyWorld = TtyWorld(
    isTerminal: bool,           // the input handle is a terminal
    makeRawErr: Option<nat>,    // error code of switching to raw mode, if it failed
    writeErr: Option<nat>,      // error code of writing the request, if it failed
    pending: seq<byte>,         // bytes a read can return (the read keeps at most BufferSize)
    readErr: Option<nat>,       // error code returned by the read, if any
    timerStopped: bool,         // stopping the timer succeeded: it had not fired
    restoreErr: Option<nat>     // error code of restoring the saved mode, if it failed
  )

  /** An operating-system error code as the library sees it. */
  function OsError(code: Option<nat>): (e: Option<Error>)
    ensures e.Some? <==> code.Some?
    ensures e.Some? ==> e.value.External?
  {
    match code
    case None => None
    case Some(c) => Some(External(c))
  }

  /**
    Outcome of one exchange: the response and error returned, what was
    written to the terminal, and whether raw mode was entered and restored.
   */
  datatype Exchange = Exchange(
    response: seq<byte>,
    err: Option<Error>,
    written: seq<string>,
    enteredRaw: bool,
    restored: bool
  )

  /** The bytes one read delivers into the reply buffer. */
  function ReadBytes(w: TtyWorld): (b: seq<byte>)
    ensures |b| <= BufferSize
    ensures |b| <= |w.pending| && b == w.pending[..|b|]
    ensures |b| == 0 <==> |w.pending| == 0
  {
    if |w.pending| <= BufferSize then w.pending else w.pending[..BufferSize]
  }

  /**
    Error reported once the deferred restore of the terminal mode has run:
    the restore error surfaces only when nothing failed before it.
   */
  function AfterRestore(err: Option<Error>, w: TtyWorld): (e: Option<Error>)
    ensures err.Some? ==> e == err
    ensures err.None? ==> e == OsError(w.restoreErr)
  {
    if err.None? then OsError(w.restoreErr) else err
  }

  /**
    One request/response exchange (`termRequestResponse`). A non-terminal
    input fails with NonTTY before anything else happens; a failure to enter
    raw mode is returned as is. After raw mode is entered the mode is always
    restored. A timer that fired turns the error into TermResponseTimedOut,
    and data is returned only when bytes were read and that time-out was
    recorded; in every other case the response is empty.
   */
  function RequestResponse(w: TtyWorld, request: string): (x: Exchange)
    ensures !w.isTerminal ==> x.err == Some(NonTTY) && x.written == [] && !x.enteredRaw
    ensures x.enteredRaw <==> w.isTerminal && w.makeRawErr.None?
    ensures x.restored <==> x.enteredRaw
    ensures x.enteredRaw ==> 1 <= |x.written| <= 2 && x.written[0] == request
    ensures |x.written| == 2 <==> x.enteredRaw && w.writeErr.None? && !w.timerStopped
    ensures |x.written| == 2 ==> x.written[1] == Nudge
    ensures |x.response| > 0 <==>
              x.enteredRaw && w.writeErr.None? && |w.pending| > 0 && !w.timerStopped
    ensures |x.response| > 0 ==> x.err == OsError(w.restoreErr) && x.response == ReadBytes(w)
    ensures |x.response| == 0 ==> x.err.Some? || (x.enteredRaw && w.restoreErr.None?)
    ensures x.enteredRaw && w.writeErr.Some? ==> x.err == OsError(w.writeErr)
    ensures x.enteredRaw && w.writeErr.None? && !w.timerStopped && |w.pending| == 0 ==>
              x.err == Some(TermResponseTimedOut)
    ensures x.enteredRaw && w.writeErr.None? && w.timerStopped && w.readErr.Some? ==>
              x.err == OsError(w.readErr)
    ensures x.enteredRaw && w.writeErr.None? && w.timerStopped && w.readErr.None? ==>
              x.err == OsError(w.restoreErr)
    ensures w.isTerminal && w.makeRawErr.Some? ==> x.err == OsError(w.makeRawErr) && x.written == []
  {
    if !w.isTerminal then
      Exchange([], Some(NonTTY), [], false, false)
    else if w.makeRawErr.Some? then
      Exchange([], OsError(w.makeRawErr), [], false, false)
    else if w.writeErr.Some? then
      Exchange([], AfterRestore(OsError(w.writeErr), w), [request], true, true)
    else
      var buf := ReadBytes(w);
      var written := if w.timerStopped then [request] else [request, Nudge];
      var err := if w.timerStopped then OsError(w.readErr) else Some(TermResponseTimedOut);
      if |buf| > 0 && err == Some(TermResponseTimedOut) then
        Exchange(buf, AfterRestore(None, w), written, true, true)
      else
        Exchange([], AfterRestore(err, w), written, true, true)
  }

  /** The attribute query (`termAttributes`): the exchange's error, or the parsed reply. */
  function TermAttributes(w: TtyWorld): (r: Result<seq<nat>>)
    ensures r.Err? <==> RequestResponse(w, AttributesQuery).err.Some?
    ensures r.Err? ==> r.error == RequestResponse(w, AttributesQuery).err.value
    ensures r.Ok? ==> r.value == Attributes(RequestResponse(w, AttributesQuery).response)
  {
    var x := RequestResponse(w, AttributesQuery);
    if x.err.Some? then Err(x.err.value) else Ok(Attributes(x.response))
  }

  /**
    The Sixel probe (`hasSixelSupport`): any error of the query counts as no
    support, otherwise the parsed attributes decide.
   */
  function HasSixelSupport(w: TtyWorld): (b: bool)
    ensures b <==> TermAttributes(w).Ok? && ReportsSixel(TermAttributes(w).value)
    ensures b ==> w.isTerminal && !w.timerStopped && |w.pending| > 0
  {
    match TermAttributes(w)
    case Err(_) => false
    case Ok(attrs) => ReportsSixel(attrs)
  }

  /**
    A reply that arrives before the timer fires is dropped: the exchange
    returns no data and no error of its own, so the probe reports no Sixel.
   */
  lemma PromptReplyDiscarded(w: TtyWorld)
    requires w.isTerminal && w.makeRawErr.None? && w.writeErr.None?
    requires w.timerStopped && w.readErr.None? && |w.pending| > 0
    ensures RequestResponse(w, AttributesQuery).response == []
    ensures RequestResponse(w, AttributesQuery).err == OsError(w.restoreErr)
    ensures !HasSixelSupport(w)
  {
  }

  /** A terminal that never answers: the nudge is written and the exchange times out. */
  lemma SilentTerminalTimesOut(w: TtyWorld, request: string)
    requires w.isTerminal && w.makeRawErr.None? && w.writeErr.None?
    requires !w.timerStopped && |w.pending| == 0
    ensures RequestResponse(w, request).err == Some(TermResponseTimedOut)
    ensures RequestResponse(w, request).written == [request, Nudge]
    ensures RequestResponse(w, request).restored
  {
  }

  /**
    A reply that fits the buffer and arrives after the timer fired, with no
    error anywhere, is parsed whole.
   */
  lemma LateReplyAttributes(w: TtyWorld)
    requires w.isTerminal && w.makeRawErr.None? && w.writeErr.None? && w.restoreErr.None?
    requires !w.timerStopped && 0 < |w.pending| <= BufferSize
    ensures TermAttributes(w) == Ok(Attributes(w.pending))
  {
  }

  /** Bytes of an ASCII string. */
  function Bytes(s: string): (b: seq<byte>)
    requires forall i :: 0 <= i < |s| ==> s[i] as int < 256
    ensures |b| == |s|
  {
    seq(|s|, i requires 0 <= i < |s| => s[i] as int as byte)
  }

  /** A VT220-class reply that lists Sixel (Ps = 4). */
  const Vt220Reply: string := "\U{1B}[?62;1;2;4;6;9;15;22c"

  /** A VT100 reply with no feature list. */
  const Vt100Reply: string := "\U{1B}[?1;2c"

  /** A terminal that answers `reply` after the timer fired, with no error anywhere. */
  function LateReplyWorld(reply: string): TtyWorld
    requires forall i :: 0 <= i < |reply| ==> reply[i] as int < 256
  {
    TtyWorld(true, None, None, Bytes(reply), None, false, None)
  }

  lemma OneDigitValue(a: byte)
    requires IsDigit(a)
    ensures AtoiValue([a]) == (a - '0' as byte) as nat
  {
    var s: seq<byte> := [a];
    assert s[..|s| - 1] == [];
    assert DecimalValue(s) == DecimalValue([]) * 10 + (a - '0' as byte) as nat;
  }

  lemma TwoDigitValue(a: byte, b: byte)
    requires IsDigit(a) && IsDigit(b)
    ensures AtoiValue([a, b]) == (a - '0' as byte) as nat * 10 + (b - '0' as byte) as nat
  {
    assert [a, b][..1] == [a];
    OneDigitValue(a);
  }

  lemma Vt220Bytes()
    ensures Bytes(Vt220Reply) ==
      [27, 91, 63, 54, 50, 59, 49, 59, 50, 59, 52, 59, 54, 59, 57, 59, 49, 53, 59, 50, 50, 99]
  {
  }

  const Vt220Params: seq<seq<byte>> := [[54, 50], [49], [50], [52], [54], [57], [49, 53], [50, 50]]

  lemma Vt220ParamsDigits()
    ensures forall i :: 0 <= i < |Vt220Params| ==> |Vt220Params[i]| > 0 && AllDigits(Vt220Params[i])
  {
    forall i | 0 <= i < |Vt220Params|
      ensures |Vt220Params[i]| > 0 && AllDigits(Vt220Params[i])
    {
      assert Vt220Params[i] in Vt220Params;
    }
  }

  lemma Vt220Join()
    ensures [27 as byte, 91, 63] + JoinParams(Vt220Params) + [99] ==
      [27, 91, 63, 54, 50, 59, 49, 59, 50, 59, 52, 59, 54, 59, 57, 59, 49, 53, 59, 50, 50, 99]
  {
  }

  lemma Vt220Runs()
    ensures DigitRuns(
      [27, 91, 63, 54, 50, 59, 49, 59, 50, 59, 52, 59, 54, 59, 57, 59, 49, 53, 59, 50, 50, 99])
      == Vt220Params
  {
    Vt220ParamsDigits();
    Vt220Join();
    ReplyRuns([27, 91, 63], Vt220Params, [99]);
  }

  lemma Vt220Values(s: seq<byte>)
    requires DigitRuns(s) == Vt220Params
    ensures Attributes(s) == [62, 1, 2, 4, 6, 9, 15, 22]
  {
    TwoDigitValue(54, 50);
    OneDigitValue(49);
    OneDigitValue(50);
    OneDigitValue(52);
    OneDigitValue(54);
    OneDigitValue(57);
    TwoDigitValue(49, 53);
    TwoDigitValue(50, 50);
  }

  /** A terminal that answers late with an ASCII reply: the probe decides on the reply's attributes. */
  lemma LateReplySixel(reply: string)
    requires 0 < |reply| <= BufferSize && forall i :: 0 <= i < |reply| ==> reply[i] as int < 256
    ensures HasSixelSupport(LateReplyWorld(reply)) <==> ReportsSixel(Attributes(Bytes(reply)))
  {
    LateReplyAttributes(LateReplyWorld(reply));
  }

  /** The example of a VT220-class reply: eight attributes, Sixel among the features. */
  lemma Vt220ReplyAttributes()
    ensures Attributes(Bytes(Vt220Reply)) == [62, 1, 2, 4, 6, 9, 15, 22]
    ensures HasSixelSupport(LateReplyWorld(Vt220Reply))
  {
    var b := Bytes(Vt220Reply);
    Vt220Bytes();
    Vt220Runs();
    Vt220Values(b);
    LateReplySixel(Vt220Reply);
    assert Attributes(b)[3] == 4;
  }

  lemma Vt100Bytes()
    ensures Bytes(Vt100Reply) == [27, 91, 63, 49, 59, 50, 99]
  {
  }

  lemma Vt100Runs()
    ensures DigitRuns([27, 91, 63, 49, 59, 50, 99]) == [[49], [50]]
  {
    var ps: seq<seq<byte>> := [[49], [50]];
    ReplyRuns([27, 91, 63], ps, [99]);
    assert [27 as byte, 91, 63] + JoinParams(ps) + [99] == [27, 91, 63, 49, 59, 50, 99];
  }

  lemma Vt100Values(s: seq<byte>)
    requires DigitRuns(s) == [[49], [50]]
    ensures Attributes(s) == [1, 2]
  {
    OneDigitValue(49);
    OneDigitValue(50);
  }

  /** The example of a VT100 reply: identifier 1 and option 2, no Sixel. */
  lemma Vt100ReplyAttributes()
    ensures Attributes(Bytes(Vt100Reply)) == [1, 2]
    ensures !HasSixelSupport(LateReplyWorld(Vt100Reply))
  {
    var b := Bytes(Vt100Reply);
    Vt100Bytes();
    Vt100Runs();
    Vt100Values(b);
    LateReplySixel(Vt100Reply);
  }
}
