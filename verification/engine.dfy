/**
 * The AT-command engine of `SIMCOM_Modem` (SIMCOM_Modem.cpp/.h): the modem
 * state, command framing, the waits bound to the modem's input, and the
 * two-phase value extractors `getIntValue` and `getStrValue`.
 *
 * The serial link is a script of replies. `sendCommand` first flushes the
 * input, so everything still pending is dropped and what arrives from then
 * on is the modem's reply to the new command: the next script segment. Raw
 * writes (payloads, "+++", message text) do not flush, so the reply to them
 * continues in the current segment.
 */
module Engine {
  import opened Machine
  import opened Options
  import opened CText
  import opened Transport
  import opened Replies

  /** The default budget of `waitForOK` and `sendCommandWaitForOK`, in ms. */
  const DefaultOkTimeout: u32 := 4000

  /** The constructor's `_minSignalQuality`, in dBm. */
  const DefaultMinSignalQuality: i32 := -93

  /** What went out on the serial line. */
  datatype Tx = Command(text: string) | Raw(bytes: string)

  /**
   * The world the modem object talks to: input pending, the replies to the
   * commands still to come, everything written so far, and the readings
   * `millis()` will give to the time-bounded polling loops. Once the
   * readings run out, every deadline counts as passed.
   */
  datatype Link = Link(pending: seq<Event>, script: seq<seq<Event>>, sent: seq<Tx>, clock: seq<u32>)

  /** `productIdKind`. */
  datatype Product = UnknownProduct | Sim900 | Sim800

  /**
   * The flags and values `SIMCOM_Modem` and `SIMx00` keep between calls.
   * `powered` is what the power controller's `isOn()` reports.
   */
  datatype Settings = Settings(
    powered: bool,
    echoOff: bool,
    lastRssi: i8,
    csqTime: u8,
    minSignalQuality: i32,
    ftpMaxLength: u32,
    transMode: bool,
    skipCGATT: bool,
    changedSkipCGATT: bool,
    product: Product)

  /** The modem object: its serial link, its line buffer, its settings. */
  datatype Modem = Modem(link: Link, buf: Buffer, st: Settings)

  /** Only the serial traffic differs between `a` and `b`: same buffer, settings and clock. */
  predicate SameState(a: Modem, b: Modem)
  {
    a.buf == b.buf && a.st == b.st && a.link.clock == b.link.clock
  }

  /** An operation's result and the modem state after it. */
  datatype Step<T> = Step(value: T, modem: Modem)

  /** The bytes that leave the controller for a log of writes. */
  function Wire(sent: seq<Tx>): string
  {
    if |sent| == 0 then []
    else Wire(sent[..|sent| - 1]) + (match sent[|sent| - 1]
                                     case Command(t) => t + [CR]
                                     case Raw(b) => b)
  }

  /** The reply the modem gives to the next command. */
  function NextReply(l: Link): seq<Event>
  {
    if |l.script| > 0 then l.script[0] else []
  }

  /** The replies still to come once the next command has been sent. */
  function Advance(l: Link): seq<seq<Event>>
  {
    if |l.script| > 0 then l.script[1..] else []
  }

  /** The reply to the `i`-th command from now on; silence once the script runs out. */
  function ReplyAt(l: Link, i: nat): seq<Event>
  {
    if i < |l.script| then l.script[i] else []
  }

  /** The value `millis()` reads now (0 once the readings have run out). */
  function Millis(m: Modem): u32
  {
    if |m.link.clock| > 0 then m.link.clock[0] else 0
  }

  /** The modem after one reading of `millis()`. */
  function Tick(m: Modem): (r: Modem)
    ensures r.buf == m.buf && r.st == m.st && r.link == m.link.(clock := r.link.clock)
    ensures |r.link.clock| == if |m.link.clock| > 0 then |m.link.clock| - 1 else 0
  {
    m.(link := m.link.(clock := if |m.link.clock| > 0 then m.link.clock[1..] else []))
  }

  /** The loop test `isTimedOut(ts_max)` on the next reading. */
  predicate Expired(m: Modem, deadline: u32)
  {
    |m.link.clock| == 0 || IsTimedOut(m.link.clock[0], deadline)
  }

  /**
   * `sendCommand`: flush the input, write the command text, then one CR.
   * Input that was pending is gone; the reply to this command is pending.
   */
  function SendCommand(m: Modem, text: string): (r: Modem)
    ensures r.link.sent == m.link.sent + [Command(text)]
    ensures r.link.pending == NextReply(m.link)
    ensures r.link.script == Advance(m.link)
    ensures SameState(r, m)
  {
    m.(link := m.link.(pending := NextReply(m.link),
                       script := Advance(m.link),
                       sent := m.link.sent + [Command(text)]))
  }

  /** Bytes written straight to the stream, without flush and without CR. */
  function SendRaw(m: Modem, bytes: string): (r: Modem)
    ensures SameState(r, m) && r.link == m.link.(sent := m.link.sent + [Raw(bytes)])
  {
    m.(link := m.link.(sent := m.link.sent + [Raw(bytes)]))
  }

  /** On the wire a command is its text and one CR; raw bytes go out as they are. */
  lemma WireOfSend(m: Modem, text: string)
    ensures Wire(SendCommand(m, text).link.sent) == Wire(m.link.sent) + text + [CR]
    ensures Wire(SendRaw(m, text).link.sent) == Wire(m.link.sent) + text
  {
    var c := m.link.sent + [Command(text)];
    assert c[..|c| - 1] == m.link.sent;
    var w := m.link.sent + [Raw(text)];
    assert w[..|w| - 1] == m.link.sent;
  }

  lemma AppendAssoc<T>(a: seq<T>, b: seq<T>, c: seq<T>)
    ensures a + b + c == a + (b + c)
  {
    assert forall i :: 0 <= i < |a + b + c| ==> (a + b + c)[i] == (a + (b + c))[i];
  }

  lemma ThreeAppended<T>(s: seq<T>, a: T, b: T, c: T)
    ensures s + [a] + [b] + [c] == s + [a, b, c]
  {
  }

  /** A command built with `strcpy`/`strcat` in a `char[size]` buffer fits, its NUL included. */
  predicate Fits(cmd: string, size: nat)
  {
    |cmd| < size
  }

  /** The log entries of `cmds` sent as commands, in order. */
  function AsCommands(cmds: seq<string>): (r: seq<Tx>)
    ensures |r| == |cmds|
  {
    if |cmds| == 0 then [] else [Command(cmds[0])] + AsCommands(cmds[1..])
  }

  /** The replies still to come once `k` more commands have been sent. */
  function Skip(script: seq<seq<Event>>, k: nat): seq<seq<Event>>
  {
    if k <= |script| then script[k..] else []
  }

  lemma SkipSkip(script: seq<seq<Event>>, a: nat, b: nat)
    ensures Skip(Skip(script, a), b) == Skip(script, a + b)
  {
  }

  /** Skipping `k` replies moves every later reply `k` places forward. */
  lemma ReplyAtSkip(l: Link, l': Link, k: nat, i: nat)
    requires l'.script == Skip(l.script, k)
    ensures ReplyAt(l', i) == ReplyAt(l, i + k)
  {
  }

  /** The modem after a wait that left `rest` unread. */
  function Consume(m: Modem, rest: seq<Event>): (r: Modem)
    ensures SameState(r, m) && r.link == m.link.(pending := rest)
  {
    m.(link := m.link.(pending := rest))
  }

  function AwaitOK(m: Modem): (r: Step<bool>)
    ensures r.value == WaitForOK(m.buf, m.link.pending).value
    ensures r.modem == Consume(m, WaitForOK(m.buf, m.link.pending).rest)
  {
    var w := WaitForOK(m.buf, m.link.pending);
    Step(w.value, Consume(m, w.rest))
  }

  function AwaitMessage(m: Modem, msg: string): (r: Step<Option<string>>)
    requires NulFree(msg)
    ensures r.value == WaitForMessage(msg, m.buf, m.link.pending).value
    ensures r.modem == Consume(m, WaitForMessage(msg, m.buf, m.link.pending).rest)
  {
    var w := WaitForMessage(msg, m.buf, m.link.pending);
    Step(w.value, Consume(m, w.rest))
  }

  function AwaitMessages(m: Modem, msgs: seq<string>): (r: Step<int>)
    ensures r.value == WaitForMessages(msgs, m.buf, m.link.pending).value
    ensures r.modem == Consume(m, WaitForMessages(msgs, m.buf, m.link.pending).rest)
  {
    var w := WaitForMessages(msgs, m.buf, m.link.pending);
    Step(w.value, Consume(m, w.rest))
  }

  /** The prompt wait the flows rely on: it fails when the prompt does not come in time. */
  function AwaitPrompt(m: Modem, prompt: string): (r: Step<bool>)
    requires NulFree(prompt)
    ensures r.value == WaitForPromptChecked(prompt, m.link.pending).value
    ensures r.modem == Consume(m, WaitForPromptChecked(prompt, m.link.pending).rest)
  {
    var w := WaitForPromptChecked(prompt, m.link.pending);
    Step(w.value, Consume(m, w.rest))
  }

  /**
   * The prompt wait as `waitForPrompt` is written: it reads until the prompt
   * is complete or the deadline passes, and reports success either way.
   */
  function AwaitPromptAsWritten(m: Modem, prompt: string): (r: Step<bool>)
    requires NulFree(prompt)
    ensures r.value
    ensures r.modem == Consume(m, ScanPrompt(prompt, 0, m.link.pending).rest)
    ensures r.modem == AwaitPrompt(m, prompt).modem
  {
    var w := WaitForPrompt(prompt, m.link.pending);
    Step(w.value, Consume(m, w.rest))
  }

  function AwaitBytes(m: Modem, len: nat, buflen: nat): (r: Step<BytesRead>)
    ensures r.value == ReadBytes(len, buflen, m.link.pending)
    ensures r.modem == Consume(m, r.value.rest)
  {
    var r := ReadBytes(len, buflen, m.link.pending);
    Step(r, Consume(m, r.rest))
  }

  /**
   * `sendCommandWaitForOK`: the verdict depends on the reply to this
   * command alone, and is "OK before any ERROR" on its lines.
   */
  function SendCommandWaitForOK(m: Modem, cmd: string): (r: Step<bool>)
    ensures r.value <==> OkBeforeError(Lines(m.buf, NextReply(m.link)))
    ensures r.modem.link.sent == m.link.sent + [Command(cmd)]
    ensures SameState(r.modem, m)
    ensures r.modem.link.script == Advance(m.link)
  {
    WaitForOKIffOkBeforeError(m.buf, NextReply(m.link));
    AwaitOK(SendCommand(m, cmd))
  }

  // ---------------------------------------------------------------------
  // getIntValue / getStrValue
  // ---------------------------------------------------------------------

  /** The text after the reply prefix, read up to the NUL as the C library does. */
  function AfterPrefix(line: string, reply: string): (r: string)
    requires reply <= CStr(line)
    ensures NulFree(r)
  {
    CStr(line)[|reply|..]
  }

  /** Outcome of `getIntValue`: the return value and what `*value` was set to, if anything. */
  datatype IntReply = IntReply(ok: bool, written: Option<i32>)

  /**
   * `getIntValue(cmd, reply, &value)`: the first line starting with `reply`
   * is converted with `strtoul(.., 0)` into the `int`; without a digit the
   * call fails, with `*value` already overwritten by 0; with a number it is
   * the verdict of the following `waitForOK`.
   */
  function GetIntValue(m: Modem, cmd: string, reply: string): (r: Step<IntReply>)
    requires NulFree(reply)
    ensures var found := WaitForMessage(reply, m.buf, NextReply(m.link)).value;
      && (r.value.written.Some? <==> found.Some?)
      && (found.Some? ==> r.value.written.value == ToI32(Strtoul(AfterPrefix(found.value, reply), 0).value))
      && (r.value.ok ==> found.Some? && Strtoul(AfterPrefix(found.value, reply), 0).used > 0)
    ensures var w := WaitForMessage(reply, m.buf, NextReply(m.link));
      w.value.Some? && Strtoul(AfterPrefix(w.value.value, reply), 0).used > 0 ==>
        r.value.ok == WaitForOK(m.buf, w.rest).value
    ensures r.modem.link.sent == m.link.sent + [Command(cmd)]
    ensures SameState(r.modem, m)
    ensures r.modem.link.script == Advance(m.link)
  {
    var m1 := SendCommand(m, cmd);
    IntFromReply(m1, reply, AwaitMessage(m1, reply))
  }

  /** The second half of `getIntValue`, once the reply line has been looked for. */
  function IntFromReply(m: Modem, reply: string, w: Step<Option<string>>): (r: Step<IntReply>)
    requires NulFree(reply)
    requires w.value.Some? ==> reply <= CStr(w.value.value)
    requires SameState(w.modem, m) && w.modem.link.sent == m.link.sent
    requires w.modem.link.script == m.link.script
    ensures (r.value.written.Some? <==> w.value.Some?)
    ensures w.value.Some? ==> r.value.written.value == ToI32(Strtoul(AfterPrefix(w.value.value, reply), 0).value)
    ensures r.value.ok ==> w.value.Some? && Strtoul(AfterPrefix(w.value.value, reply), 0).used > 0
    ensures w.value.Some? && Strtoul(AfterPrefix(w.value.value, reply), 0).used > 0 ==>
      r.value.ok == WaitForOK(w.modem.buf, w.modem.link.pending).value
    ensures SameState(r.modem, m) && r.modem.link.sent == m.link.sent
    ensures r.modem.link.script == m.link.script
  {
    match w.value
    case None => Step(IntReply(false, None), w.modem)
    case Some(line) =>
      var c := Strtoul(AfterPrefix(line, reply), 0);
      var v := ToI32(c.value);
      if c.used == 0 then Step(IntReply(false, Some(v)), w.modem)
      else
        var ok := AwaitOK(w.modem);
        Step(IntReply(ok.value, Some(v)), ok.modem)
  }

  /** Decimal digits are plain text. */
  lemma DigitsArePlain(n: nat)
    ensures Plain(NatDigits(n))
  {
    var d := NatDigits(n);
    forall i | 0 <= i < |d|
      ensures d[i] != NUL && d[i] != CR && d[i] != LF
    {
      assert IsDecimalDigit(d[i]);
    }
  }

  lemma BlanksArePlain(sp: string)
    requires forall i :: 0 <= i < |sp| ==> sp[i] == ' '
    ensures Plain(sp)
  {
  }

  /** The numeral after the prefix and the blanks converts back to `n`. */
  lemma NumberAfterPrefix(reply: string, sp: string, n: nat, tail: string)
    requires Plain(reply) && Plain(tail)
    requires forall i :: 0 <= i < |sp| ==> sp[i] == ' '
    requires |tail| == 0 || DigitValue(tail[0]) == 36
    requires n < U32Modulus
    ensures Plain(reply + (sp + (NatDigits(n) + tail)))
    ensures reply <= CStr(reply + (sp + (NatDigits(n) + tail)))
    ensures Strtoul(AfterPrefix(reply + (sp + (NatDigits(n) + tail)), reply), 0) == Conversion(n, |sp| + |NatDigits(n)|)
  {
    var rest := sp + (NatDigits(n) + tail);
    DigitsArePlain(n);
    BlanksArePlain(sp);
    PlainConcat(NatDigits(n), tail);
    PlainConcat(sp, NatDigits(n) + tail);
    PlainConcat(reply, rest);
    CStrOfNulFree(reply + rest);
    assert AfterPrefix(reply + rest, reply) == rest;
    StrtoulReadsItoa(n, tail, 0);
    StrtoulSkipsBlanks(sp, NatDigits(n) + tail, 0);
  }

  /**
   * Round trip: when the modem answers `reply`, some blanks, the decimal
   * numeral of `n` and a non-alphanumeric tail on one line, then "OK",
   * `getIntValue` succeeds and writes `n`.
   */
  lemma GetIntValueReadsNumber(m: Modem, cmd: string, reply: string, sp: string, n: nat, tail: string)
    requires Plain(reply) && Plain(tail)
    requires forall i :: 0 <= i < |sp| ==> sp[i] == ' '
    requires |tail| == 0 || DigitValue(tail[0]) == 36
    requires n < I32Half
    requires m.buf.Allocated? && |reply| + |sp| + |NatDigits(n)| + |tail| < m.buf.capacity && m.buf.capacity > 2
    requires NextReply(m.link) == Line(reply + (sp + (NatDigits(n) + tail))) + Line("OK")
    ensures GetIntValue(m, cmd, reply).value == IntReply(true, Some(n))
  {
    var x := reply + (sp + (NatDigits(n) + tail));
    NumberAfterPrefix(reply, sp, n, tail);
    ToI32OfSmall(n);
    FirstLineMatches(reply, m.buf.capacity, x, Line("OK"));
    OkLineAccepted(m.buf.capacity, []);
    assert Line("OK") + [] == Line("OK");
  }

  /**
   * `getStrValue(cmd, reply, str, size)`: the text after `reply`, leading
   * blanks skipped, copied into `size` bytes with a forced NUL; the result
   * is the verdict of the following `waitForOK`. Nothing is written when no
   * reply line arrives.
   */
  function GetStrValue(m: Modem, cmd: string, reply: string, size: nat): (r: Step<Option<string>>)
    requires NulFree(reply)
    requires size >= 1
    ensures var found := WaitForMessage(reply, m.buf, NextReply(m.link)).value;
      && (r.value.Some? <==> found.Some?)
      && (found.Some? ==> r.value.value == CopyTruncated(SkipSpaces(AfterPrefix(found.value, reply)), size))
    ensures r.value.Some? ==> |r.value.value| < size && NUL !in r.value.value
    ensures r.value.Some? && |r.value.value| > 0 ==> r.value.value[0] != ' '
    ensures r.modem.link.sent == m.link.sent + [Command(cmd)]
    ensures SameState(r.modem, m)
    ensures r.modem.link.script == Advance(m.link)
  {
    var m1 := SendCommand(m, cmd);
    var w := AwaitMessage(m1, reply);
    Step(StrFromReply(w.value, reply, size), w.modem)
  }

  /** The copy `getStrValue` makes of a reply line found. */
  function StrFromReply(found: Option<string>, reply: string, size: nat): (r: Option<string>)
    requires found.Some? ==> reply <= CStr(found.value)
    requires size >= 1
    ensures r.Some? <==> found.Some?
    ensures found.Some? ==> r.value == CopyTruncated(SkipSpaces(AfterPrefix(found.value, reply)), size)
    ensures r.Some? ==> |r.value| < size && NUL !in r.value
    ensures r.Some? && |r.value| > 0 ==> r.value[0] != ' '
  {
    match found
    case None => None
    case Some(line) =>
      Some(CopyTruncated(SkipSpaces(AfterPrefix(line, reply)), size))
  }

  /** The verdict `getStrValue` returns: the `waitForOK` after the copy, false without a reply line. */
  function GetStrValueOK(m: Modem, cmd: string, reply: string, size: nat): (r: Step<bool>)
    requires NulFree(reply)
    requires size >= 1
    ensures var w := WaitForMessage(reply, m.buf, NextReply(m.link));
      r.value == (w.value.Some? && WaitForOK(m.buf, w.rest).value)
    ensures r.modem.link.sent == m.link.sent + [Command(cmd)]
    ensures r.modem.link.script == Advance(m.link)
    ensures SameState(r.modem, m)
  {
    var s := GetStrValue(m, cmd, reply, size);
    if s.value.None? then Step(false, s.modem) else AwaitOK(s.modem)
  }

  /**
   * Round trip: when the modem answers `reply`, some blanks and a text that
   * fits `size - 1` bytes, then "OK", `getStrValue` copies exactly that text
   * and succeeds.
   */
  lemma GetStrValueReadsText(m: Modem, cmd: string, reply: string, sp: string, text: string, size: nat)
    requires Plain(reply) && Plain(text)
    requires forall i :: 0 <= i < |sp| ==> sp[i] == ' '
    requires |text| == 0 || text[0] != ' '
    requires 1 <= size && |text| < size
    requires m.buf.Allocated? && |reply| + |sp| + |text| < m.buf.capacity && m.buf.capacity > 2
    requires |reply| + |sp| + |text| > 0
    requires NextReply(m.link) == Line(reply + (sp + text)) + Line("OK")
    ensures GetStrValue(m, cmd, reply, size).value == Some(text)
    ensures GetStrValueOK(m, cmd, reply, size).value
  {
    var x := reply + (sp + text);
    BlanksArePlain(sp);
    PlainConcat(sp, text);
    PlainConcat(reply, sp + text);
    CStrOfNulFree(x);
    assert AfterPrefix(x, reply) == sp + text;
    SkipBlanks(sp, text);
    FirstLineMatches(reply, m.buf.capacity, x, Line("OK"));
    OkLineAccepted(m.buf.capacity, []);
    assert Line("OK") + [] == Line("OK");
  }

  /**
   * `getStrValue(cmd, str, size)` without a prefix: the first non-empty
   * line (a match on the empty prefix), copied as a C string into `size`
   * bytes; the result is the verdict of the following `waitForOK`.
   */
  function GetLineValue(m: Modem, cmd: string, size: nat): (r: Step<Option<string>>)
    requires size >= 1
    ensures var found := WaitForMessage("", m.buf, NextReply(m.link)).value;
      && (r.value.Some? <==> found.Some?)
      && (found.Some? ==> |found.value| > 0 && r.value.value == CopyTruncated(CStr(found.value), size))
    ensures r.modem.link.sent == m.link.sent + [Command(cmd)]
    ensures r.modem.link.script == Advance(m.link)
    ensures SameState(r.modem, m)
  {
    var w := AwaitMessage(SendCommand(m, cmd), "");
    match w.value
    case None => Step(None, w.modem)
    case Some(line) => Step(Some(CopyTruncated(CStr(line), size)), w.modem)
  }

  /** The value `getStrValue(cmd, str, size)` returns. */
  function GetLineValueOK(m: Modem, cmd: string, size: nat): (r: Step<bool>)
    requires size >= 1
    ensures var w := WaitForMessage("", m.buf, NextReply(m.link));
      r.value == (w.value.Some? && WaitForOK(m.buf, w.rest).value)
    ensures r.modem.link.sent == m.link.sent + [Command(cmd)]
    ensures r.modem.link.script == Advance(m.link)
    ensures SameState(r.modem, m)
  {
    var s := GetLineValue(m, cmd, size);
    if s.value.None? then Step(false, s.modem) else AwaitOK(s.modem)
  }

  // ---------------------------------------------------------------------
  // Signal quality bookkeeping
  // ---------------------------------------------------------------------

  /**
   * dBm for a `+CSQ` value (section 8.5 of 3GPP TS 27.007): 99, "not known",
   * becomes 0; any other value `-113 + 2 * raw`, stored in an `int8_t`.
   */
  function RssiFromCsq(raw: i32): (r: i8)
    ensures raw == 99 ==> r == 0
    ensures 0 <= raw <= 31 ==> r == -113 + 2 * raw && r < 0
    ensures raw != 99 && -7 <= raw <= 120 ==> r == -113 + 2 * raw
    ensures raw != 99 ==> (r - (-113 + 2 * raw)) % U8Modulus == 0
  {
    if raw == 99 then 0 else ToI8(-113 + 2 * raw)
  }

  /** `setMinSignalQuality(q)`: a negative q is taken as dBm, any other as a CSQ value. */
  function SetMinSignalQuality(m: Modem, q: i32): (r: Modem)
    ensures q < 0 ==> r.st.minSignalQuality == q
    ensures 0 <= q && -113 + 2 * q < I32Half ==> r.st.minSignalQuality == -113 + 2 * q
    ensures -113 + 2 * q >= I32Half ==> r.st.minSignalQuality == -113 + 2 * q - U32Modulus
    ensures 0 <= q <= 31 ==> r.st.minSignalQuality == RssiFromCsq(q) as int
    ensures r == m.(st := m.st.(minSignalQuality := r.st.minSignalQuality))
  {
    m.(st := m.st.(minSignalQuality := if q < 0 then q else ToI32(-113 + 2 * q)))
  }

  /** `getLastRSSI()`: the stored `int8_t` read back as `uint8_t`. */
  function LastRssi(m: Modem): (r: u8)
    ensures m.st.lastRssi >= 0 ==> r == m.st.lastRssi
    ensures m.st.lastRssi < 0 ==> r == m.st.lastRssi + 256
  {
    ToU8(m.st.lastRssi)
  }

  /** `getCSQtime()`: seconds the last `waitForSignalQuality` took. */
  function CsqTime(m: Modem): u8
  {
    m.st.csqTime
  }

  /** A stored -77 dBm (CSQ 18) reads back as 179; 0 means "not known". */
  lemma LastRssiOfCsq18(m: Modem)
    requires m.st.lastRssi == RssiFromCsq(18)
    ensures m.st.lastRssi == -77
    ensures LastRssi(m) == 179
  {
  }

  /** The default `waitForOK` deadline passes exactly 4000 ms after it was set, across the clock wrap. */
  lemma DefaultOkDeadline(start: u32, now: u32)
    requires ToU32(now - start) < I32Half
    ensures IsTimedOut(now, Deadline(start, DefaultOkTimeout)) <==> ToU32(now - start) >= 4000
  {
    DeadlineIsWrapSafe(start, DefaultOkTimeout, now);
  }
}
