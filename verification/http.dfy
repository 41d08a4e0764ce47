/**
 * The HTTP client of `SIMx00` (SIMx00.cpp): the session prolog and epilog,
 * the HTTPPARA settings, the POST upload, "AT+HTTPACTION" with its status
 * reply, "AT+HTTPREAD" with its counted body, and the GET and POST flows,
 * which always end with the modem switched off.
 */
module Http {
  import opened Machine
  import opened Options
  import opened CText
  import opened Transport
  import opened Replies
  import opened Engine
  import opened Device
  import opened Tcp
  import opened Ftp

  /**
   * What an HTTP step leaves for its caller: the verdict, the status code
   * written through `responseStatus` (None when nothing was written), and
   * the bytes copied into the caller's buffer (None when it was not touched).
   */
  datatype Outcome = Outcome(ok: bool, status: Option<u16>, body: Option<string>)

  const Failed := Outcome(false, None, None)

  const ActionReply := "+HTTPACTION:"
  const ReadReply := "+HTTPREAD:"

  lemma RepliesPlain()
    ensures Plain(ActionReply) && |ActionReply| == 12
    ensures Plain(ReadReply) && |ReadReply| == 10
    ensures Plain("DOWNLOAD")
  {
    PrintableIsPlain(ActionReply);
    PrintableIsPlain(ReadReply);
    PrintableIsPlain("DOWNLOAD");
  }

  // ---------------------------------------------------------------------
  // Commands
  // ---------------------------------------------------------------------

  /** `AT+HTTPPARA="<tag>","<value>"`, written piece by piece without a buffer. */
  function Para(tag: string, value: string): string
  {
    "AT+HTTPPARA=" + (Quoted(tag) + ("," + Quoted(value)))
  }

  /** `AT+HTTPACTION=<num>`: 0 is GET, 1 is POST. */
  function ActionCommand(num: nat): string
  {
    "AT+HTTPACTION=" + NatDigits(num)
  }

  /** `AT+HTTPDATA=<len>,10000`, the length printed by `itoa` from a C `int`. */
  function DataCommand(len: nat): string
  {
    "AT+HTTPDATA=" + (Itoa(ToI32(len)) + ",10000")
  }

  /**
   * The settings of `setHTTPParamsSession(url, contentType, userdata, redir)`:
   * the URL always, the content type and the user data only when not empty,
   * and the redirect switch only when asked for.
   */
  function SessionParams(url: string, contentType: string, userdata: string, redir: bool): (r: seq<string>)
    ensures |r| == 1 + (if |contentType| > 0 then 1 else 0) + (if |userdata| > 0 then 1 else 0) + (if redir then 1 else 0)
  {
    [Para("URL", url)]
      + (if |contentType| > 0 then [Para("CONTENT", contentType)] else [])
      + (if |userdata| > 0 then [Para("USERDATA", userdata)] else [])
      + (if redir then ["AT+HTTPPARA=\"REDIR\",1"] else [])
  }

  /** The URL comes first; the redirect switch, when present, last. */
  lemma SessionParamsOrder(url: string, contentType: string, userdata: string, redir: bool)
    ensures var r := SessionParams(url, contentType, userdata, redir);
      && r[0] == Para("URL", url)
      && (redir ==> r[|r| - 1] == "AT+HTTPPARA=\"REDIR\",1")
      && (!redir && |contentType| == 0 && |userdata| == 0 ==> r == [Para("URL", url)])
  {
  }

  /**
   * `setHTTPParamsSession`: each setting must be accepted; it succeeds
   * exactly when the replies to all of them hold "OK" before "ERROR".
   */
  function SetHTTPParamsSession(m: Modem, url: string, contentType: string, userdata: string, redir: bool): (r: Step<bool>)
    ensures SameState(r.modem, m)
    ensures r.value <==> forall i :: 0 <= i < |SessionParams(url, contentType, userdata, redir)| ==> OkAt(m, i)
  {
    AllOKVerdict(m, SessionParams(url, contentType, userdata, redir));
    AllOK(m, SessionParams(url, contentType, userdata, redir))
  }

  // ---------------------------------------------------------------------
  // The status reply of AT+HTTPACTION
  // ---------------------------------------------------------------------

  /** The text after "+HTTPACTION:" and the blanks that follow it. */
  function StatusField(line: string): string
    requires ActionReply <= CStr(line)
  {
    SkipSpaces(AfterPrefix(line, ActionReply))
  }

  /**
   * The status code in that text: two characters (method digit and comma)
   * are stepped over unseen, then a base-10 `strtoul` kept in a `uint16_t`;
   * no digit gives nothing. Text too short to step over gives nothing too.
   */
  function StatusCode(p: string): (r: Option<u16>)
  {
    if |p| < 2 then None else CodeOf(p[2..])
  }

  /** `(uint16_t)strtoul(t, &end, 10)`, or nothing when `end` did not move. */
  function CodeOf(t: string): Option<u16>
  {
    var c := Strtoul(t, 10);
    if c.used == 0 then None else Some(ToU16(c.value))
  }

  lemma CodeOfNumeral(n: nat, tail: string)
    requires n < U32Modulus
    requires |tail| == 0 || DigitValue(tail[0]) == 36
    ensures CodeOf(NatDigits(n) + tail) == Some(ToU16(n))
  {
    StrtoulReadsItoa(n, tail, 10);
  }

  /** The status is the number after any two characters, whatever they are. */
  lemma StatusCodeReads(a: char, b: char, n: nat, tail: string)
    requires n < U32Modulus
    requires |tail| == 0 || DigitValue(tail[0]) == 36
    ensures StatusCode([a, b] + (NatDigits(n) + tail)) == Some(ToU16(n))
  {
    assert ([a, b] + (NatDigits(n) + tail))[2..] == NatDigits(n) + tail;
    CodeOfNumeral(n, tail);
  }

  /** Without a digit after the two skipped characters there is no status. */
  lemma StatusCodeNeedsDigits(a: char, b: char, s: string)
    requires |DropSpaces(s)| == 0 || (DigitValue(DropSpaces(s)[0]) == 36 && DropSpaces(s)[0] != '-' && DropSpaces(s)[0] != '+')
    ensures StatusCode([a, b] + s) == None
  {
    assert ([a, b] + s)[2..] == s;
    StrtoulNoDigits(s, 10);
  }

  /**
   * The parse as written: the two characters are stepped over in the raw
   * line buffer, whose bytes after the terminating NUL (`stale`) are left
   * over from earlier lines. `strtoul` reads up to the next NUL.
   */
  function StatusCodeAsWritten(line: string, stale: string): (r: Option<u16>)
    requires ActionReply <= CStr(line) && |stale| > 0
  {
    RawTailLong(line, stale);
    var q := SkipSpaces(RawTail(line, stale));
    CodeOf(CStr(q[2..]))
  }

  /** The line buffer from offset 12 on: the rest of the line, its NUL, the stale bytes. */
  function RawTail(line: string, stale: string): string
    requires ActionReply <= CStr(line)
  {
    (CStr(line) + [NUL] + stale)[12..]
  }

  lemma RawTailLong(line: string, stale: string)
    requires ActionReply <= CStr(line) && |stale| > 0
    ensures |SkipSpaces(RawTail(line, stale))| >= 2
  {
    RepliesPlain();
    var x := CStr(line)[12..];
    assert NulFree(x);
    assert RawTail(line, stale) == x + [NUL] + stale;
    SkipStopsAtNul(x, stale);
  }

  /** Skipping blanks never passes a NUL: the NUL and what follows it remain. */
  lemma {:induction false} SkipStopsAtNul(x: string, stale: string)
    requires NulFree(x)
    ensures |SkipSpaces(x + [NUL] + stale)| >= |stale| + 1
    decreases |x|
  {
    var s := x + [NUL] + stale;
    if |x| > 0 {
      assert s[1..] == x[1..] + [NUL] + stale;
      SkipStopsAtNul(x[1..], stale);
    } else {
      assert s[0] == NUL;
    }
  }

  /** When the line holds the two stepped-over characters, the parse as written agrees with `StatusCode`. */
  lemma AsWrittenAgreesOnFullLines(line: string, stale: string)
    requires ActionReply <= CStr(line) && |stale| > 0
    requires |StatusField(line)| >= 2
    ensures StatusCodeAsWritten(line, stale) == StatusCode(StatusField(line))
  {
    var x := AfterPrefix(line, ActionReply);
    RawTailIs(line, stale);
    SkipSpacesPrefix(x, [NUL] + stale);
    StepOverTwo(SkipSpaces(x), stale);
  }

  /** The raw buffer after the prefix is the text after it, its NUL and the stale bytes. */
  lemma RawTailIs(line: string, stale: string)
    requires ActionReply <= CStr(line)
    ensures RawTail(line, stale) == AfterPrefix(line, ActionReply) + ([NUL] + stale)
  {
    RepliesPlain();
    var x := CStr(line)[12..];
    assert AfterPrefix(line, ActionReply) == x;
    assert (CStr(line) + [NUL] + stale)[12..] == x + ([NUL] + stale);
  }

  /** Stepping over two characters of a NUL-free text of at least two keeps within it. */
  lemma StepOverTwo(p: string, stale: string)
    requires |p| >= 2 && NulFree(p)
    ensures CStr((p + ([NUL] + stale))[2..]) == p[2..]
  {
    assert (p + ([NUL] + stale))[2..] == p[2..] + ([NUL] + stale);
    CStrStopsAtNul(p[2..], stale);
  }

  /** The C string of `s`, a NUL, then anything, is `s` when `s` has no NUL. */
  lemma {:induction false} CStrStopsAtNul(s: string, stale: string)
    requires NulFree(s)
    ensures CStr(s + ([NUL] + stale)) == s
    decreases |s|
  {
    var t := s + ([NUL] + stale);
    if |s| > 0 {
      assert t[0] == s[0] && t[1..] == s[1..] + ([NUL] + stale);
      CStrStopsAtNul(s[1..], stale);
      assert s == [s[0]] + s[1..];
    } else {
      assert t[0] == NUL;
    }
  }

  /**
   * The over-read: for the short reply "+HTTPACTION:<c>", stepping over two
   * characters passes the NUL, and the status is read from what an earlier
   * line left in the buffer. Digits left there become the status, 200
   * included, although no status was sent; the corrected parse rejects the line.
   */
  lemma StaleStatusAccepted(c: char, n: nat)
    requires c != ' ' && c != NUL && c != CR && c != LF
    requires n < U16Modulus
    ensures ActionReply <= CStr(ActionReply + [c])
    ensures StatusCodeAsWritten(ActionReply + [c], NatDigits(n)) == Some(n)
    ensures StatusCode(StatusField(ActionReply + [c])) == None
  {
    var line := ActionReply + [c];
    var d := NatDigits(n);
    ShortActionLine(c, d);
    StepOverNul(c, d);
    var q := SkipSpaces(RawTail(line, d));
    DigitsArePlain(n);
    CStrOfNulFree(d);
    assert CStr(q[2..]) == d;
    assert d + "" == d;
    CodeOfNumeral(n, "");
    ToU16OfU16(n);
    assert StatusCodeAsWritten(line, d) == CodeOf(d);
  }

  /** From `c` and a NUL, stepping over two characters lands on the stale bytes. */
  lemma StepOverNul(c: char, stale: string)
    requires c != ' '
    ensures |SkipSpaces([c, NUL] + stale)| >= 2
    ensures SkipSpaces([c, NUL] + stale)[2..] == stale
  {
    var q := [c, NUL] + stale;
    assert q[0] == c;
    assert q[2..] == stale;
  }

  /** The line "+HTTPACTION:<c>" is read whole; from offset 12 the buffer holds `c`, the NUL, then the stale bytes. */
  lemma ShortActionLine(c: char, stale: string)
    requires c != ' ' && c != NUL && c != CR && c != LF
    ensures ActionReply <= CStr(ActionReply + [c])
    ensures StatusField(ActionReply + [c]) == [c]
    ensures RawTail(ActionReply + [c], stale) == [c, NUL] + stale
  {
    var line := ActionReply + [c];
    RepliesPlain();
    PlainConcat(ActionReply, [c]);
    CStrOfNulFree(line);
    assert AfterPrefix(line, ActionReply) == [c];
    assert SkipSpaces([c]) == [c];
  }

  // ---------------------------------------------------------------------
  // AT+HTTPACTION and AT+HTTPREAD
  // ---------------------------------------------------------------------

  /**
   * `doHTTPACTION(num, status)`: the action must be accepted, then the
   * "+HTTPACTION:" reply carries the status. With a status pointer
   * (`report`) the code is stored and the call succeeds; without one it
   * succeeds only for 200. A missing reply or an unreadable code fails.
   */
  function DoHTTPACTION(m: Modem, num: nat, report: bool): (r: Step<Outcome>)
    ensures SameState(r.modem, m)
    ensures r.modem.link.sent == m.link.sent + [Command(ActionCommand(num))]
    ensures r.modem.link.script == Advance(m.link)
    ensures r.value.body.None?
    ensures var k := WaitForOK(m.buf, NextReply(m.link));
      var w := WaitForMessage(ActionReply, m.buf, k.rest).value;
      var code := if w.Some? then StatusCode(StatusField(w.value)) else None;
      && (r.value.ok <==> k.value && code.Some? && (report || code.value == 200))
      && r.value.status == (if report && r.value.ok then code else None)
  {
    RepliesPlain();
    var k := AwaitOK(SendCommand(m, ActionCommand(num)));
    if !k.value then Step(Failed, k.modem)
    else
      var w := AwaitMessage(k.modem, ActionReply);
      match w.value
      case None => Step(Failed, w.modem)
      case Some(line) =>
        match StatusCode(StatusField(line))
        case None => Step(Failed, w.modem)
        case Some(code) =>
          if report then Step(Outcome(true, Some(code), None), w.modem)
          else Step(Outcome(code == 200, None, None), w.modem)
  }

  /** The shape of a status reply: the prefix, blanks, the method digit and comma, the code, the rest. */
  function ActionLine(sp: string, verb: char, code: nat, tail: string): string
  {
    ActionReply + (sp + ([verb, ','] + (NatDigits(code) + tail)))
  }

  lemma ActionLineReads(sp: string, verb: char, code: nat, tail: string)
    requires forall i :: 0 <= i < |sp| ==> sp[i] == ' '
    requires verb != ' ' && Plain([verb]) && Plain(tail)
    requires code < U16Modulus
    requires |tail| == 0 || DigitValue(tail[0]) == 36
    ensures Plain(ActionLine(sp, verb, code, tail))
    ensures ActionReply <= CStr(ActionLine(sp, verb, code, tail))
    ensures StatusCode(StatusField(ActionLine(sp, verb, code, tail))) == Some(code)
  {
    var body := [verb, ','] + (NatDigits(code) + tail);
    var line := ActionReply + (sp + body);
    DigitsArePlain(code);
    PlainConcat(NatDigits(code), tail);
    PrintableIsPlain([',']);
    PlainConcat([verb], [',']);
    assert [verb] + [','] == [verb, ','];
    PlainConcat([verb, ','], NatDigits(code) + tail);
    BlanksArePlain(sp);
    PlainConcat(sp, body);
    RepliesPlain();
    PlainConcat(ActionReply, sp + body);
    CStrOfNulFree(line);
    assert AfterPrefix(line, ActionReply) == sp + body;
    SkipBlanks(sp, body);
    StatusCodeReads(verb, ',', code, tail);
    ToU16OfU16(code);
  }

  /**
   * Round trip: "OK", then "+HTTPACTION: <m>,<code>,..." makes
   * `doHTTPACTION` report `code` when asked to, and otherwise succeed
   * exactly when the code is 200.
   */
  lemma ActionReadsStatus(m: Modem, num: nat, report: bool, sp: string, verb: char, code: nat, tail: string, rest: seq<Event>)
    requires forall i :: 0 <= i < |sp| ==> sp[i] == ' '
    requires verb != ' ' && Plain([verb]) && Plain(tail)
    requires code < U16Modulus
    requires |tail| == 0 || DigitValue(tail[0]) == 36
    requires m.buf.Allocated? && |ActionLine(sp, verb, code, tail)| < m.buf.capacity
    requires NextReply(m.link) == Line("OK") + (Line(ActionLine(sp, verb, code, tail)) + rest)
    ensures DoHTTPACTION(m, num, report).value.ok == (report || code == 200)
    ensures DoHTTPACTION(m, num, report).value.status == (if report then Some(code) else None)
  {
    var x := ActionLine(sp, verb, code, tail);
    ActionLineReads(sp, verb, code, tail);
    OkLineAccepted(m.buf.capacity, Line(x) + rest);
    RepliesPlain();
    FirstLineMatches(ActionReply, m.buf.capacity, x, rest);
  }

  /**
   * `doHTTPREAD(buffer, len)`: "+HTTPREAD:<n>" announces `n` bytes, which
   * are read raw, the first `len` of them kept. It fails without the reply
   * or without a number, and otherwise succeeds exactly when all `n` bytes
   * came; the "OK" after them is awaited but does not matter.
   */
  function DoHTTPREAD(m: Modem, len: nat): (r: Step<Outcome>)
    ensures SameState(r.modem, m)
    ensures r.modem.link.sent == m.link.sent + [Command("AT+HTTPREAD")]
    ensures r.modem.link.script == Advance(m.link)
    ensures r.value.status.None?
    ensures r.value.ok ==> r.value.body.Some?
    ensures var w := WaitForMessage(ReadReply, m.buf, NextReply(m.link));
      && (r.value.body.Some? <==> w.value.Some? && Strtoul(AfterPrefix(w.value.value, ReadReply), 0).used > 0)
      && (r.value.body.Some? ==>
            var n := Strtoul(AfterPrefix(w.value.value, ReadReply), 0).value;
            var a := Arrived(w.rest);
            && (r.value.ok <==> n <= |a|)
            && r.value.body.value == a[..Min(Min(n, |a|), len)])
  {
    RepliesPlain();
    var s := SendCommand(m, "AT+HTTPREAD");
    var found := WaitForMessage(ReadReply, m.buf, NextReply(m.link));
    var w := AwaitMessage(s, ReadReply);
    assert w.value == found.value && w.modem.link.pending == found.rest;
    if w.value.None? then Step(Failed, w.modem)
    else
      var c := Strtoul(AfterPrefix(w.value.value, ReadReply), 0);
      if c.used == 0 then Step(Failed, w.modem) else ReadBody(w.modem, c.value, len)
  }

  /**
   * The part of `doHTTPREAD` after the announcement of `n` bytes: read
   * them raw, keep the first `len`, then await "OK" without judging it.
   */
  function ReadBody(m: Modem, n: nat, len: nat): (r: Step<Outcome>)
    ensures SameState(r.modem, m)
    ensures r.modem.link.sent == m.link.sent && r.modem.link.script == m.link.script
    ensures r.value.status.None? && r.value.body.Some?
    ensures var a := Arrived(m.link.pending);
      && (r.value.ok <==> n <= |a|)
      && r.value.body.value == a[..Min(Min(n, |a|), len)]
  {
    var b := AwaitBytes(m, n, len);
    ReadBytesCounts(n, len, m.link.pending);
    ReadBytesStores(n, len, m.link.pending);
    var k := AwaitOK(b.modem);
    Step(Outcome(b.value.unread == 0, None, Some(b.value.stored)), k.modem)
  }

  /**
   * Round trip: "+HTTPREAD:<n>" and then `n` bytes make `doHTTPREAD`
   * succeed with the first `len` of them, whether or not an "OK" follows.
   */
  lemma ReadDeliversBody(m: Modem, len: nat, sp: string, data: string, rest: seq<Event>)
    requires forall i :: 0 <= i < |sp| ==> sp[i] == ' '
    requires |data| < U32Modulus
    requires m.buf.Allocated? && |ReadReply + (sp + NatDigits(|data|))| < m.buf.capacity
    requires NextReply(m.link) == Line(ReadReply + (sp + NatDigits(|data|))) + (Bytes(data) + rest)
    ensures DoHTTPREAD(m, len).value == Outcome(true, None, Some(data[..Min(|data|, len)]))
  {
    var x := ReadReply + (sp + NatDigits(|data|));
    ReadHeaderParsed(m.buf.capacity, sp, |data|, Bytes(data) + rest);
    ArrivedBody(data, rest, len);
  }

  /** All the announced bytes arrive, and the first `len` of them are kept. */
  lemma ArrivedBody(data: string, rest: seq<Event>, len: nat)
    ensures var a := Arrived(Bytes(data) + rest);
      |data| <= |a| && a[..Min(Min(|data|, |a|), len)] == data[..Min(|data|, len)]
  {
    BytesArrive(data, rest);
  }

  /** The header line "+HTTPREAD:<n>" is found first and its number read back. */
  lemma ReadHeaderParsed(cap: nat, sp: string, n: nat, after: seq<Event>)
    requires forall i :: 0 <= i < |sp| ==> sp[i] == ' '
    requires n < U32Modulus
    requires |ReadReply + (sp + NatDigits(n))| < cap
    ensures var x := ReadReply + (sp + NatDigits(n));
      && WaitForMessage(ReadReply, Allocated(cap), Line(x) + after) == Waited(Some(x), after)
      && ReadReply <= CStr(x)
      && Strtoul(AfterPrefix(x, ReadReply), 0) == Conversion(n, |sp| + |NatDigits(n)|)
  {
    var x := ReadReply + (sp + NatDigits(n));
    RepliesPlain();
    PrintableIsPlain("");
    NumberAfterPrefix(ReadReply, sp, n, "");
    assert NatDigits(n) + "" == NatDigits(n);
    FirstLineMatches(ReadReply, cap, x, after);
  }


  // ---------------------------------------------------------------------
  // The parts of a session
  // ---------------------------------------------------------------------

  /**
   * `doHTTPprolog(apn, user, pwd)`: the connect prolog, the bearer, then
   * "AT+HTTPINIT" and the CID setting, each needing the previous one.
   */
  function HttpProlog(m: Modem, apn: string, user: Option<string>, pwd: Option<string>): (r: Step<bool>)
    requires BearerFits(apn, user, pwd)
    ensures r.modem.buf == m.buf
    ensures r.modem.st.powered == m.st.powered && r.modem.st.transMode == m.st.transMode
  {
    var p := ConnectProlog(m);
    if !p.value then p else HttpSetup(p.modem, apn, user, pwd)
  }

  /** The HTTP part of the prolog: the bearer, then "AT+HTTPINIT" and the CID setting. */
  function HttpSetup(m: Modem, apn: string, user: Option<string>, pwd: Option<string>): (r: Step<bool>)
    requires BearerFits(apn, user, pwd)
    ensures SameState(r.modem, m)
  {
    var b := SetBearerParms(m, apn, user, pwd);
    if !b.value then b else AllOK(b.modem, ["AT+HTTPINIT", "AT+HTTPPARA=\"CID\",1"])
  }

  /**
   * The HTTP part succeeds exactly when every bearer setting is accepted,
   * "AT+SAPBR=1,1" is accepted within five tries with its query accepted,
   * and then "AT+HTTPINIT" and the CID setting are both answered "OK".
   */
  lemma HttpSetupVerdict(m: Modem, apn: string, user: Option<string>, pwd: Option<string>)
    requires BearerFits(apn, user, pwd)
    ensures var n := |BearerSettings(apn, user, pwd)|;
      var b := SetBearerParms(m, apn, user, pwd).modem;
      HttpSetup(m, apn, user, pwd).value <==>
        && (forall i :: 0 <= i < n ==> OkAt(m, i))
        && (exists j :: 0 <= j < 5 && FirstOkFrom(m, n, j) && OkAt(m, n + j + 1))
        && OkAt(b, 0) && OkAt(b, 1)
  {
    SetBearerParmsVerdict(m, apn, user, pwd);
    var b := SetBearerParms(m, apn, user, pwd);
    AllOKVerdict(b.modem, ["AT+HTTPINIT", "AT+HTTPPARA=\"CID\",1"]);
  }

  /**
   * The prolog succeeds exactly when the connect prolog does, every bearer
   * setting is accepted, "AT+SAPBR=1,1" is accepted within five tries with
   * its query accepted, and then "AT+HTTPINIT" and the CID setting are both
   * answered "OK".
   */
  lemma HttpPrologVerdict(m: Modem, apn: string, user: Option<string>, pwd: Option<string>)
    requires BearerFits(apn, user, pwd)
    ensures var p := ConnectProlog(m).modem;
      var n := |BearerSettings(apn, user, pwd)|;
      var b := SetBearerParms(p, apn, user, pwd).modem;
      HttpProlog(m, apn, user, pwd).value <==>
        && ConnectProlog(m).value
        && (forall i :: 0 <= i < n ==> OkAt(p, i))
        && (exists j :: 0 <= j < 5 && FirstOkFrom(p, n, j) && OkAt(p, n + j + 1))
        && OkAt(b, 0) && OkAt(b, 1)
  {
    HttpSetupVerdict(ConnectProlog(m).modem, apn, user, pwd);
  }

  /** `on()` and then the prolog. */
  function HttpOpen(m: Modem, apn: string, user: Option<string>, pwd: Option<string>): (r: Step<bool>)
    requires BearerFits(apn, user, pwd)
    ensures r.modem.buf == m.buf
    ensures r.value ==> On(m).value && HttpProlog(On(m).modem, apn, user, pwd).value
  {
    var o := On(m);
    if !o.value then o else HttpProlog(o.modem, apn, user, pwd)
  }

  /**
   * The end of every GET and POST: after a successful middle part the
   * session is ended with "AT+HTTPTERM", whose verdict is ignored; then,
   * success or not, the modem is switched off. The outcome is the middle
   * part's.
   */
  function HttpClose(x: Step<Outcome>): (r: Step<Outcome>)
    ensures r.value == x.value
    ensures !r.modem.st.powered && !r.modem.st.echoOff
    ensures r.modem.buf == x.modem.buf
    ensures r.modem.link.sent == x.modem.link.sent + (if x.value.ok then [Command("AT+HTTPTERM")] else [])
  {
    if !x.value.ok then Step(x.value, Off(x.modem).modem)
    else
      var t := SendCommandWaitForOK(x.modem, "AT+HTTPTERM");
      Step(x.value, Off(t.modem).modem)
  }

  /**
   * The upload of a POST once its settings are in: "AT+HTTPDATA" with the
   * length, the payload only after "DOWNLOAD" came, "OK", then the action.
   */
  function PostData(m: Modem, postdata: string, report: bool): (r: Step<Outcome>)
    ensures SameState(r.modem, m)
    ensures r.value.body.None?
    ensures var d := WaitForMessage("DOWNLOAD", m.buf, NextReply(m.link)).value.Some?;
      && (r.value.ok ==> d)
      && |r.modem.link.sent| > |m.link.sent|
      && r.modem.link.sent[..|m.link.sent| + 1] == m.link.sent + [Command(DataCommand(|postdata|))]
      && (!d ==> r.modem.link.sent == m.link.sent + [Command(DataCommand(|postdata|))])
      && (d ==> |r.modem.link.sent| > |m.link.sent| + 1 && r.modem.link.sent[|m.link.sent| + 1] == Raw(postdata))
  {
    RepliesPlain();
    var s := SendCommand(m, DataCommand(|postdata|));
    var d := AwaitMessage(s, "DOWNLOAD");
    if d.value.None? then Step(Failed, d.modem)
    else
      var k := AwaitOK(SendRaw(d.modem, postdata));
      if !k.value then Step(Failed, k.modem)
      else DoHTTPACTION(k.modem, 1, report)
  }

  /** A successful upload wrote the length, the payload and the POST action, in that order. */
  lemma PostDataSends(m: Modem, postdata: string, report: bool)
    requires PostData(m, postdata, report).value.ok
    ensures PostData(m, postdata, report).modem.link.sent
      == m.link.sent + [Command(DataCommand(|postdata|)), Raw(postdata), Command(ActionCommand(1))]
  {
    var s := m.link.sent;
    ThreeAppended(s, Command(DataCommand(|postdata|)), Raw(postdata), Command(ActionCommand(1)));
  }

  /**
   * `doHTTPPOSTmiddle` and, with `secure`, `doHTTPSPOSTmiddle`: the
   * settings (with the redirect switch and "AT+HTTPSSL=1" when secure),
   * then the upload and the POST action.
   */
  function PostMiddle(m: Modem, url: string, contentType: string, userdata: string,
                      postdata: string, report: bool, secure: bool): (r: Step<Outcome>)
    ensures SameState(r.modem, m)
    ensures r.value.body.None?
    ensures r.value.ok ==> forall i :: 0 <= i < |PostSettings(url, contentType, userdata, secure)| ==> OkAt(m, i)
  {
    var cmds := PostSettings(url, contentType, userdata, secure);
    AllOKVerdict(m, cmds);
    var s := AllOK(m, cmds);
    if !s.value then Step(Failed, s.modem) else PostData(s.modem, postdata, report)
  }

  /** The settings of a POST: the session parameters, and the SSL switch when secure. */
  function PostSettings(url: string, contentType: string, userdata: string, secure: bool): seq<string>
  {
    SessionParams(url, contentType, userdata, secure) + (if secure then ["AT+HTTPSSL=1"] else [])
  }

  /** `doHTTPGETmiddle(url, buffer, len)`: the URL, the GET action without status pointer, then the read. */
  function GetMiddle(m: Modem, url: string, len: nat): (r: Step<Outcome>)
    ensures SameState(r.modem, m)
    ensures r.value.status.None?
    ensures r.value.ok ==> OkAt(m, 0)
  {
    FirstReplyIsOkAt(m, Para("URL", url));
    var p := SendCommandWaitForOK(m, Para("URL", url));
    if !p.value then Step(Failed, p.modem)
    else
      var a := DoHTTPACTION(p.modem, 0, false);
      if !a.value.ok then Step(Failed, a.modem) else DoHTTPREAD(a.modem, len)
  }

  /**
   * A GET succeeds only when the action reply carries status 200, since no
   * status pointer is passed; its reply is the second one of the script.
   */
  lemma GetNeedsStatus200(m: Modem, url: string, len: nat)
    requires GetMiddle(m, url, len).value.ok
    ensures var k := WaitForOK(m.buf, ReplyAt(m.link, 1));
      var w := WaitForMessage(ActionReply, m.buf, k.rest).value;
      k.value && w.Some? && StatusCode(StatusField(w.value)) == Some(200)
  {
    var p := SendCommandWaitForOK(m, Para("URL", url));
    assert NextReply(p.modem.link) == ReplyAt(m.link, 1);
    assert DoHTTPACTION(p.modem, 0, false).value.ok;
  }

  /** `doHTTPPOSTmiddleWithReply` (and its secure twin): the POST, then the read of the reply body. */
  function PostReplyMiddle(m: Modem, url: string, contentType: string, userdata: string,
                           postdata: string, report: bool, secure: bool, len: nat): (r: Step<Outcome>)
    ensures SameState(r.modem, m)
    ensures r.value.ok ==> PostMiddle(m, url, contentType, userdata, postdata, report, secure).value.ok
    ensures r.value.status == PostMiddle(m, url, contentType, userdata, postdata, report, secure).value.status
  {
    var x := PostMiddle(m, url, contentType, userdata, postdata, report, secure);
    if !x.value.ok then x
    else
      var b := DoHTTPREAD(x.modem, len);
      Step(Outcome(b.value.ok, x.value.status, b.value.body), b.modem)
  }

  // ---------------------------------------------------------------------
  // The flows
  // ---------------------------------------------------------------------

  /** A flow that stops before its middle part: the modem is switched off and nothing is reported. */
  function Abandon(m: Modem): (r: Step<Outcome>)
    ensures r.value == Failed && !r.modem.st.powered
    ensures r.modem.link == m.link && r.modem.buf == m.buf
  {
    Step(Failed, Off(m).modem)
  }

  /**
   * `doHTTPGET(apn, user, pwd, url, buffer, len)`: power on, the prolog,
   * the GET; the modem always ends switched off, and "AT+HTTPTERM" is sent
   * only after a successful GET.
   */
  function HttpGet(m: Modem, apn: string, user: Option<string>, pwd: Option<string>, url: string, len: nat): (r: Step<Outcome>)
    requires BearerFits(apn, user, pwd)
    ensures !r.modem.st.powered && !r.modem.st.echoOff
    ensures r.modem.buf == m.buf
    ensures r.value.status.None?
    ensures r.value.ok ==> HttpOpen(m, apn, user, pwd).value
  {
    var o := HttpOpen(m, apn, user, pwd);
    if !o.value then Abandon(o.modem) else HttpClose(GetMiddle(o.modem, url, len))
  }

  /** `doHTTPPOST(apn, user, pwd, url, contentType, userdata, postdata, pdlen, status)`. */
  function HttpPost(m: Modem, apn: string, user: Option<string>, pwd: Option<string>,
                    url: string, contentType: string, userdata: string, postdata: string, report: bool): (r: Step<Outcome>)
    requires BearerFits(apn, user, pwd)
    ensures !r.modem.st.powered && !r.modem.st.echoOff
    ensures r.modem.buf == m.buf
    ensures r.value.body.None?
    ensures r.value.ok ==> HttpOpen(m, apn, user, pwd).value
  {
    var o := HttpOpen(m, apn, user, pwd);
    if !o.value then Abandon(o.modem)
    else HttpClose(PostMiddle(o.modem, url, contentType, userdata, postdata, report, false))
  }

  /** `doHTTPPOSTWithReply(...)`: the POST and the read of the reply body. */
  function HttpPostWithReply(m: Modem, apn: string, user: Option<string>, pwd: Option<string>,
                             url: string, contentType: string, userdata: string, postdata: string,
                             report: bool, len: nat): (r: Step<Outcome>)
    requires BearerFits(apn, user, pwd)
    ensures !r.modem.st.powered && !r.modem.st.echoOff
    ensures r.modem.buf == m.buf
    ensures r.value.ok ==> HttpOpen(m, apn, user, pwd).value
  {
    var o := HttpOpen(m, apn, user, pwd);
    if !o.value then Abandon(o.modem)
    else HttpClose(PostReplyMiddle(o.modem, url, contentType, userdata, postdata, report, false, len))
  }

  /** When power-on or the prolog fails, a GET sends nothing more and reports nothing. */
  lemma GetStopsWithoutSession(m: Modem, apn: string, user: Option<string>, pwd: Option<string>, url: string, len: nat)
    requires BearerFits(apn, user, pwd)
    requires !HttpOpen(m, apn, user, pwd).value
    ensures HttpGet(m, apn, user, pwd, url, len).value == Failed
    ensures HttpGet(m, apn, user, pwd, url, len).modem.link == HttpOpen(m, apn, user, pwd).modem.link
  {
  }

  /** After the session opened, a GET ends with "AT+HTTPTERM" exactly when it succeeded. */
  lemma GetTerminatesOnSuccess(m: Modem, apn: string, user: Option<string>, pwd: Option<string>, url: string, len: nat)
    requires BearerFits(apn, user, pwd)
    requires HttpOpen(m, apn, user, pwd).value
    ensures var x := GetMiddle(HttpOpen(m, apn, user, pwd).modem, url, len);
      HttpGet(m, apn, user, pwd, url, len).modem.link.sent
        == x.modem.link.sent + (if x.value.ok then [Command("AT+HTTPTERM")] else [])
  {
  }
}
