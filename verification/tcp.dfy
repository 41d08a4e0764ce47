/**
 * The TCP client of `SIMx00` (SIMx00.cpp): opening a connection over the
 * GPRS bearer, closing it, asking for its state, and moving data over it.
 */
module Tcp {
  import opened Machine
  import opened Options
  import opened CText
  import opened Transport
  import opened Replies
  import opened Engine
  import opened Device

  const Quote: char := '"'

  /** `"<x>"`. */
  function Quoted(x: string): string
  {
    [Quote] + x + [Quote]
  }

  /** A NULL `const char *` argument, which `openTCP` treats as the empty string. */
  function OrEmpty(s: Option<string>): string
  {
    if s.Some? then s.value else ""
  }

  /** A quoted field without quotes inside ends at its second quote: field and remainder are both determined. */
  lemma QuotedSplits(x: string, s: string, x': string, s': string)
    requires Quote !in x && Quote !in x'
    requires Quoted(x) + s == Quoted(x') + s'
    ensures x == x' && s == s'
  {
    var a := Quoted(x) + s;
    var b := Quoted(x') + s';
    assert a[1..] == x + ([Quote] + s);
    assert b[1..] == x' + ([Quote] + s');
    FindAfterHead(x, Quote, s);
    FindAfterHead(x', Quote, s');
    assert a[1..|x| + 1] == x && b[1..|x| + 1] == x';
    assert a[|x| + 2..] == s && b[|x| + 2..] == s';
  }

  /** `AT+CSTT="<apn>","<user>","<password>"`, the bearer settings of `openTCP`. */
  function CsttCommand(apn: string, user: Option<string>, pwd: Option<string>): string
  {
    "AT+CSTT=" + (Quoted(apn) + ("," + (Quoted(OrEmpty(user)) + ("," + Quoted(OrEmpty(pwd))))))
  }

  /**
   * As long as no field holds a quote, the modem can take the three fields
   * back out of the command: different settings give different commands.
   * A NULL user or password reads as an empty one.
   */
  lemma CsttFieldsRecoverable(apn: string, user: Option<string>, pwd: Option<string>,
                              apn': string, user': Option<string>, pwd': Option<string>)
    requires Quote !in apn && Quote !in OrEmpty(user) && Quote !in OrEmpty(pwd)
    requires Quote !in apn' && Quote !in OrEmpty(user') && Quote !in OrEmpty(pwd')
    requires CsttCommand(apn, user, pwd) == CsttCommand(apn', user', pwd')
    ensures apn == apn' && OrEmpty(user) == OrEmpty(user') && OrEmpty(pwd) == OrEmpty(pwd')
  {
    var p := "AT+CSTT=";
    var t1 := "," + (Quoted(OrEmpty(user)) + ("," + Quoted(OrEmpty(pwd))));
    var t1' := "," + (Quoted(OrEmpty(user')) + ("," + Quoted(OrEmpty(pwd'))));
    assert (p + (Quoted(apn) + t1))[|p|..] == Quoted(apn) + t1;
    assert (p + (Quoted(apn') + t1'))[|p|..] == Quoted(apn') + t1';
    QuotedSplits(apn, t1, apn', t1');
    var t2 := "," + Quoted(OrEmpty(pwd));
    var t2' := "," + Quoted(OrEmpty(pwd'));
    assert t1[1..] == Quoted(OrEmpty(user)) + t2;
    assert t1'[1..] == Quoted(OrEmpty(user')) + t2';
    QuotedSplits(OrEmpty(user), t2, OrEmpty(user'), t2');
    assert t2[1..] == Quoted(OrEmpty(pwd)) + [];
    assert t2'[1..] == Quoted(OrEmpty(pwd')) + [];
    QuotedSplits(OrEmpty(pwd), [], OrEmpty(pwd'), []);
  }

  /** `AT+CIPSTART="TCP","<server>",<port>`, the port written by `itoa`. */
  function CipstartCommand(server: string, port: int): string
  {
    "AT+CIPSTART=\"TCP\"," + Quoted(server) + "," + Itoa(port)
  }

  /** The replies `openTCP` waits for after CIPSTART; only the first two mean connected. */
  const ConnectReplies: seq<string> := ["CONNECT OK", "CONNECT", "CONNECT FAIL"]

  /** Each CIPSTART outcome is found at its own position of the list. */
  lemma ConnectRepliesDistinct()
    ensures MatchIndex(ConnectReplies, "CONNECT OK", 0) == 0
    ensures MatchIndex(ConnectReplies, "CONNECT", 0) == 1
    ensures MatchIndex(ConnectReplies, "CONNECT FAIL", 0) == 2
  {
    ThreeApart(ConnectReplies, "CONNECT OK", "CONNECT", "CONNECT FAIL");
  }

  /** Three C strings of different lengths are each found at their own place. */
  lemma ThreeApart(msgs: seq<string>, a: string, b: string, c: string)
    requires msgs == [a, b, c]
    requires NulFree(a) && NulFree(b) && NulFree(c)
    requires |a| != |b| && |a| != |c| && |b| != |c|
    ensures MatchIndex(msgs, a, 0) == 0
    ensures MatchIndex(msgs, b, 0) == 1
    ensures MatchIndex(msgs, c, 0) == 2
  {
    LengthsDiffer(b, a);
    LengthsDiffer(c, a);
    LengthsDiffer(c, b);
    MissThenHit(msgs, a, 0, 0);
    MissThenHit(msgs, b, 0, 1);
    MissThenHit(msgs, c, 0, 2);
  }

  /** Two C strings of different lengths never compare equal. */
  lemma LengthsDiffer(a: string, b: string)
    requires NulFree(a) && NulFree(b) && |a| != |b|
    ensures !StrEq(a, b)
  {
    CStrOfNulFree(a);
    CStrOfNulFree(b);
  }

  /** `MatchIndex` lands on `k` when the line is the `k`-th entry and matches none before it. */
  lemma {:induction false} MissThenHit(msgs: seq<string>, line: string, from: nat, k: nat)
    requires from <= k < |msgs|
    requires msgs[k] == line
    requires forall j :: from <= j < k ==> !StrEq(line, msgs[j])
    ensures MatchIndex(msgs, line, from) == k
    decreases k - from
  {
    if from < k {
      MissThenHit(msgs, line, from + 1, k);
    }
  }

  /** The CIPSTART outcomes fit on one reply line. */
  lemma ConnectRepliesPlain()
    ensures forall k :: 0 <= k < 3 ==> NoBreak(ConnectReplies[k])
  {
  }

  /**
   * Whichever of the three CIPSTART outcomes arrives as the first line that
   * fits the buffer is the one reported, and it counts as connected exactly
   * when it is not "CONNECT FAIL".
   */
  lemma ConnectReplyIndex(cap: nat, k: nat, rest: seq<Event>)
    requires k < 3 && cap > 12
    ensures var w := WaitForMessages(ConnectReplies, Allocated(cap), Line(ConnectReplies[k]) + rest);
      w == Waited(k, rest) && (0 <= w.value < 2 <==> ConnectReplies[k] != "CONNECT FAIL")
  {
    ConnectRepliesDistinct();
    ConnectRepliesPlain();
    FirstLineHits(ConnectReplies, cap, ConnectReplies[k], rest);
  }

  /** Two commands in a row, the second only after the first was answered "OK"; true when both were. */
  function BothOK(m: Modem, first: string, second: string): (r: Step<bool>)
    ensures SameState(r.modem, m)
    ensures r.value <==> OkAt(m, 0) && OkAt(m, 1)
    ensures r.value ==> r.modem.link.sent == m.link.sent + [Command(first), Command(second)]
  {
    var a := SendCommandWaitForOK(m, first);
    FirstReplyIsOkAt(m, first);
    FirstReplyIsOkAt(a.modem, second);
    OkAtShift(m, a.modem, 0);
    if !a.value then a else SendCommandWaitForOK(a.modem, second)
  }

  /** The transparent-mode commands, when that mode is asked for. */
  function TransparentCommands(transMode: bool): seq<Tx>
  {
    if transMode then [Command("AT+CIPMODE=1"), Command("AT+CIPCCFG?")] else []
  }

  /** The commands `openTCP` sends after the prolog when every step succeeds. */
  function SessionCommands(cstt: string, cipstart: string, transMode: bool): seq<Tx>
  {
    [Command(cstt), Command("AT+CIICR")] + [Command("AT+CIPSHUT")] + TransparentCommands(transMode) + [Command(cipstart)]
  }

  /** "AT+CIPSHUT", answered by a line starting "SHUT OK" in time. */
  function Shutdown(m: Modem): (r: Step<bool>)
    ensures SameState(r.modem, m)
    ensures r.modem.link.sent == m.link.sent + [Command("AT+CIPSHUT")]
    ensures r.value <==> WaitForMessage("SHUT OK", m.buf, NextReply(m.link)).value.Some?
  {
    var h := AwaitMessage(SendCommand(m, "AT+CIPSHUT"), "SHUT OK");
    Step(h.value.Some?, h.modem)
  }

  /** CIPSTART answered "OK", then an outcome line that means connected. */
  function Connect(m: Modem, cipstart: string): (r: Step<bool>)
    ensures SameState(r.modem, m)
    ensures r.modem.link.sent == m.link.sent + [Command(cipstart)]
    ensures var outcome := WaitForMessages(ConnectReplies, m.buf, WaitForOK(m.buf, NextReply(m.link)).rest).value;
      r.value <==> OkAt(m, 0) && 0 <= outcome < 2
  {
    FirstReplyIsOkAt(m, cipstart);
    var s := SendCommandWaitForOK(m, cipstart);
    if !s.value then s
    else
      var w := AwaitMessages(s.modem, ConnectReplies);
      Step(0 <= w.value < 2, w.modem)
  }

  /**
   * The part of `openTCP` after the prolog: bearer settings, bring-up,
   * "AT+CIPSHUT" answered "SHUT OK", the transparent-mode settings when
   * asked for, then CIPSTART and its outcome.
   */
  function StartSession(m: Modem, cstt: string, cipstart: string, transMode: bool): (r: Step<bool>)
    ensures SameState(r.modem, m)
  {
    var b := BothOK(m, cstt, "AT+CIICR");
    if !b.value then b
    else
      var h := Shutdown(b.modem);
      if !h.value then h
      else
        var t := if transMode then BothOK(h.modem, "AT+CIPMODE=1", "AT+CIPCCFG?") else Step(true, h.modem);
        if !t.value then t
        else Connect(t.modem, cipstart)
  }

  /** A session that starts has sent exactly its commands. */
  lemma StartSessionSends(m: Modem, cstt: string, cipstart: string, transMode: bool)
    requires StartSession(m, cstt, cipstart, transMode).value
    ensures StartSession(m, cstt, cipstart, transMode).modem.link.sent
      == m.link.sent + SessionCommands(cstt, cipstart, transMode)
  {
    var b := BothOK(m, cstt, "AT+CIICR");
    var h := Shutdown(b.modem);
    var t := if transMode then BothOK(h.modem, "AT+CIPMODE=1", "AT+CIPCCFG?") else Step(true, h.modem);
    var a, s, x, c := [Command(cstt), Command("AT+CIICR")], [Command("AT+CIPSHUT")], TransparentCommands(transMode), [Command(cipstart)];
    assert t.modem.link.sent == m.link.sent + a + s + x;
    AppendAssoc(m.link.sent, a, s);
    AppendAssoc(m.link.sent, a + s, x);
    AppendAssoc(m.link.sent, a + s + x, c);
  }

  /** A session that starts had its bearer settings and its bring-up both answered "OK". */
  lemma StartSessionNeedsBringup(m: Modem, cstt: string, cipstart: string, transMode: bool)
    requires StartSession(m, cstt, cipstart, transMode).value
    ensures OkAt(m, 0) && OkAt(m, 1)
  {
  }

  /**
   * `openTCP` once the modem is on: the prolog, then the session; a failure
   * of either switches the modem off. Only success records the transparent
   * mode.
   */
  function OpenOnline(m: Modem, cstt: string, cipstart: string, transMode: bool): (r: Step<bool>)
    ensures r.modem.st.powered == (r.value && m.st.powered)
    ensures r.modem.st.transMode == if r.value then transMode else m.st.transMode
    ensures r.modem.buf == m.buf
  {
    var p := ConnectProlog(m);
    if !p.value then Step(false, Off(p.modem).modem)
    else
      var s := StartSession(p.modem, cstt, cipstart, transMode);
      if !s.value then Step(false, Off(s.modem).modem)
      else Step(true, s.modem.(st := s.modem.st.(transMode := transMode)))
  }

  /** A successful open ends with the session's commands, right after the prolog's. */
  lemma OpenOnlineSends(m: Modem, cstt: string, cipstart: string, transMode: bool)
    requires OpenOnline(m, cstt, cipstart, transMode).value
    ensures OpenOnline(m, cstt, cipstart, transMode).modem.link.sent
      == ConnectProlog(m).modem.link.sent + SessionCommands(cstt, cipstart, transMode)
  {
    StartSessionSends(ConnectProlog(m).modem, cstt, cipstart, transMode);
  }

  /**
   * `openTCP(apn, user, pwd, server, port, transMode)`: power on, then the
   * rest. A failing power-on returns at once, without `off()`.
   */
  function OpenTCP(m: Modem, apn: string, user: Option<string>, pwd: Option<string>,
                   server: string, port: int, transMode: bool): (r: Step<bool>)
    requires Fits(CsttCommand(apn, user, pwd), 60) && Fits(CipstartCommand(server, port), 60)
    ensures r.modem.st.powered <==> r.value || !On(m).value
    ensures r.modem.st.transMode == if r.value then transMode else m.st.transMode
    ensures r.modem.buf == m.buf
  {
    var o := On(m);
    if !o.value then o
    else OpenOnline(o.modem, CsttCommand(apn, user, pwd), CipstartCommand(server, port), transMode)
  }

  /** `openTCP` with a modem that does not answer: false, no command beyond the probes, and no `off()`. */
  lemma OpenTCPNeedsOn(m: Modem, apn: string, user: Option<string>, pwd: Option<string>,
                       server: string, port: int, transMode: bool)
    requires Fits(CsttCommand(apn, user, pwd), 60) && Fits(CipstartCommand(server, port), 60)
    requires !On(m).value
    ensures OpenTCP(m, apn, user, pwd, server, port, transMode) == On(m)
  {
  }

  /** When `openTCP` succeeds, its last commands are the session's, with the CSTT and CIPSTART texts built from the arguments. */
  lemma OpenTCPSends(m: Modem, apn: string, user: Option<string>, pwd: Option<string>,
                     server: string, port: int, transMode: bool)
    requires Fits(CsttCommand(apn, user, pwd), 60) && Fits(CipstartCommand(server, port), 60)
    requires OpenTCP(m, apn, user, pwd, server, port, transMode).value
    ensures OpenTCP(m, apn, user, pwd, server, port, transMode).modem.link.sent
      == ConnectProlog(On(m).modem).modem.link.sent
         + SessionCommands(CsttCommand(apn, user, pwd), CipstartCommand(server, port), transMode)
  {
    OpenOnlineSends(On(m).modem, CsttCommand(apn, user, pwd), CipstartCommand(server, port), transMode);
  }

  /**
   * `closeTCP(switchOff)`: in transparent mode "+++" first, then
   * "AT+CIPSHUT" whose "SHUT OK" is awaited but not judged, then `off()`
   * when asked. The transparent-mode flag stays as it was.
   */
  function CloseTCP(m: Modem, switchOff: bool): (r: Modem)
    ensures r.link.sent == m.link.sent + (if m.st.transMode then [Raw("+++")] else []) + [Command("AT+CIPSHUT")]
    ensures r.st == if switchOff then m.st.(powered := false, echoOff := false) else m.st
    ensures r.buf == m.buf && r.link.clock == m.link.clock
  {
    var e := if m.st.transMode then SendRaw(m, "+++") else m;
    var h := AwaitMessage(SendCommand(e, "AT+CIPSHUT"), "SHUT OK");
    if switchOff then Off(h.modem).modem else h.modem
  }

  /** `closeTCP()` without an argument switches the modem off. */
  function CloseTCPDefault(m: Modem): (r: Modem)
    ensures !r.st.powered
  {
    CloseTCP(m, true)
  }

  /** The connection state a "STATE:" line reports: the text after the prefix, blanks skipped. */
  function StateOf(line: string): (r: string)
    requires "STATE:" <= CStr(line)
    ensures NulFree(r) && (|r| > 0 ==> r[0] != ' ')
  {
    SkipSpaces(AfterPrefix(line, "STATE:"))
  }

  /** "AT+CIPSTATUS" answered "OK", then the state of the "STATE:" line that follows; nothing when either is missing. */
  function CipStatus(m: Modem): (r: Step<Option<string>>)
    ensures SameState(r.modem, m)
    ensures r.value.Some? ==> OkAt(m, 0)
    ensures r.modem.link.sent == m.link.sent + [Command("AT+CIPSTATUS")]
    ensures r.modem.link.script == Advance(m.link)
  {
    var c := SendCommandWaitForOK(m, "AT+CIPSTATUS");
    FirstReplyIsOkAt(m, "AT+CIPSTATUS");
    if !c.value then Step(None, c.modem)
    else
      var w := AwaitMessage(c.modem, "STATE:");
      Step(if w.value.Some? then Some(StateOf(w.value.value)) else None, w.modem)
  }

  lemma StateTagPlain()
    ensures Plain("STATE:")
  {
    PrintableIsPlain("STATE:");
  }

  /** A status reply "OK" followed by "STATE: <state>" yields the state. */
  lemma CipStatusReadsState(m: Modem, sp: string, state: string, rest: seq<Event>)
    requires forall i :: 0 <= i < |sp| ==> sp[i] == ' '
    requires Plain(state) && (|state| == 0 || state[0] != ' ')
    requires m.buf.Allocated? && 6 + |sp| + |state| < m.buf.capacity
    requires NextReply(m.link) == Line("OK") + (Line("STATE:" + (sp + state)) + rest)
    ensures CipStatus(m).value == Some(state)
  {
    var cap := m.buf.capacity;
    var x := "STATE:" + (sp + state);
    OkLineAccepted(cap, Line(x) + rest);
    BlanksArePlain(sp);
    PlainConcat(sp, state);
    StateTagPlain();
    PlainConcat("STATE:", sp + state);
    FirstLineMatches("STATE:", cap, x, rest);
    CStrOfNulFree(x);
    assert AfterPrefix(x, "STATE:") == sp + state;
    SkipBlanks(sp, state);
  }

  /**
   * `isTCPConnected()`: only a powered modem is asked. In transparent mode
   * "+++" must be answered "OK" first. The CIPSTATUS state must be
   * "CONNECT OK"; in transparent mode "ATO0" must then bring back
   * "CONNECT".
   */
  function IsTCPConnected(m: Modem): (r: Step<bool>)
    ensures r.value ==> m.st.powered
    ensures SameState(r.modem, m)
    ensures m.st.powered && !m.st.transMode ==> (r.value <==> CipStatus(m).value == Some("CONNECT OK"))
    ensures m.st.transMode && r.value ==>
      && WaitForOK(m.buf, m.link.pending).value
      && |r.modem.link.sent| > 0 && r.modem.link.sent[|r.modem.link.sent| - 1] == Command("ATO0")
  {
    if !m.st.powered then Step(false, m)
    else if !m.st.transMode then ConfirmState(m, false)
    else
      var e := AwaitOK(SendRaw(m, "+++"));
      if !e.value then e else ConfirmState(e.modem, true)
  }

  /**
   * The part of `isTCPConnected` after the escape: the CIPSTATUS state
   * must be "CONNECT OK", and in transparent mode "ATO0" must bring back
   * "CONNECT".
   */
  function ConfirmState(m: Modem, resume: bool): (r: Step<bool>)
    ensures SameState(r.modem, m)
    ensures r.value <==> CipStatus(m).value == Some("CONNECT OK") && (resume ==> ResumeData(CipStatus(m).modem).value)
    ensures r.modem.link.sent == CipStatus(m).modem.link.sent
      + (if resume && CipStatus(m).value == Some("CONNECT OK") then [Command("ATO0")] else [])
  {
    var c := CipStatus(m);
    if c.value != Some("CONNECT OK") then Step(false, c.modem)
    else if !resume then Step(true, c.modem)
    else ResumeData(c.modem)
  }

  /** "ATO0", answered by a line starting with "CONNECT", returns to transparent mode. */
  function ResumeData(m: Modem): (r: Step<bool>)
    ensures SameState(r.modem, m)
    ensures r.value == WaitForMessage("CONNECT", m.buf, NextReply(m.link)).value.Some?
    ensures r.modem.link.sent == m.link.sent + [Command("ATO0")]
  {
    var o := AwaitMessage(SendCommand(m, "ATO0"), "CONNECT");
    Step(o.value.Some?, o.modem)
  }

  /**
   * Outside transparent mode, a status reply "OK" followed by
   * "STATE: <state>" makes `isTCPConnected` true exactly when the state is
   * "CONNECT OK".
   */
  lemma ConnectedIffConnectOk(m: Modem, sp: string, state: string, rest: seq<Event>)
    requires m.st.powered && !m.st.transMode
    requires forall i :: 0 <= i < |sp| ==> sp[i] == ' '
    requires Plain(state) && (|state| == 0 || state[0] != ' ')
    requires m.buf.Allocated? && 6 + |sp| + |state| < m.buf.capacity
    requires NextReply(m.link) == Line("OK") + (Line("STATE:" + (sp + state)) + rest)
    ensures IsTCPConnected(m).value <==> state == "CONNECT OK"
  {
    CipStatusReadsState(m, sp, state, rest);
  }

  /**
   * In transparent mode, with "OK" pending for "+++", a status reply "OK"
   * followed by "STATE: <state>", and "CONNECT" answering "ATO0",
   * `isTCPConnected` is true exactly when the state is "CONNECT OK"; it
   * sends "+++" and "AT+CIPSTATUS", and "ATO0" after them exactly then.
   */
  lemma TransparentConnectedIffConnectOk(m: Modem, sp: string, state: string, rest: seq<Event>,
                                         after: seq<Event>, rest2: seq<Event>)
    requires m.st.powered && m.st.transMode
    requires forall i :: 0 <= i < |sp| ==> sp[i] == ' '
    requires Plain(state) && (|state| == 0 || state[0] != ' ')
    requires m.buf.Allocated? && 6 + |sp| + |state| < m.buf.capacity && 7 < m.buf.capacity
    requires m.link.pending == Line("OK") + after
    requires NextReply(m.link) == Line("OK") + (Line("STATE:" + (sp + state)) + rest)
    requires ReplyAt(m.link, 1) == Line("CONNECT") + rest2
    ensures var r := IsTCPConnected(m);
      && (r.value <==> state == "CONNECT OK")
      && r.modem.link.sent == m.link.sent + [Raw("+++"), Command("AT+CIPSTATUS")]
                              + (if state == "CONNECT OK" then [Command("ATO0")] else [])
  {
    var e := EscapeConfirms(m, after);
    ResumedIffConnectOk(e, sp, state, rest, rest2);
    assert m.link.sent + [Raw("+++")] + [Command("AT+CIPSTATUS")] == m.link.sent + [Raw("+++"), Command("AT+CIPSTATUS")];
  }

  /**
   * With the status reply "OK", "STATE: <state>" and "CONNECT" answering
   * "ATO0", the state check that resumes data mode succeeds exactly when the
   * state is "CONNECT OK", and sends "ATO0" exactly then.
   */
  lemma ResumedIffConnectOk(e: Modem, sp: string, state: string, rest: seq<Event>, rest2: seq<Event>)
    requires forall i :: 0 <= i < |sp| ==> sp[i] == ' '
    requires Plain(state) && (|state| == 0 || state[0] != ' ')
    requires e.buf.Allocated? && 6 + |sp| + |state| < e.buf.capacity && 7 < e.buf.capacity
    requires NextReply(e.link) == Line("OK") + (Line("STATE:" + (sp + state)) + rest)
    requires ReplyAt(e.link, 1) == Line("CONNECT") + rest2
    ensures var r := ConfirmState(e, true);
      && (r.value <==> state == "CONNECT OK")
      && r.modem.link.sent == e.link.sent + [Command("AT+CIPSTATUS")]
                              + (if state == "CONNECT OK" then [Command("ATO0")] else [])
  {
    CipStatusReadsState(e, sp, state, rest);
    var c := CipStatus(e).modem;
    assert NextReply(c.link) == ReplyAt(e.link, 1);
    ResumeConnects(c, rest2);
  }

  /** In transparent mode, once "+++" is answered "OK", `isTCPConnected` is the state check with data mode resumed. */
  lemma EscapeConfirms(m: Modem, after: seq<Event>) returns (e: Modem)
    requires m.st.powered && m.st.transMode
    requires m.buf.Allocated? && 2 < m.buf.capacity
    requires m.link.pending == Line("OK") + after
    ensures IsTCPConnected(m) == ConfirmState(e, true)
    ensures e.link == m.link.(pending := after, sent := m.link.sent + [Raw("+++")])
    ensures SameState(e, m)
  {
    e := EscapeAccepted(m, after);
  }

  /** "+++" answered by a pending "OK" is accepted, and leaves what follows the "OK" pending. */
  lemma EscapeAccepted(m: Modem, after: seq<Event>) returns (e: Modem)
    requires m.buf.Allocated? && 2 < m.buf.capacity
    requires m.link.pending == Line("OK") + after
    ensures AwaitOK(SendRaw(m, "+++")) == Step(true, e)
    ensures e.link == m.link.(pending := after, sent := m.link.sent + [Raw("+++")])
    ensures SameState(e, m)
  {
    OkLineAccepted(m.buf.capacity, after);
    e := AwaitOK(SendRaw(m, "+++")).modem;
  }

  /** "ATO0" answered by "CONNECT" brings transparent mode back. */
  lemma ResumeConnects(c: Modem, rest2: seq<Event>)
    requires c.buf.Allocated? && 7 < c.buf.capacity
    requires NextReply(c.link) == Line("CONNECT") + rest2
    ensures ResumeData(c).value
  {
    PrintableIsPlain("CONNECT");
    FirstLineMatches("CONNECT", c.buf.capacity, "CONNECT", rest2);
  }

  /** The command announcing `n` bytes of payload: `AT+CIPSEND=<n>`, the length printed from a C `int`. */
  function CipsendCommand(n: nat): string
  {
    "AT+CIPSEND=" + Itoa(ToI32(n))
  }

  /**
   * `sendDataTCP(data)`: announce the length, wait for the "> " prompt,
   * write the payload, and succeed on "SEND OK". The payload goes out only
   * after the prompt was seen.
   */
  function SendDataTCP(m: Modem, data: string): (r: Step<bool>)
    ensures SameState(r.modem, m)
    ensures var p := WaitForPromptChecked("> ", NextReply(m.link));
      && r.modem.link.sent == m.link.sent + [Command(CipsendCommand(|data|))] + (if p.value then [Raw(data)] else [])
      && (r.value <==> p.value && WaitForMessage("SEND OK", m.buf, p.rest).value.Some?)
  {
    PromptPlain();
    var p := AwaitPrompt(SendCommand(m, CipsendCommand(|data|)), "> ");
    if !p.value then Step(false, p.modem)
    else
      var w := AwaitMessage(SendRaw(p.modem, data), "SEND OK");
      Step(w.value.Some?, w.modem)
  }

  /**
   * `sendDataTCP` as written: `waitForPrompt` always reports success, so
   * the payload goes out whether or not the prompt came, and the verdict is
   * "SEND OK" in what follows the prompt wait alone.
   */
  function SendDataTCPAsWritten(m: Modem, data: string): (r: Step<bool>)
    ensures SameState(r.modem, m)
    ensures r.modem.link.sent == m.link.sent + [Command(CipsendCommand(|data|)), Raw(data)]
    ensures var p := ScanPrompt("> ", 0, NextReply(m.link));
      r.value <==> WaitForMessage("SEND OK", m.buf, p.rest).value.Some?
  {
    PromptPlain();
    var p := AwaitPromptAsWritten(SendCommand(m, CipsendCommand(|data|)), "> ");
    assert p.modem.link.pending == ScanPrompt("> ", 0, NextReply(m.link)).rest;
    if !p.value then Step(false, p.modem)
    else
      var w := AwaitMessage(SendRaw(p.modem, data), "SEND OK");
      Step(w.value.Some?, w.modem)
  }

  /** Once the prompt has come, the code as written and the checked flow do the same. */
  lemma SendDataAgreesAfterPrompt(m: Modem, data: string)
    requires WaitForPromptChecked("> ", NextReply(m.link)).value
    ensures SendDataTCPAsWritten(m, data) == SendDataTCP(m, data)
  {
  }

  /**
   * When the prompt does not come before the deadline, the code as written
   * still writes the payload, and succeeds on a "SEND OK" that follows; the
   * checked flow sends nothing and fails.
   */
  lemma PayloadSentWithoutPrompt(m: Modem, data: string, rest: seq<Event>)
    requires m.buf.Allocated? && m.buf.capacity > 7
    requires NextReply(m.link) == [Lapse] + (Line("SEND OK") + rest)
    ensures SendDataTCPAsWritten(m, data).value
    ensures Raw(data) in SendDataTCPAsWritten(m, data).modem.link.sent
    ensures !SendDataTCP(m, data).value
    ensures Raw(data) !in SendDataTCP(m, data).modem.link.sent[|m.link.sent|..]
  {
    PromptPlain();
    CStrOfNulFree("SEND OK");
    FirstLineMatches("SEND OK", m.buf.capacity, "SEND OK", rest);
    assert ScanPrompt("> ", 0, NextReply(m.link)) == PromptScan(false, Line("SEND OK") + rest);
    var r := SendDataTCP(m, data);
    assert r.modem.link.sent[|m.link.sent|..] == [Command(CipsendCommand(|data|))];
  }

  lemma PromptPlain()
    ensures Plain("> ") && Plain("SEND OK")
  {
    PrintableIsPlain("> ");
    PrintableIsPlain("SEND OK");
  }

  /** A prompt at the start of the reply and then "SEND OK" make `sendDataTCP` succeed. */
  lemma SendDataAfterPrompt(m: Modem, data: string, rest: seq<Event>)
    requires m.buf.Allocated? && m.buf.capacity > 7
    requires NextReply(m.link) == Bytes("> ") + (Line("SEND OK") + rest)
    ensures SendDataTCP(m, data).value
  {
    PromptPlain();
    PromptAfterLineFeedIsSeen("> ", 0, Line("SEND OK") + rest);
    CStrOfNulFree("SEND OK");
    FirstLineMatches("SEND OK", m.buf.capacity, "SEND OK", rest);
  }

  /** What `receiveDataTCP` leaves behind: whether all requested bytes came, and the bytes stored. */
  datatype Chunk = Chunk(complete: bool, data: string)

  /**
   * `receiveDataTCP(data, len, timeout)`: store arriving bytes until `len`
   * have come or the deadline passes; true only when all came.
   */
  function ReceiveDataTCP(m: Modem, len: nat): (r: Step<Chunk>)
    ensures var a := Arrived(m.link.pending);
      && (r.value.complete <==> len <= |a|)
      && r.value.data == a[..Min(len, |a|)]
    ensures SameState(r.modem, m)
  {
    var b := AwaitBytes(m, len, len);
    ReadBytesCounts(len, len, m.link.pending);
    ReadBytesStores(len, len, m.link.pending);
    Step(Chunk(b.value.unread == 0, b.value.stored), b.modem)
  }

  /** `receiveDataTCP` reads exactly the requested bytes when they arrive in time, and leaves the rest unread. */
  lemma ReceiveDataTakesWhatArrives(m: Modem, data: string, rest: seq<Event>)
    requires m.link.pending == Bytes(data) + rest
    ensures var r := ReceiveDataTCP(m, |data|);
      r.value == Chunk(true, data) && r.modem.link.pending == rest
  {
    BytesArrive(data, rest);
    ReadBytesTakesPrefix(data, rest);
  }

  /** The bytes of `data` arrive, with whatever follows. */
  lemma {:induction false} BytesArrive(data: string, rest: seq<Event>)
    ensures Arrived(Bytes(data) + rest)[..|data|] == data
    ensures |Arrived(Bytes(data) + rest)| >= |data|
  {
    if |data| > 0 {
      assert (Bytes(data) + rest)[0] == Byte(data[0]);
      assert (Bytes(data) + rest)[1..] == Bytes(data[1..]) + rest;
      BytesArrive(data[1..], rest);
    }
  }

  /** Reading exactly the bytes of `data` stops right behind them. */
  lemma {:induction false} ReadBytesTakesPrefix(data: string, rest: seq<Event>)
    ensures ReadBytes(|data|, |data|, Bytes(data) + rest).rest == rest
  {
    if |data| > 0 {
      assert (Bytes(data) + rest)[0] == Byte(data[0]);
      assert (Bytes(data) + rest)[1..] == Bytes(data[1..]) + rest;
      ReadBytesTakesPrefix(data[1..], rest);
    }
  }

  /** `receiveLineTCP(&buffer, timeout)`: the next line, or nothing when the deadline passes first. */
  function ReceiveLineTCP(m: Modem): (r: Step<Option<string>>)
    ensures r.value.Some? ==> m.buf.Allocated? && |r.value.value| < m.buf.capacity
    ensures SameState(r.modem, m)
  {
    var l := ReadLine(m.buf, m.link.pending);
    Step(l.line, Consume(m, l.rest))
  }

  /** A whole line that fits is returned as sent; a line cut off by the deadline gives nothing. */
  lemma ReceiveLineTCPReadsLine(m: Modem, x: string, rest: seq<Event>)
    requires m.buf.Allocated? && |x| < m.buf.capacity && NoBreak(x)
    ensures var r := ReceiveLineTCP(m.(link := m.link.(pending := Line(x) + rest)));
      r.value == Some(x) && r.modem.link.pending == rest
    ensures ReceiveLineTCP(m.(link := m.link.(pending := Bytes(x) + ([Lapse] + rest)))).value.None?
  {
    ReadsWholeLine(m.buf.capacity, x, rest);
    UnterminatedTimesOut(m.buf.capacity, x, rest);
  }
}
