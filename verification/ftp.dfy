/**
 * The FTP upload client of `SIMx00` (SIMx00.cpp) and the bearer set-up it
 * shares with HTTP: `setBearerParms`, opening and closing the session and
 * one remote file, and the upload of data in chunks the server allows.
 */
module Ftp {
  import opened Machine
  import opened Options
  import opened CText
  import opened Transport
  import opened Replies
  import opened Engine
  import opened Device
  import opened Tcp

  // ---------------------------------------------------------------------
  // setBearerParms
  // ---------------------------------------------------------------------

  /** `AT+SAPBR=3,1,"<tag>","<value>"`: one parameter of bearer profile 1. */
  function BearerSetting(tag: string, value: string): string
  {
    "AT+SAPBR=3,1," + (Quoted(tag) + ("," + Quoted(value)))
  }

  /** An optional argument that `setBearerParms` uses: neither NULL nor empty. */
  predicate Given(s: Option<string>)
  {
    s.Some? && |s.value| > 0
  }

  /** The settings `setBearerParms` makes, in order: connection type, APN, then user and password when given. */
  function BearerSettings(apn: string, user: Option<string>, pwd: Option<string>): (r: seq<string>)
    ensures 2 <= |r| <= 4
  {
    [BearerSetting("CONTYPE", "GPRS"), BearerSetting("APN", apn)]
    + (if Given(user) then [BearerSetting("USER", user.value)] else [])
    + (if Given(pwd) then [BearerSetting("PWD", pwd.value)] else [])
  }

  /** Without credentials only the connection type and the APN are set. */
  lemma BearerSettingsWithoutCredentials(apn: string)
    ensures BearerSettings(apn, None, None) == BearerSettings(apn, Some(""), Some(""))
    ensures |BearerSettings(apn, None, None)| == 2
  {
  }

  /** Both credentials given: four settings, user before password. */
  lemma BearerSettingsWithCredentials(apn: string, user: string, pwd: string)
    requires |user| > 0 && |pwd| > 0
    ensures BearerSettings(apn, Some(user), Some(pwd))
      == [BearerSetting("CONTYPE", "GPRS"), BearerSetting("APN", apn), BearerSetting("USER", user), BearerSetting("PWD", pwd)]
  {
  }

  const OpenBearer := "AT+SAPBR=1,1"
  const QueryBearer := "AT+SAPBR=2,1"

  /**
   * `setBearerParms(apn, user, pwd)`: every setting must be answered "OK";
   * then "AT+SAPBR=1,1" up to five times until it is, then "AT+SAPBR=2,1".
   */
  function SetBearerParms(m: Modem, apn: string, user: Option<string>, pwd: Option<string>): (r: Step<bool>)
    ensures SameState(r.modem, m)
  {
    BearerWith(m, BearerSettings(apn, user, pwd), OpenBearer, QueryBearer)
  }

  /** The bearer set-up with its commands as parameters: settings, then open and query. */
  function BearerWith(m: Modem, settings: seq<string>, open: string, query: string): (r: Step<bool>)
    ensures SameState(r.modem, m)
  {
    var s := AllOK(m, settings);
    if !s.value then s else BearerUp(s.modem, open, query)
  }

  /** Open the bearer with `open`, up to five tries, then check it with `query`. */
  function BearerUp(m: Modem, open: string, query: string): (r: Step<bool>)
    ensures SameState(r.modem, m)
  {
    var o := RetryOK(m, open, 5);
    if !o.value then o else SendCommandWaitForOK(o.modem, query)
  }

  /**
   * From reply `base` on, one of the next five holds "OK", and the reply
   * after the first such one holds "OK" too.
   */
  predicate OpensFrom(m: Modem, base: nat)
  {
    exists j :: 0 <= j < 5 && FirstOkFrom(m, base, j) && OkAt(m, base + j + 1)
  }

  /** The `j`-th reply from `base` on is the first of them that holds "OK". */
  predicate FirstOkFrom(m: Modem, base: nat, j: nat)
  {
    OkAt(m, base + j) && forall i :: base <= i < base + j ==> !OkAt(m, i)
  }

  /**
   * `setBearerParms` succeeds exactly when every setting is accepted, one of
   * the next five replies accepts opening the bearer, and the reply right
   * after the first such accepts the query.
   */
  lemma SetBearerParmsVerdict(m: Modem, apn: string, user: Option<string>, pwd: Option<string>)
    ensures var n := |BearerSettings(apn, user, pwd)|;
      SetBearerParms(m, apn, user, pwd).value <==>
        && (forall i :: 0 <= i < n ==> OkAt(m, i))
        && exists j :: 0 <= j < 5 && FirstOkFrom(m, n, j) && OkAt(m, n + j + 1)
  {
    BearerWithVerdict(m, BearerSettings(apn, user, pwd), OpenBearer, QueryBearer);
  }

  lemma BearerWithVerdict(m: Modem, cmds: seq<string>, open: string, query: string)
    ensures BearerWith(m, cmds, open, query).value <==>
      && (forall i :: 0 <= i < |cmds| ==> OkAt(m, i))
      && OpensFrom(m, |cmds|)
  {
    var s := AllOK(m, cmds);
    AllOKVerdict(m, cmds);
    if s.value {
      AllOKSends(m, cmds);
      AllOKAdvances(m, cmds);
      BearerOpened(m, s.modem, |cmds|, open, query);
    }
  }

  /** The part of `SetBearerParmsVerdict` after the settings, seen from the modem `s` they left, `n` replies on. */
  lemma BearerOpened(m: Modem, s: Modem, n: nat, open: string, query: string)
    requires s.buf == m.buf && s.link.script == Skip(m.link.script, n)
    ensures BearerUp(s, open, query).value <==>
        OpensFrom(m, n)
  {
    if RetryOK(s, open, 5).value {
      BearerOpenedYes(m, s, n, open, query);
    } else {
      RetryOKVerdict(s, open, 5);
      NoOkReindexed(m, s, n);
    }
  }

  lemma BearerOpenedYes(m: Modem, s: Modem, n: nat, open: string, query: string)
    requires s.buf == m.buf && s.link.script == Skip(m.link.script, n)
    requires RetryOK(s, open, 5).value
    ensures BearerUp(s, open, query).value <==>
        OpensFrom(m, n)
  {
    var k := BearerOpenedAfter(s, open);
    QueryAfterOpen(s, RetryOK(s, open, 5).modem, query, k);
    FirstOkReindexed(m, s, n, k, OkAt(s, k));
  }

  /** Once the bearer opened after `k` tries, the query is judged by the reply `k` places on. */
  lemma QueryAfterOpen(s: Modem, o: Modem, query: string, k: nat)
    requires o.buf == s.buf && o.link.script == Skip(s.link.script, k)
    ensures SendCommandWaitForOK(o, query).value == OkAt(s, k)
  {
    FirstReplyIsOkAt(o, query);
    OkAtSkip(s, o, k, 0);
  }

  /** A successful open took `k` tries, the last the first accepted, and used up `k` replies. */
  lemma BearerOpenedAfter(s: Modem, open: string) returns (k: nat)
    requires RetryOK(s, open, 5).value
    ensures var o := RetryOK(s, open, 5);
      && 0 < k <= 5 && OkAt(s, k - 1) && (forall j :: 0 <= j < k - 1 ==> !OkAt(s, j))
      && o.modem.buf == s.buf && o.modem.link.script == Skip(s.link.script, k)
  {
    var o := RetryOK(s, open, 5);
    RetryOKSends(s, open, 5);
    RetryOKAdvances(s, open, 5);
    k := |o.modem.link.sent| - |s.link.sent|;
  }

  /** The first accepted reply seen from `s` is the first seen from `m`, `n` places on. */
  lemma FirstOkReindexed(m: Modem, s: Modem, n: nat, k: nat, q: bool)
    requires s.buf == m.buf && s.link.script == Skip(m.link.script, n)
    requires 0 < k <= 5 && OkAt(s, k - 1) && (forall j :: 0 <= j < k - 1 ==> !OkAt(s, j))
    requires q == OkAt(s, k)
    ensures q <==> OpensFrom(m, n)
  {
    OkAtSkip(m, s, n, k - 1);
    OkAtSkip(m, s, n, k);
    forall i | n <= i < n + (k - 1)
      ensures !OkAt(m, i)
    {
      OkAtSkip(m, s, n, i - n);
    }
    assert FirstOkFrom(m, n, k - 1);
    assert q == OkAt(m, n + (k - 1) + 1);
  }

  lemma NoOkReindexed(m: Modem, s: Modem, n: nat)
    requires s.buf == m.buf && s.link.script == Skip(m.link.script, n)
    requires forall i :: 0 <= i < 5 ==> !OkAt(s, i)
    ensures !exists j :: 0 <= j < 5 && FirstOkFrom(m, n, j)
  {
    forall j | 0 <= j < 5
      ensures !FirstOkFrom(m, n, j)
    {
      OkAtSkip(m, s, n, j);
    }
  }

  // ---------------------------------------------------------------------
  // openFTP, closeFTP
  // ---------------------------------------------------------------------

  /** The login of `openFTP`: profile 1 for FTP, then server, user name and password. */
  function FtpLogin(server: string, username: string, password: string): seq<string>
  {
    ["AT+FTPCID=1", "AT+FTPSERV=" + Quoted(server), "AT+FTPUN=" + Quoted(username), "AT+FTPPW=" + Quoted(password)]
  }

  /** The three login commands built in the 64-byte buffer of `openFTP` fit it. */
  predicate LoginFits(server: string, username: string, password: string)
  {
    var l := FtpLogin(server, username, password);
    Fits(l[1], 64) && Fits(l[2], 64) && Fits(l[3], 64)
  }

  /** The settings built in the 64-byte buffer of `setBearerParms` fit it. */
  predicate BearerFits(apn: string, user: Option<string>, pwd: Option<string>)
  {
    forall c :: c in BearerSettings(apn, user, pwd) ==> Fits(c, 64)
  }

  /**
   * `openFTP` once the modem is on: the prolog, the bearer, the login; any
   * failure switches the modem off.
   */
  function FtpOnline(m: Modem, apn: string, apnUser: Option<string>, apnPwd: Option<string>, login: seq<string>): (r: Step<bool>)
    ensures r.modem.st.powered == (r.value && m.st.powered)
    ensures r.modem.st.transMode == m.st.transMode
    ensures r.modem.buf == m.buf
  {
    var p := ConnectProlog(m);
    if !p.value then Step(false, Off(p.modem).modem)
    else
      var b := SetBearerParms(p.modem, apn, apnUser, apnPwd);
      if !b.value then Step(false, Off(b.modem).modem)
      else
        var l := AllOK(b.modem, login);
        if !l.value then Step(false, Off(l.modem).modem) else l
  }

  /**
   * `openFTP(apn, apnuser, apnpwd, server, username, password)`: power on,
   * then the rest. A failing power-on returns at once, without `off()`;
   * the shorter overload passes no APN credentials.
   */
  function OpenFTP(m: Modem, apn: string, apnUser: Option<string>, apnPwd: Option<string>,
                   server: string, username: string, password: string): (r: Step<bool>)
    requires BearerFits(apn, apnUser, apnPwd) && LoginFits(server, username, password)
    ensures r.modem.st.powered <==> r.value || !On(m).value
    ensures r.modem.st.transMode == m.st.transMode
    ensures r.modem.buf == m.buf
  {
    var o := On(m);
    if !o.value then o
    else FtpOnline(o.modem, apn, apnUser, apnPwd, FtpLogin(server, username, password))
  }

  /** An open session has sent the whole login, right after the bearer set-up. */
  lemma OpenFTPLogsIn(m: Modem, apn: string, apnUser: Option<string>, apnPwd: Option<string>,
                      server: string, username: string, password: string)
    requires BearerFits(apn, apnUser, apnPwd) && LoginFits(server, username, password)
    requires OpenFTP(m, apn, apnUser, apnPwd, server, username, password).value
    ensures var b := SetBearerParms(ConnectProlog(On(m).modem).modem, apn, apnUser, apnPwd).modem;
      OpenFTP(m, apn, apnUser, apnPwd, server, username, password).modem.link.sent
        == b.link.sent + AsCommands(FtpLogin(server, username, password))
  {
    FtpOnlineLogsIn(On(m).modem, apn, apnUser, apnPwd, FtpLogin(server, username, password));
  }

  lemma FtpOnlineLogsIn(m: Modem, apn: string, apnUser: Option<string>, apnPwd: Option<string>, login: seq<string>)
    requires FtpOnline(m, apn, apnUser, apnPwd, login).value
    ensures FtpOnline(m, apn, apnUser, apnPwd, login).modem.link.sent
      == SetBearerParms(ConnectProlog(m).modem, apn, apnUser, apnPwd).modem.link.sent + AsCommands(login)
  {
    var p := ConnectProlog(m);
    var b := SetBearerParms(p.modem, apn, apnUser, apnPwd);
    var l := AllOK(b.modem, login);
    assert p.value && b.value && l.value;
    assert FtpOnline(m, apn, apnUser, apnPwd, login) == l;
    AllOKSends(b.modem, login);
    assert login[..|login|] == login;
  }

  /** `closeFTP()`: switch off and report success whatever happened. */
  function CloseFTP(m: Modem): (r: Step<bool>)
    ensures r.value && !r.modem.st.powered
    ensures r.modem.link == m.link
  {
    Off(m)
  }

  // ---------------------------------------------------------------------
  // openFTPfile, closeFTPfile
  // ---------------------------------------------------------------------

  const PutReply := "+FTPPUT:"

  lemma PutReplyPlain()
    ensures Plain(PutReply) && |PutReply| == 8
  {
    PrintableIsPlain(PutReply);
  }

  /**
   * The maximum chunk length in a "+FTPPUT:" reply to "AT+FTPPUT=1": after
   * the prefix and blanks the line must go on with "1," twice; what follows
   * is read with `strtoul(.., 0)`. Any other reply is an error.
   */
  function PutMax(line: string): (r: Option<u32>)
    requires PutReply <= CStr(line)
  {
    SessionMax(SkipSpaces(AfterPrefix(line, PutReply)))
  }

  /** The fields after "+FTPPUT:": "1,1,<max>" gives the maximum, anything else nothing. */
  function SessionMax(p: string): (r: Option<u32>)
  {
    if "1," <= p && "1," <= p[2..] then Some(Strtoul(p[4..], 0).value) else None
  }

  lemma SessionMaxReads(n: nat, tail: string)
    requires n < U32Modulus
    requires |tail| == 0 || DigitValue(tail[0]) == 36
    ensures SessionMax("1,1," + (NatDigits(n) + tail)) == Some(n)
  {
    var p := "1,1," + (NatDigits(n) + tail);
    assert "1," <= p && "1," <= p[2..];
    assert p[4..] == NatDigits(n) + tail;
    StrtoulReadsItoa(n, tail, 0);
  }

  /** The shape of a session reply: the prefix, blanks, then `body`. */
  function PutLine(sp: string, body: string): string
  {
    PutReply + (sp + body)
  }

  /** What `PutMax` looks at in a session reply. */
  lemma PutLineBody(sp: string, body: string)
    requires forall i :: 0 <= i < |sp| ==> sp[i] == ' '
    requires Plain(body) && |body| > 0 && body[0] != ' '
    ensures Plain(PutLine(sp, body))
    ensures PutReply <= CStr(PutLine(sp, body))
    ensures SkipSpaces(AfterPrefix(PutLine(sp, body), PutReply)) == body
  {
    var x := PutLine(sp, body);
    PutReplyPlain();
    BlanksArePlain(sp);
    PlainConcat(sp, body);
    PlainConcat(PutReply, sp + body);
    CStrOfNulFree(x);
    assert AfterPrefix(x, PutReply) == sp + body;
    SkipBlanks(sp, body);
  }

  /** Round trip: "+FTPPUT:1,1,<n>" announces the maximum `n`, whatever blanks precede it. */
  lemma PutMaxReadsLength(sp: string, n: nat, tail: string)
    requires forall i :: 0 <= i < |sp| ==> sp[i] == ' '
    requires n < U32Modulus
    requires Plain(tail) && (|tail| == 0 || DigitValue(tail[0]) == 36)
    ensures Plain(PutLine(sp, "1,1," + (NatDigits(n) + tail)))
    ensures PutReply <= CStr(PutLine(sp, "1,1," + (NatDigits(n) + tail)))
    ensures PutMax(PutLine(sp, "1,1," + (NatDigits(n) + tail))) == Some(n)
  {
    var body := "1,1," + (NatDigits(n) + tail);
    DigitsArePlain(n);
    PlainConcat(NatDigits(n), tail);
    PrintableIsPlain("1,1,");
    PlainConcat("1,1,", NatDigits(n) + tail);
    PutLineBody(sp, body);
    SessionMaxReads(n, tail);
  }

  /** A reply whose second field is not "1", such as the error "+FTPPUT:1,61", announces nothing. */
  lemma PutMaxRejectsError(sp: string, code: string)
    requires forall i :: 0 <= i < |sp| ==> sp[i] == ' '
    requires Plain(code) && !("1," <= code)
    ensures Plain(PutLine(sp, "1," + code))
    ensures PutReply <= CStr(PutLine(sp, "1," + code))
    ensures PutMax(PutLine(sp, "1," + code)) == None
  {
    PrintableIsPlain("1,");
    PlainConcat("1,", code);
    PutLineBody(sp, "1," + code);
    assert ("1," + code)[2..] == code;
  }

  lemma NetErrorRejected()
    ensures PutMax(PutLine("", "1,61")) == None
  {
    PrintableIsPlain("61");
    assert "61"[0] == '6';
    PutMaxRejectsError("", "61");
    assert "1," + "61" == "1,61";
  }

  /**
   * One round of the "AT+FTPPUT=1" loop: a refused command, or no
   * "+FTPPUT:" reply in time (after which `isAlive` runs), means another
   * round; a reply that is not "1,1,<max>" ends the loop as a failure.
   */
  function PutRound(m: Modem): (r: Step<Polled<u32>>)
    ensures SameState(r.modem, m)
  {
    var c := SendCommandWaitForOK(m, "AT+FTPPUT=1");
    if !c.value then Step(Again, c.modem)
    else
      PutReplyPlain();
      var w := AwaitMessage(c.modem, PutReply);
      match w.value
      case None => Step(Again, IsAlive(w.modem).modem)
      case Some(line) =>
        match PutMax(line)
        case None => Step(GiveUp, w.modem)
        case Some(n) => Step(Found(n), w.modem)
  }

  /** The file name and path commands of `openFTPfile`. */
  function FileCommands(fname: string, path: string): seq<string>
  {
    ["AT+FTPPUTNAME=" + Quoted(fname), "AT+FTPPUTPATH=" + Quoted(path)]
  }

  /**
   * `openFTPfile(fname, path)`: name and path must be accepted; then up to
   * five rounds of "AT+FTPPUT=1". Success stores the announced maximum
   * chunk length; nothing else in the settings changes.
   */
  function OpenFTPfile(m: Modem, fname: string, path: string): (r: Step<bool>)
    requires Fits(FileCommands(fname, path)[0], 64) && Fits(FileCommands(fname, path)[1], 64)
    ensures r.modem.st == m.st.(ftpMaxLength := r.modem.st.ftpMaxLength)
    ensures !r.value ==> r.modem.st == m.st
    ensures r.modem.buf == m.buf && r.modem.link.clock == m.link.clock
  {
    var a := AllOK(m, FileCommands(fname, path));
    if !a.value then a
    else
      assert forall x :: SameState(PutRound(x).modem, x);
      AttemptsKeepState(PutRound, a.modem, 5);
      var p := Attempts(PutRound, a.modem, 5);
      match p.value
      case None => Step(false, p.modem)
      case Some(n) => Step(true, p.modem.(st := p.modem.st.(ftpMaxLength := n)))
  }

  /**
   * A file opens on the first round when name, path and "AT+FTPPUT=1" are
   * accepted and the session reply is "+FTPPUT:1,1,<n>": the maximum is `n`.
   */
  lemma OpenFTPfileFirstRound(m: Modem, fname: string, path: string, sp: string, n: nat, tail: string, rest: seq<Event>)
    requires Fits(FileCommands(fname, path)[0], 64) && Fits(FileCommands(fname, path)[1], 64)
    requires forall i :: 0 <= i < |sp| ==> sp[i] == ' '
    requires n < U32Modulus
    requires Plain(tail) && (|tail| == 0 || DigitValue(tail[0]) == 36)
    requires OkAt(m, 0) && OkAt(m, 1)
    requires m.buf.Allocated? && |PutLine(sp, "1,1," + (NatDigits(n) + tail))| < m.buf.capacity
    requires ReplyAt(m.link, 2) == Line("OK") + (Line(PutLine(sp, "1,1," + (NatDigits(n) + tail))) + rest)
    ensures OpenFTPfile(m, fname, path).value
    ensures OpenFTPfile(m, fname, path).modem.st.ftpMaxLength == n
  {
    var cmds := FileCommands(fname, path);
    assert forall i :: 0 <= i < |cmds| ==> OkAt(m, i);
    RunAccepted(m, cmds);
    PutRoundFinds(AllOK(m, cmds).modem, sp, n, tail, rest);
    FileOpensOnFound(m, fname, path, n);
  }

  /** When name and path are accepted and the first round finds `n`, the file is open with maximum `n`. */
  lemma FileOpensOnFound(m: Modem, fname: string, path: string, n: u32)
    requires Fits(FileCommands(fname, path)[0], 64) && Fits(FileCommands(fname, path)[1], 64)
    requires AllOK(m, FileCommands(fname, path)).value
    requires PutRound(AllOK(m, FileCommands(fname, path)).modem).value == Found(n)
    ensures OpenFTPfile(m, fname, path).value
    ensures OpenFTPfile(m, fname, path).modem.st.ftpMaxLength == n
  {
  }

  /** The round of `OpenFTPfileFirstRound`, seen from the modem the file commands left. */
  lemma PutRoundFinds(m: Modem, sp: string, n: nat, tail: string, rest: seq<Event>)
    requires forall i :: 0 <= i < |sp| ==> sp[i] == ' '
    requires n < U32Modulus
    requires Plain(tail) && (|tail| == 0 || DigitValue(tail[0]) == 36)
    requires m.buf.Allocated? && |PutLine(sp, "1,1," + (NatDigits(n) + tail))| < m.buf.capacity
    requires NextReply(m.link) == Line("OK") + (Line(PutLine(sp, "1,1," + (NatDigits(n) + tail))) + rest)
    ensures PutRound(m).value == Found(n)
  {
    var x := PutLine(sp, "1,1," + (NatDigits(n) + tail));
    OkLineAccepted(m.buf.capacity, Line(x) + rest);
    PutMaxReadsLength(sp, n, tail);
    PutReplyPlain();
    FirstLineMatches(PutReply, m.buf.capacity, x, rest);
    CStrOfNulFree(x);
  }

  /** An error reply to the session request ends the loop: no second "AT+FTPPUT=1" is sent. */
  lemma PutRoundGivesUp(m: Modem, sp: string, code: string, rest: seq<Event>)
    requires forall i :: 0 <= i < |sp| ==> sp[i] == ' '
    requires Plain(code) && !("1," <= code)
    requires m.buf.Allocated? && |PutLine(sp, "1," + code)| < m.buf.capacity
    requires NextReply(m.link) == Line("OK") + (Line(PutLine(sp, "1," + code)) + rest)
    ensures PutRound(m).value == GiveUp
    ensures Attempts(PutRound, m, 5) == Step(None, PutRound(m).modem)
    ensures PutRound(m).modem.link.sent == m.link.sent + [Command("AT+FTPPUT=1")]
  {
    var x := PutLine(sp, "1," + code);
    OkLineAccepted(m.buf.capacity, Line(x) + rest);
    PutMaxRejectsError(sp, code);
    PutReplyPlain();
    FirstLineMatches(PutReply, m.buf.capacity, x, rest);
    var r := PutRound(m);
    assert r.value == GiveUp;
    GiveUpEndsAttempts(PutRound, m, 5);
  }

  /**
   * `closeFTPfile()`: "AT+FTPPUT=2,0" must be accepted; the "+FTPPUT:"
   * report that follows is awaited but its absence does not matter.
   */
  function CloseFTPfile(m: Modem): (r: Step<bool>)
    ensures r.value == OkAt(m, 0)
    ensures SameState(r.modem, m)
    ensures r.modem.link.sent == m.link.sent + [Command("AT+FTPPUT=2,0")]
  {
    var c := SendCommandWaitForOK(m, "AT+FTPPUT=2,0");
    FirstReplyIsOkAt(m, "AT+FTPPUT=2,0");
    if !c.value then c
    else
      PutReplyPlain();
      var w := AwaitMessage(c.modem, PutReply);
      Step(true, w.modem)
  }

  // ---------------------------------------------------------------------
  // Uploading data
  // ---------------------------------------------------------------------

  /** `AT+FTPPUT=2,<n>`: announce a chunk of `n` bytes, the size printed by `itoa` from a C `int`. */
  function PutDataCommand(n: nat): string
  {
    "AT+FTPPUT=2," + Itoa(ToI32(n))
  }

  /**
   * `sendFTPdata_low(buffer, size)`: announce the chunk and wait for the
   * "+FTPPUT:" answer; only then write the bytes, which must be
   * acknowledged "OK". The "+FTPPUT:" report after it is awaited, not judged.
   */
  function SendFTPdataLow(m: Modem, chunk: string): (r: Step<bool>)
    ensures SameState(r.modem, m)
    ensures var answered := WaitForMessage(PutReply, m.buf, NextReply(m.link)).value.Some?;
      && r.modem.link.sent == m.link.sent + [Command(PutDataCommand(|chunk|))] + (if answered then [Raw(chunk)] else [])
      && (r.value ==> answered)
    ensures var w := WaitForMessage(PutReply, m.buf, NextReply(m.link));
      r.value == (w.value.Some? && WaitForOK(m.buf, w.rest).value)
  {
    PutReplyPlain();
    var w := AwaitMessage(SendCommand(m, PutDataCommand(|chunk|)), PutReply);
    if w.value.None? then Step(false, w.modem)
    else
      var o := AwaitOK(SendRaw(w.modem, chunk));
      if !o.value then o
      else
        var a := AwaitMessage(o.modem, PutReply);
        Step(true, a.modem)
  }

  /** `sendFTPdata_low` as the step of the upload loop. */
  function LowStep(): (Modem, string) -> Step<bool>
  {
    (x, c) => SendFTPdataLow(x, c)
  }

  /** What the loop needs of its step: the state kept, and on success the chunk announced and written. */
  ghost predicate Uploader(low: (Modem, string) -> Step<bool>)
  {
    forall x, c :: SameState(low(x, c).modem, x)
      && (low(x, c).value ==> low(x, c).modem.link.sent == x.link.sent + [Command(PutDataCommand(|c|)), Raw(c)])
  }

  lemma LowStepUploads()
    ensures Uploader(LowStep())
  {
    forall x, c
      ensures SameState(LowStep()(x, c).modem, x)
      ensures LowStep()(x, c).value ==> LowStep()(x, c).modem.link.sent == x.link.sent + [Command(PutDataCommand(|c|)), Raw(c)]
    {
      LowSends(x, c);
    }
  }

  /** A successful `sendFTPdata_low` has sent the announcement and then the chunk. */
  lemma LowSends(x: Modem, c: string)
    ensures var s := SendFTPdataLow(x, c);
      s.value ==> s.modem.link.sent == x.link.sent + [Command(PutDataCommand(|c|)), Raw(c)]
  {
    var s := SendFTPdataLow(x, c);
    var answered := WaitForMessage(PutReply, x.buf, NextReply(x.link)).value.Some?;
    if s.value {
      AnsweredShape(x.link.sent, s.modem.link.sent, Command(PutDataCommand(|c|)), Raw(c), answered);
    }
  }

  lemma AnsweredShape(a: seq<Tx>, b: seq<Tx>, t: Tx, u: Tx, answered: bool)
    requires answered && b == a + [t] + (if answered then [u] else [])
    ensures b == a + [t, u]
  {
  }

  /** The concatenation of a list of strings. */
  function Concat(parts: seq<string>): string
  {
    if |parts| == 0 then "" else parts[0] + Concat(parts[1..])
  }

  /**
   * The chunks `sendFTPdata` cuts `data` into: `max` bytes each, the last
   * one whatever is left.
   */
  function Chunks(data: string, max: nat): (r: seq<string>)
    requires max > 0
    ensures |r| <= |data| && (|r| == 0 <==> |data| == 0)
    decreases |data|
  {
    if |data| == 0 then []
    else
      var k := Min(|data|, max);
      [data[..k]] + Chunks(data[k..], max)
  }

  /** The chunks put together give back the data; none is empty or longer than `max`, and all but the last are full. */
  lemma {:induction false} ChunksPartition(data: string, max: nat)
    requires max > 0
    ensures Concat(Chunks(data, max)) == data
    ensures forall i :: 0 <= i < |Chunks(data, max)| ==> 0 < |Chunks(data, max)[i]| <= max
    ensures forall i :: 0 <= i < |Chunks(data, max)| - 1 ==> |Chunks(data, max)[i]| == max
    decreases |data|
  {
    if |data| > 0 {
      var k := Min(|data|, max);
      var c := Chunks(data, max);
      ChunksPartition(data[k..], max);
      assert c[1..] == Chunks(data[k..], max);
      assert data[..k] + data[k..] == data;
    }
  }

  /** 3000 bytes with a maximum of 1360 go out as 1360, 1360 and 280 bytes. */
  lemma ChunksOf3000(data: string)
    requires |data| == 3000
    ensures var c := Chunks(data, 1360);
      |c| == 3 && |c[0]| == 1360 && |c[1]| == 1360 && |c[2]| == 280
  {
    var d1 := data[1360..];
    var d2 := d1[1360..];
    assert Chunks(d2, 1360) == [d2[..280]] + Chunks(d2[280..], 1360);
    assert Chunks(d1, 1360) == [d1[..1360]] + Chunks(d2, 1360);
  }

  /** The log entries of uploading `chunks` one after the other, each announced and then written. */
  function Uploads(chunks: seq<string>): seq<Tx>
  {
    if |chunks| == 0 then []
    else [Command(PutDataCommand(|chunks[0]|)), Raw(chunks[0])] + Uploads(chunks[1..])
  }

  /** The loop of `sendFTPdata` over the chunks of a positive maximum: stop at the first that fails. */
  function SendChunks(low: (Modem, string) -> Step<bool>, m: Modem, data: string, max: nat): (r: Step<bool>)
    requires max > 0
    ensures Uploader(low) ==> SameState(r.modem, m)
    decreases |data|
  {
    if |data| == 0 then Step(true, m)
    else
      var k := Min(|data|, max);
      var l := low(m, data[..k]);
      if !l.value then l else SendChunks(low, l.modem, data[k..], max)
  }

  /** A successful upload announced and wrote every chunk, in order. */
  lemma {:induction false} SendChunksSends(low: (Modem, string) -> Step<bool>, m: Modem, data: string, max: nat)
    requires max > 0 && Uploader(low)
    requires SendChunks(low, m, data, max).value
    ensures SendChunks(low, m, data, max).modem.link.sent == m.link.sent + Uploads(Chunks(data, max))
    decreases |data|
  {
    if |data| > 0 {
      var k := Min(|data|, max);
      var l := low(m, data[..k]);
      SendChunksSends(low, l.modem, data[k..], max);
      var c := Chunks(data, max);
      assert c[1..] == Chunks(data[k..], max);
      var u := [Command(PutDataCommand(k)), Raw(data[..k])];
      assert Uploads(c) == u + Uploads(c[1..]);
      AppendAssoc(m.link.sent, u, Uploads(c[1..]));
    }
  }

  /**
   * `sendFTPdata(data, size)` with the maximum the session announced. When
   * no maximum was announced (0), it fails without sending anything; the
   * loop as written never finishes then (see `SendFTPdataAsWritten`).
   */
  function SendFTPdata(m: Modem, data: string): (r: Step<bool>)
    ensures SameState(r.modem, m)
    ensures m.st.ftpMaxLength == 0 && |data| > 0 ==> r == Step(false, m)
    ensures |data| == 0 ==> r == Step(true, m)
  {
    if |data| == 0 then Step(true, m)
    else if m.st.ftpMaxLength == 0 then Step(false, m)
    else
      LowStepUploads();
      SendChunks(LowStep(), m, data, m.st.ftpMaxLength)
  }

  /** The payload of a successful upload is the data, chunk by chunk, none longer than the announced maximum. */
  lemma SendFTPdataSends(m: Modem, data: string)
    requires SendFTPdata(m, data).value && |data| > 0
    ensures m.st.ftpMaxLength > 0
    ensures SendFTPdata(m, data).modem.link.sent == m.link.sent + Uploads(Chunks(data, m.st.ftpMaxLength))
    ensures Concat(Chunks(data, m.st.ftpMaxLength)) == data
    ensures forall c :: c in Chunks(data, m.st.ftpMaxLength) ==> 0 < |c| <= m.st.ftpMaxLength
  {
    LowStepUploads();
    SendChunksSends(LowStep(), m, data, m.st.ftpMaxLength);
    ChunksPartition(data, m.st.ftpMaxLength);
  }

  /**
   * The loop of `sendFTPdata` as written, given `fuel` rounds: None when
   * it is still running after them. The chunk size is
   * `min(size, _ftpMaxLength)`, which is 0 when no maximum was announced.
   */
  function LoopAsWritten(low: (Modem, string) -> Step<bool>, m: Modem, data: string, max: nat, fuel: nat): (r: Step<Option<bool>>)
    ensures Uploader(low) ==> SameState(r.modem, m)
    decreases fuel
  {
    if |data| == 0 then Step(Some(true), m)
    else if fuel == 0 then Step(None, m)
    else
      var k := Min(|data|, max);
      var l := low(m, data[..k]);
      if !l.value then Step(Some(false), l.modem) else LoopAsWritten(low, l.modem, data[k..], max, fuel - 1)
  }

  /** `sendFTPdata` as written, bounded to `fuel` rounds. */
  function SendFTPdataAsWritten(m: Modem, data: string, fuel: nat): (r: Step<Option<bool>>)
    ensures SameState(r.modem, m)
  {
    LowStepUploads();
    LoopAsWritten(LowStep(), m, data, m.st.ftpMaxLength, fuel)
  }

  /** With an announced maximum the code as written and the corrected upload agree, given rounds enough. */
  lemma AsWrittenAgrees(m: Modem, data: string, fuel: nat)
    requires m.st.ftpMaxLength > 0 && fuel >= |data|
    ensures SendFTPdataAsWritten(m, data, fuel) == Step(Some(SendFTPdata(m, data).value), SendFTPdata(m, data).modem)
  {
    AsWrittenAgreesWithMax(LowStep(), m, data, m.st.ftpMaxLength, fuel);
  }

  /** Without an announced maximum the code as written never reports an upload, however long it runs. */
  lemma AsWrittenNeverSucceeds(m: Modem, data: string, fuel: nat)
    requires m.st.ftpMaxLength == 0 && |data| > 0
    ensures SendFTPdataAsWritten(m, data, fuel).value != Some(true)
  {
    AsWrittenNeverUploads(LowStep(), m, data, fuel);
  }

  /** With a positive maximum the loop as written ends within `|data|` rounds, with the corrected verdict. */
  lemma {:induction false} AsWrittenAgreesWithMax(low: (Modem, string) -> Step<bool>, m: Modem, data: string, max: nat, fuel: nat)
    requires max > 0 && fuel >= |data|
    ensures var c := SendChunks(low, m, data, max);
      LoopAsWritten(low, m, data, max, fuel) == Step(Some(c.value), c.modem)
    decreases |data|
  {
    if |data| > 0 {
      var k := Min(|data|, max);
      var l := low(m, data[..k]);
      if l.value {
        AsWrittenAgreesWithMax(low, l.modem, data[k..], max, fuel - 1);
      }
    }
  }

  /**
   * Without a maximum the loop as written never succeeds: each round
   * announces an empty chunk and the data never shrinks, so the loop runs
   * until a round fails.
   */
  lemma {:induction false} AsWrittenNeverUploads(low: (Modem, string) -> Step<bool>, m: Modem, data: string, fuel: nat)
    requires |data| > 0
    ensures LoopAsWritten(low, m, data, 0, fuel).value != Some(true)
    decreases fuel
  {
    if fuel > 0 {
      var l := low(m, data[..0]);
      assert data[0..] == data;
      if l.value {
        AsWrittenNeverUploads(low, l.modem, data, fuel - 1);
      }
    }
  }

  /** A step that announces its chunk first and writes nothing but the chunk after it. */
  ghost predicate Announces(low: (Modem, string) -> Step<bool>)
  {
    forall x, c :: low(x, c).modem.link.sent == x.link.sent + [Command(PutDataCommand(|c|))]
      || low(x, c).modem.link.sent == x.link.sent + [Command(PutDataCommand(|c|)), Raw(c)]
  }

  lemma LowStepAnnounces()
    ensures Announces(LowStep())
  {
    forall x, c
      ensures LowStep()(x, c).modem.link.sent == x.link.sent + [Command(PutDataCommand(|c|))]
        || LowStep()(x, c).modem.link.sent == x.link.sent + [Command(PutDataCommand(|c|)), Raw(c)]
    {
      var s := SendFTPdataLow(x, c);
      AppendAssoc(x.link.sent, [Command(PutDataCommand(|c|))], [Raw(c)]);
    }
  }

  /** Without a maximum, each round of the loop as written announces an empty chunk and writes nothing else. */
  lemma {:induction false} AsWrittenAnnouncesEmpty(low: (Modem, string) -> Step<bool>, m: Modem, data: string, fuel: nat)
    requires Announces(low) && |data| > 0 && fuel > 0
    ensures var s := LoopAsWritten(low, m, data, 0, fuel).modem.link.sent;
      && m.link.sent < s && s[|m.link.sent|] == Command(PutDataCommand(0))
      && forall i :: |m.link.sent| <= i < |s| ==> s[i] == Command(PutDataCommand(0)) || s[i] == Raw("")
    decreases fuel
  {
    var l := low(m, data[..0]);
    assert data[0..] == data;
    assert |data[..0]| == 0 && data[..0] == "";
    if l.value && fuel > 1 {
      AsWrittenAnnouncesEmpty(low, l.modem, data, fuel - 1);
    }
  }

  lemma EmptyChunkIsClose()
    ensures PutDataCommand(0) == "AT+FTPPUT=2,0"
  {
    assert NatDigits(0) == "0";
  }

  /**
   * Every round of the loop as written without a maximum sends
   * "AT+FTPPUT=2,0", the very command `closeFTPfile` uses to close the
   * file, and never a byte of the data.
   */
  lemma AsWrittenClosesInstead(m: Modem, data: string, fuel: nat)
    requires m.st.ftpMaxLength == 0 && |data| > 0 && fuel > 0
    ensures var s := SendFTPdataAsWritten(m, data, fuel).modem.link.sent;
      && m.link.sent < s && s[|m.link.sent|] == Command("AT+FTPPUT=2,0")
      && forall i :: |m.link.sent| <= i < |s| ==> s[i] == Command("AT+FTPPUT=2,0") || s[i] == Raw("")
  {
    LowStepAnnounces();
    AsWrittenAnnouncesEmpty(LowStep(), m, data, fuel);
    EmptyChunkIsClose();
  }
}
