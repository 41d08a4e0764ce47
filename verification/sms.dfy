/**
 * Sending a text message with `SIMx00::sendSMS` (SIMx00.cpp): network up,
 * text mode, "AT+CMGS" with the number, the text after the "> " prompt
 * ended by Ctrl-Z, and "OK". The modem is switched off afterwards, whatever
 * happened.
 */
module Sms {
  import opened Machine
  import opened Options
  import opened CText
  import opened Transport
  import opened Replies
  import opened Engine
  import opened Device
  import opened Tcp

  /** Ctrl-Z, which ends the text and submits the message. */
  const CtrlZ: char := 26 as char

  /** `AT+CMGS="<telno>"`. */
  function CmgsCommand(telno: string): string
  {
    "AT+CMGS=" + Quoted(telno)
  }

  lemma PromptNulFree()
    ensures NulFree("> ")
  {
  }

  /**
   * The submission: the number, then the text and Ctrl-Z once the prompt
   * came, then "OK". The text goes out only after the prompt; the verdict is
   * the prompt and an "OK" before any "ERROR" in what follows it.
   */
  function Submit(m: Modem, telno: string, text: string): (r: Step<bool>)
    ensures SameState(r.modem, m)
    ensures var p := WaitForPromptChecked("> ", NextReply(m.link));
      && r.modem.link.sent == m.link.sent + [Command(CmgsCommand(telno))] + (if p.value then [Raw(text + [CtrlZ])] else [])
      && (r.value <==> p.value && OkBeforeError(Lines(m.buf, p.rest)))
  {
    PromptNulFree();
    var p := AwaitPrompt(SendCommand(m, CmgsCommand(telno)), "> ");
    if !p.value then Step(false, p.modem)
    else
      WaitForOKIffOkBeforeError(m.buf, p.modem.link.pending);
      AwaitOK(SendRaw(p.modem, text + [CtrlZ]))
  }

  /**
   * The submission as written: `waitForPrompt` always reports success, so
   * the text and Ctrl-Z go out whether or not the prompt came, and the
   * verdict is "OK" before "ERROR" in what follows the prompt wait.
   */
  function SubmitAsWritten(m: Modem, telno: string, text: string): (r: Step<bool>)
    ensures SameState(r.modem, m)
    ensures r.modem.link.sent == m.link.sent + [Command(CmgsCommand(telno)), Raw(text + [CtrlZ])]
    ensures var p := ScanPrompt("> ", 0, NextReply(m.link));
      r.value <==> OkBeforeError(Lines(m.buf, p.rest))
  {
    PromptNulFree();
    var p := AwaitPromptAsWritten(SendCommand(m, CmgsCommand(telno)), "> ");
    if !p.value then Step(false, p.modem)
    else
      assert p.modem.link.pending == ScanPrompt("> ", 0, NextReply(m.link)).rest;
      assert m.link.sent + [Command(CmgsCommand(telno))] + [Raw(text + [CtrlZ])]
        == m.link.sent + [Command(CmgsCommand(telno)), Raw(text + [CtrlZ])];
      WaitForOKIffOkBeforeError(m.buf, p.modem.link.pending);
      AwaitOK(SendRaw(p.modem, text + [CtrlZ]))
  }

  /** Once the prompt has come, the code as written and the checked submission do the same. */
  lemma SubmitAgreesAfterPrompt(m: Modem, telno: string, text: string)
    requires WaitForPromptChecked("> ", NextReply(m.link)).value
    ensures SubmitAsWritten(m, telno, text) == Submit(m, telno, text)
  {
    PromptNulFree();
  }

  /**
   * When the prompt does not come before the deadline, the code as written
   * still writes the text and Ctrl-Z, and reports the message sent on an
   * "OK" that follows; the checked submission writes nothing more and fails.
   */
  lemma TextSentWithoutPrompt(m: Modem, telno: string, text: string, rest: seq<Event>)
    requires m.buf.Allocated? && m.buf.capacity > 2
    requires NextReply(m.link) == [Lapse] + (Line("OK") + rest)
    ensures SubmitAsWritten(m, telno, text).value
    ensures !Submit(m, telno, text).value
    ensures Submit(m, telno, text).modem.link.sent == m.link.sent + [Command(CmgsCommand(telno))]
  {
    PromptNulFree();
    OkLineAccepted(m.buf.capacity, rest);
    WaitForOKIffOkBeforeError(m.buf, Line("OK") + rest);
    assert ScanPrompt("> ", 0, NextReply(m.link)) == PromptScan(false, Line("OK") + rest);
  }

  /** Text mode, then the submission; the submission needs "AT+CMGF=1" accepted. */
  function TextMode(m: Modem, telno: string, text: string): (r: Step<bool>)
    ensures SameState(r.modem, m)
    ensures !OkAt(m, 0) ==> !r.value && r.modem.link.sent == m.link.sent + [Command("AT+CMGF=1")]
  {
    FirstReplyIsOkAt(m, "AT+CMGF=1");
    var f := SendCommandWaitForOK(m, "AT+CMGF=1");
    if !f.value then f else Submit(f.modem, telno, text)
  }

  /**
   * `sendSMS(telno, text)`: `networkOn()`, then text mode and the
   * submission; whatever the outcome the modem is switched off.
   */
  function SendSMS(m: Modem, telno: string, text: string): (r: Step<bool>)
    requires Fits(CmgsCommand(telno), 64)
    ensures !r.modem.st.powered && !r.modem.st.echoOff
    ensures r.modem.buf == m.buf
    ensures r.value ==> NetworkOn(m).value
  {
    var n := NetworkOn(m);
    var s := if n.value then TextMode(n.modem, telno, text) else n;
    Step(s.value, Off(s.modem).modem)
  }

  /** Text mode, then the submission as written. */
  function TextModeAsWritten(m: Modem, telno: string, text: string): (r: Step<bool>)
    ensures SameState(r.modem, m)
    ensures !OkAt(m, 0) ==> !r.value && r.modem.link.sent == m.link.sent + [Command("AT+CMGF=1")]
  {
    FirstReplyIsOkAt(m, "AT+CMGF=1");
    var f := SendCommandWaitForOK(m, "AT+CMGF=1");
    if !f.value then f else SubmitAsWritten(f.modem, telno, text)
  }

  /** As written, text mode then submission succeed exactly when the first reply is "OK" and "OK" follows the prompt wait on the second. */
  lemma TextModeAsWrittenVerdict(m: Modem, telno: string, text: string)
    ensures var p := ScanPrompt("> ", 0, ReplyAt(m.link, 1));
      TextModeAsWritten(m, telno, text).value <==> OkAt(m, 0) && OkBeforeError(Lines(m.buf, p.rest))
  {
    var f := SendCommandWaitForOK(m, "AT+CMGF=1");
    FirstReplyIsOkAt(m, "AT+CMGF=1");
    assert NextReply(f.modem.link) == ReplyAt(m.link, 1);
  }

  /** `sendSMS` as written: the same steps around the submission as written. */
  function SendSMSAsWritten(m: Modem, telno: string, text: string): (r: Step<bool>)
    requires Fits(CmgsCommand(telno), 64)
    ensures !r.modem.st.powered && !r.modem.st.echoOff
    ensures r.modem.buf == m.buf
    ensures r.value ==> NetworkOn(m).value
  {
    var n := NetworkOn(m);
    var s := if n.value then TextModeAsWritten(n.modem, telno, text) else n;
    Step(s.value, Off(s.modem).modem)
  }

  /**
   * As written, a message counts as sent exactly when the network came up,
   * text mode was accepted, and "OK" came after the prompt wait, prompt or no
   * prompt.
   */
  lemma SendSMSAsWrittenVerdict(m: Modem, telno: string, text: string)
    requires Fits(CmgsCommand(telno), 64)
    ensures var n := NetworkOn(m);
      var p := ScanPrompt("> ", 0, ReplyAt(n.modem.link, 1));
      SendSMSAsWritten(m, telno, text).value <==>
        n.value && OkAt(n.modem, 0) && OkBeforeError(Lines(m.buf, p.rest))
  {
    var n := NetworkOn(m);
    if n.value {
      TextModeAsWrittenVerdict(n.modem, telno, text);
    }
  }

  /** When the network does not come up nothing is sent past `networkOn`, and the verdict is false. */
  lemma SendSMSNeedsNetwork(m: Modem, telno: string, text: string)
    requires Fits(CmgsCommand(telno), 64)
    requires !NetworkOn(m).value
    ensures !SendSMS(m, telno, text).value
    ensures SendSMS(m, telno, text).modem.link == NetworkOn(m).modem.link
  {
  }

  /**
   * A message was sent exactly when the network came up, text mode was
   * accepted, the prompt came, and "OK" followed it.
   */
  lemma SendSMSVerdict(m: Modem, telno: string, text: string)
    requires Fits(CmgsCommand(telno), 64)
    ensures var n := NetworkOn(m);
      var p := WaitForPromptChecked("> ", ReplyAt(n.modem.link, 1));
      SendSMS(m, telno, text).value <==>
        n.value && OkAt(n.modem, 0) && p.value && OkBeforeError(Lines(m.buf, p.rest))
  {
    var n := NetworkOn(m);
    if n.value {
      TextModeVerdict(n.modem, telno, text);
    }
  }

  /** Text mode then submission succeed exactly when the first reply is "OK" and the second brings the prompt and "OK". */
  lemma TextModeVerdict(m: Modem, telno: string, text: string)
    ensures var p := WaitForPromptChecked("> ", ReplyAt(m.link, 1));
      TextMode(m, telno, text).value <==> OkAt(m, 0) && p.value && OkBeforeError(Lines(m.buf, p.rest))
  {
    var f := SendCommandWaitForOK(m, "AT+CMGF=1");
    FirstReplyIsOkAt(m, "AT+CMGF=1");
    assert NextReply(f.modem.link) == ReplyAt(m.link, 1);
  }

  /** What a successful `sendSMS` wrote after `networkOn`. */
  lemma SendSMSSends(m: Modem, telno: string, text: string)
    requires Fits(CmgsCommand(telno), 64)
    requires SendSMS(m, telno, text).value
    ensures SendSMS(m, telno, text).modem.link.sent == NetworkOn(m).modem.link.sent
      + [Command("AT+CMGF=1"), Command(CmgsCommand(telno)), Raw(text + [CtrlZ])]
  {
    TextModeSends(NetworkOn(m).modem, telno, text);
  }

  lemma TextModeSends(m: Modem, telno: string, text: string)
    requires TextMode(m, telno, text).value
    ensures TextMode(m, telno, text).modem.link.sent == m.link.sent
      + [Command("AT+CMGF=1"), Command(CmgsCommand(telno)), Raw(text + [CtrlZ])]
  {
    var f := SendCommandWaitForOK(m, "AT+CMGF=1");
    ThreeAppended(m.link.sent, Command("AT+CMGF=1"), Command(CmgsCommand(telno)), Raw(text + [CtrlZ]));
  }

  /** With the prompt first and an "OK" line after it, the submission succeeds. */
  lemma SubmitAfterPrompt(m: Modem, telno: string, text: string, rest: seq<Event>)
    requires m.buf.Allocated? && m.buf.capacity > 2
    requires NextReply(m.link) == Bytes("> ") + (Line("OK") + rest)
    ensures Submit(m, telno, text).value
  {
    PromptPlain();
    PromptAfterLineFeedIsSeen("> ", 0, Line("OK") + rest);
    OkLineAccepted(m.buf.capacity, rest);
  }
}
