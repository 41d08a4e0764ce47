# SIMCOM modem library core in Dafny

This project models the core of an Arduino library that drives SIMCOM GSM/GPRS
modems (SIM900, SIM800) over a serial line with AT commands. It covers three parts:

- **The AT engine** (`SIMCOM_Modem`): reading reply lines and raw bytes, and matching
  replies ("OK"/"ERROR", a prefix, one of several lines, the `> ` prompt).
  - It also covers framing commands, extracting integer and string values, the
    wrap-safe deadline comparison and the signal-quality bookkeeping.
- **The SIMx00 flows** (`SIMx00`):
  - power-up and the network prolog (echo off, signal quality, registration, product
    detection, GPRS attach);
  - TCP sessions, FTP upload, HTTP GET/POST and SMS;
  - the reply parsers those flows use (`+CSQ:`, `+CREG:`, `STATE:`, `+FTPPUT:`,
    `+HTTPACTION:`, `+HTTPREAD:`).
- **The CCLK date/time codec** (`SIMCOMDateTime`):
  - the timestamp constructor;
  - the Y2K and Unix epochs;
  - the `yy/MM/dd,hh:mm:ss±zz` parser and formatter.

How the model stands in for the hardware:

- **The serial stream** is a sequence of events. `Byte(c)` is a received byte. `Lapse`
  is a silence long enough for the pending deadline to pass. The end of the sequence is
  endless silence.
- **Replies** are scripted per command (`Engine.Link`). `sendCommand` flushes what is
  left unread, and the next scripted reply becomes the pending input. Raw writes (`+++`,
  payloads, SMS text) go out without switching replies.
- **Everything the controller writes** is logged as `Command(text)` or `Raw(bytes)`.
  `Engine.Wire` gives the bytes on the wire.
- **`millis()`** is a list of clock readings carried by the link. Delays, the GPIO power
  pins and diagnostic printing are left out.
- **String arguments** (APN, user, password, server, URL, file names, SMS text,
  commands) are `string`s that stand for NUL-terminated C strings, so they are taken
  to hold no NUL. Received bytes may hold one: the C-string readers (`CText.CStr`) stop
  there.
- **The target** is a 32-bit Arduino core: `int`, `long` and `size_t` are 32 bits wide.
  Every `uint8_t`/`int8_t`/`uint16_t`/`uint32_t` store wraps explicitly (`Machine.ToU8`
  and friends).

Modules follow the source:

- `Machine` (integer widths, `isTimedOut`) and `CText` (C-string functions, `strtoul`,
  `itoa`);
- `Transport` (`readLine`, `readBytes`), `Replies` (the wait functions) and `Engine`
  (the modem object, command framing, value extraction);
- `Device` (power, echo, signal, registration, product, prolog);
- `Tcp`, `Ftp`, `Http` and `Sms` (the session flows);
- `Datetime`;
- `Options` (the `Option` type).

## Model

| member | source | states |
|---|---|---|
| Machine.TimedOutIffDistanceBelowHalf | src/SIMCOM_Modem.h:182 | `isTimedOut(ts)` holds exactly when `millis() - ts`, taken modulo 2^32, is below 2^31, i.e. reads as a non-negative `long` |
| Machine.IsTimedOut | src/SIMCOM_Modem.h:182 | the comparison itself; its contract is `Machine.TimedOutIffDistanceBelowHalf` |
| Machine.TimedOutFromDeadline | src/SIMCOM_Modem.h:182 | from `ts` on, for 2^31 - 1 ms, the deadline reads as passed, even when `millis()` wraps in between |
| Machine.NotTimedOutBeforeDeadline | src/SIMCOM_Modem.h:182 | for up to 2^31 ms before `ts` the deadline reads as not reached, even across the wrap |
| Machine.DeadlineIsWrapSafe | src/SIMCOM_Modem.h:182 | a deadline `millis() + budget` with a budget below 2^31 reads as passed exactly when `budget` ms have elapsed since it was set, wherever the clock wraps |
| Transport.ReadLine | src/SIMCOM_Modem.cpp:154-206 | a line comes back only with an allocated buffer, holds at most capacity - 1 bytes and consumes input; with no buffer the result is -1 and nothing is read |
| Transport.Collect | src/SIMCOM_Modem.cpp:154-206 | the byte loop of `readLine`: it leaves a suffix of its input, and a line it returns fits the room left and has consumed at least one event |
| Transport.SameLineForEveryTerminator | src/SIMCOM_Modem.cpp:169-189 | `X\r\n`, `X\n` and `X\r` followed by anything but LF give the same line; the byte after a lone CR is left unread for the next line |
| Transport.ReadsWholeLine | src/SIMCOM_Modem.cpp:154-206 | a line shorter than the buffer is returned whole and reading stops right after its CR LF |
| Transport.LongLineIsTruncated | src/SIMCOM_Modem.cpp:154-206 | a line longer than the buffer keeps its first capacity - 1 bytes; the excess is read and dropped, and the next line starts after the terminator |
| Transport.UnterminatedTimesOut | src/SIMCOM_Modem.cpp:154-206 | text without a terminator before the deadline gives -1, and no partial line is exposed |
| Transport.ReadBytes | src/SIMCOM_Modem.cpp:218-239 | the return value is the number of requested bytes still unread; 0 means exactly `len` bytes were consumed |
| Transport.ReadBytesCounts | src/SIMCOM_Modem.cpp:218-239 | the unread count is `len` minus the bytes that arrived, and a NUL is written only when buffer room is left after them |
| Transport.ReadBytesStores | src/SIMCOM_Modem.cpp:218-239 | the bytes kept are the first min(len, arrived, buflen) bytes received |
| Replies.WaitForOK | src/SIMCOM_Modem.cpp:241-259 | the wait leaves a suffix of its input, and success consumes at least one event |
| Replies.WaitForOKIffOkBeforeError | src/SIMCOM_Modem.cpp:241-259 | `waitForOK` succeeds exactly when, among the lines that arrive in time, a line equal to "OK" comes before any line equal to "ERROR" |
| Replies.OkLineAccepted | src/SIMCOM_Modem.cpp:250-252 | a reply line "OK" that fits the buffer is accepted, with what follows it left unread |
| Replies.ErrorLineRejected | src/SIMCOM_Modem.cpp:253-255 | a reply line "ERROR" is a failure whatever follows |
| Replies.WaitForOKSkipsBlankLine | src/SIMCOM_Modem.cpp:241-259 | an empty line in front of the reply changes nothing |
| Replies.WaitForMessage | src/SIMCOM_Modem.cpp:261-275 | a returned line is non-empty, fits the buffer and starts (as a C string) with `msg` |
| Replies.WaitForMessageIsFirstMatch | src/SIMCOM_Modem.cpp:261-275 | the line returned is the first arriving line that starts with `msg`; the wait times out exactly when no line that arrives in time does |
| Replies.FirstLineMatches | src/SIMCOM_Modem.cpp:270 | a first reply line that starts with `msg` is returned at once |
| Replies.MatchIndex | src/SIMCOM_Modem.cpp:303-307 | the inner loop finds the lowest message index from `from` on whose text equals the line under `strcmp`, or -1 when none does |
| Replies.WaitForMessages | src/SIMCOM_Modem.cpp:292-311 | the result is -1 or a valid message index |
| Replies.WaitForMessagesIsFirstHit | src/SIMCOM_Modem.cpp:292-311 | -1 exactly when no line that arrives in time equals a message; otherwise the lowest index equal to the first line that equals any |
| Replies.FirstLineHits | src/SIMCOM_Modem.cpp:292-311 | a first reply line equal to one of the messages is answered at once with the lowest such index |
| Replies.ScanPromptSound | src/SIMCOM_Modem.cpp:318-354 | when the matcher reports the prompt, the prompt ends the text received, CRs left out |
| Replies.ScanPromptReadsRest | src/SIMCOM_Modem.cpp:318-354 | with k prompt bytes already matched, the remaining bytes of the prompt complete the match and nothing after them is consumed |
| Replies.PromptAfterLineFeedIsSeen | src/SIMCOM_Modem.cpp:318-354 | a prompt at the start of the reply is recognised by a wait that reports what it saw; after an LF the prompt is recognised whatever had been matched before; nothing after it is consumed |
| Replies.DoubledPromptIsMissed | src/SIMCOM_Modem.cpp:318-354 | a mismatching byte is not compared again, so "> " is not found in ">> " although it ends it |
| Replies.WaitForPrompt | src/SIMCOM_Modem.cpp:318-354 | `waitForPrompt` reports true whatever the scan found, and leaves the input where the scan stopped |
| Replies.ScanPrompt | src/SIMCOM_Modem.cpp:318-354 | the prompt matcher leaves a suffix of its input; `Replies.ScanPromptSound` and `Replies.ScanPromptReadsRest` state what it recognises |
| Replies.PromptTimeoutReportedAsSuccess | src/SIMCOM_Modem.cpp:353 | with silence until the deadline the prompt was not seen, yet `waitForPrompt` returns true |
| Replies.CheckedPromptSound | src/SIMCOM_Modem.cpp:318-354 | the corrected wait reports success only when the text it consumed, CRs left out, ends with the prompt |
| Replies.WaitForPromptChecked | src/SIMCOM_Modem.cpp:318-354 | the corrected wait leaves a suffix of its input; `Replies.CheckedPromptSound` states when it succeeds |
| Engine.SendCommand | src/SIMCOM_Modem.cpp:404-409 | the command is logged, unread input is discarded and the next scripted reply becomes pending; buffer, settings and clock are unchanged |
| Engine.WireOfSend | src/SIMCOM_Modem.cpp:398-409 | on the wire a command is its text followed by exactly one CR; raw bytes go out as they are |
| Engine.SendCommandWaitForOK | src/SIMCOM_Modem.cpp:424-428 | the verdict is whether the command's reply holds "OK" before "ERROR"; exactly one command is sent and one reply used |
| Engine.DefaultOkDeadline | src/SIMCOM_Modem.h:187 | the default `waitForOK` deadline passes exactly 4000 ms after it was set, across the clock wrap |
| Engine.GetIntValue | src/SIMCOM_Modem.cpp:454-471 | `*value` is written exactly when the reply line arrived, with `strtoul(.., 0)` of the text after the prefix cast to `int`; success needs a converted number, then the verdict of `waitForOK` |
| Engine.IntFromReply | src/SIMCOM_Modem.cpp:460-470 | the second phase alone: `*value` written iff a line was found, false without digits, otherwise the `waitForOK` verdict |
| Engine.GetIntValueReadsNumber | src/SIMCOM_Modem.cpp:454-471 | round trip: a reply "prefix, blanks, decimal n" then "OK", for any n below 2^31, gives true with `*value == n` |
| Engine.GetStrValue | src/SIMCOM_Modem.cpp:510-526 | a copy exists iff the reply line arrived; it is the text after the prefix with leading blanks skipped, cut to size - 1 bytes, NUL-free |
| Engine.StrFromReply | src/SIMCOM_Modem.cpp:517-521 | the copy is `strncpy` of the blank-skipped text into `size - 1` bytes, not starting with a blank |
| Engine.GetStrValueOK | src/SIMCOM_Modem.cpp:510-526 | `getStrValue` returns true exactly when the reply line arrived and the `waitForOK` after it succeeded |
| Engine.GetStrValueReadsText | src/SIMCOM_Modem.cpp:510-526 | round trip: a reply "prefix, blanks, text" then "OK" gives back the text and true |
| Engine.GetLineValue | src/SIMCOM_Modem.cpp:563-583 | the overload without prefix copies the first non-empty line, cut to size - 1 bytes |
| Engine.GetLineValueOK | src/SIMCOM_Modem.cpp:563-583 | it returns true exactly when a non-empty line arrived and the `waitForOK` after it succeeded |
| Engine.RssiFromCsq | src/SIMx00.cpp:114 | CSQ 99 gives 0 ("unknown"); any other value gives -113 + 2 * raw stored in an `int8_t`, exact for 0..31 (always negative) and for every raw in -7..120, congruent modulo 256 otherwise |
| Engine.SetMinSignalQuality | src/SIMCOM_Modem.cpp:770-779 | a negative q is stored as dBm; q >= 0 becomes -113 + 2 * q in `int` arithmetic, wrapping past 2^31; nothing else changes |
| Engine.LastRssi | src/SIMCOM_Modem.h:80 | `getLastRSSI` returns the stored `int8_t` as a `uint8_t`: negative values come back 256 higher |
| Engine.LastRssiOfCsq18 | src/SIMCOM_Modem.h:80 | CSQ 18 is stored as -77 dBm and reads back as 179 |
| CText.StrNEqIsPrefix | src/SIMCOM_Modem.cpp:270 | `strncmp(line, msg, strlen(msg)) == 0` holds exactly when `msg` starts the C string in the line |
| CText.Strtoul | src/SIMCOM_Modem.cpp:462 | the end pointer never passes the text, and a text without a number converts to 0 |
| CText.NatDigitsValue | src/SIMx00.cpp:319 | the decimal text `itoa` writes for n reads back as n |
| CText.SkipSpaces | src/SIMx00.cpp:1855-1861 | `skipWhiteSpace` steps over the leading blanks (only `' '`) and stops at the first other character |
| CText.SkipSpacesPrefix | src/SIMx00.cpp:1855-1861 | blanks in front of non-blank text are skipped the same way whatever follows |
| CText.CopyTruncated | src/SIMCOM_Modem.cpp:520-521 | `strncpy(dst, src, size - 1)` with a forced NUL keeps a prefix of the source of at most size - 1 bytes, all of it when it fits |
| CText.StrtoulReadsItoa | src/SIMCOM_Modem.cpp:462 | `strtoul` in base 0 or 10 reads back every decimal numeral below 2^32 and consumes exactly its digits |
| CText.StrtoulNoDigits | src/SIMCOM_Modem.cpp:462-464 | without a digit nothing is converted and the end pointer does not move |
| CText.StrEqLiteral | src/SIMCOM_Modem.cpp:250-255 | `strcmp(line, lit) == 0` holds exactly when the C string in the line is the literal |
| CText.StrtoulSkipsBlanks | src/SIMCOM_Modem.cpp:462 | leading blanks in front of a number change neither its value nor whether it converts; the end pointer moves past them |
| CText.Find | src/SIMx00.cpp:168 | `strchr` finds the first occurrence of the character, and none exactly when it does not occur |
| Device.Init | src/SIMx00.cpp:32-57 | the buffer exists iff `malloc` succeeded and has the requested size; flags clear, product unknown, RSSI 0, minimum quality -93 dBm |
| Device.DefaultBufferKeeps63 | src/SIMCOM_Modem.h:33 | with the default 64-byte buffer a line keeps at most 63 characters |
| Device.NoBufferNoOK | src/SIMCOM_Modem.cpp:156-158 | without a line buffer no reply is read, so every command fails |
| Device.IsAlive | src/SIMx00.cpp:59-70 | `isAlive` succeeds exactly when one of the next three replies holds "OK" before "ERROR"; settings kept |
| Device.RetryOKSends | src/SIMx00.cpp:59-70 | a retry loop sends the command once per try, n times when all fail, and stops right after the first accepted reply |
| Device.RetryOKStopsAtFirstOk | src/SIMx00.cpp:59-70 | a retry loop that succeeds stops at the first accepted reply: every reply before it was rejected |
| Device.AllOKVerdict | src/SIMx00.cpp:1610-1642 | a run of commands that each must be answered "OK" succeeds exactly when every one of their replies holds "OK" before "ERROR" |
| Device.On | src/SIMCOM_Modem.cpp:81-106 | `on()` leaves the modem powered, the buffer and the clock unchanged |
| Device.OnProbes30 | src/SIMCOM_Modem.cpp:81-106 | `on()` is thirty "AT" probes in a row and succeeds exactly when one is answered "OK" |
| Device.Off | src/SIMCOM_Modem.cpp:109-119 | `off()` reports true, clears the powered and echo flags and sends nothing |
| Device.DisableCIURC | src/SIMx00.cpp:1820-1824 | "AT+CIURC=0" is sent and its verdict ignored; buffer, settings and clock are kept |
| Device.SwitchEchoOff | src/SIMx00.cpp:72-85 | the echo flag ends set exactly when it was set or "ATE0" was answered "OK" |
| Device.SwitchEchoOffSends | src/SIMx00.cpp:72-85 | nothing is sent when echo is off; else "ATE0", and "AT+CIURC=0" only after an "OK" |
| Device.SwitchEchoOffIdempotent | src/SIMx00.cpp:72-85 | once echo is off a second call sends nothing and changes nothing |
| Device.OffForgetsEcho | src/SIMCOM_Modem.cpp:116 | after `off()` the next `switchEchoOff` sends "ATE0" again |
| Device.PollVerdict | src/SIMx00.cpp:124-184 | a deadline loop returns a result exactly when some round, before the deadline, finds after every earlier round asked for another; the result is what that round found |
| Device.BerOf | src/SIMx00.cpp:110-116 | the BER table lookup: classes 0..7 index the table, 99 and anything outside give 0 |
| Device.GetRssiAndBer | src/SIMx00.cpp:108-122 | a reading exists exactly when "AT+CSQ" gave a number; its RSSI is the dBm of that number and its BER always 49, the first table entry |
| Device.CsqReadsRssi | src/SIMx00.cpp:108-122 | round trip: "+CSQ: n,ber" then "OK" gives -113 + 2 * n dBm for every n in 0..31 |
| Device.CsqSecondsCounts | src/SIMx00.cpp:141 | below 256 s the stored `uint8_t` time is the elapsed whole seconds |
| Device.CsqRound | src/SIMx00.cpp:135-143 | a poll finds exactly when it reads a known RSSI that is nonzero and at least the minimum quality, finds that RSSI, and never gives up |
| Device.WaitForSignalQuality | src/SIMx00.cpp:124-148 | success records an acceptable RSSI; failure records 0; only the RSSI and the time change |
| Device.SignalVerdict | src/SIMx00.cpp:124-148 | success exactly when, before the 30 s deadline, some poll reads an acceptable RSSI after unacceptable ones, and that RSSI is stored |
| Device.SignalOnFirstPoll | src/SIMx00.cpp:124-148 | an acceptable reading on the first poll within the budget ends the wait with success, that RSSI stored and the elapsed seconds recorded |
| Device.SignalTimeout | src/SIMx00.cpp:124-148 | a budget already gone at the first loop condition leaves the RSSI unknown and sends nothing |
| Device.CregValueReadsStatus | src/SIMx00.cpp:166-173 | the status is the number after the first comma of the `+CREG:` line, 0 without a comma |
| Device.CregPoll | src/SIMx00.cpp:163-175 | one "AT+CREG?" poll reports the status of its `+CREG:` line, 0 without one |
| Device.CregRound | src/SIMx00.cpp:163-181 | a round finds on status 1 or 5; otherwise it goes on exactly when the following `isAlive` succeeds |
| Device.WaitForCREG | src/SIMx00.cpp:150-184 | the wait keeps settings and buffer |
| Device.CregVerdict | src/SIMx00.cpp:150-184 | success exactly when, before the 120 s deadline, a poll reports 1 or 5 and every earlier poll reported another status and was followed by a successful `isAlive` |
| Device.RegisteredOnFirstPoll | src/SIMx00.cpp:150-184 | "+CREG: n,1" or "+CREG: n,5" on the first poll within the budget ends the wait with success |
| Device.SetSkipCGATT | src/SIMx00.h:66 | sets the skip flag to the argument and marks it as chosen by the user; link, buffer, product, echo and power flags are unchanged |
| Device.Classify | src/SIMx00.cpp:1846-1851 | SIM900 exactly when the banner starts with "SIM900"; SIM800 exactly when it starts with "SIM800" and not "SIM900" |
| Device.ClassifyBanners | src/SIMx00.cpp:1842-1853 | banners such as "SIM900 R11.0" and "SIM800 R11.08" name their product, any other six-character model none |
| Device.GetPII | src/SIMx00.cpp:1835-1840 | the banner copy is shorter than the buffer; the echo is switched off first |
| Device.SetProductId | src/SIMx00.cpp:1842-1853 | the product changes only to a known one; everything else is as after `switchEchoOff` |
| Device.DetectProduct | src/SIMx00.cpp:209-214 | detection changes only echo, product and skip flag; the skip flag changes only to on, and only for a SIM800 |
| Device.CgattPolicy | src/SIMx00.cpp:209-214 | detection runs only when the user never set the skip flag and the product is unknown; it turns skipping on only for a SIM800 |
| Device.AttachProlog | src/SIMx00.cpp:209-223 | only echo, product and skip flag may change, and none of them when the user set the flag or the product is known; the flag only turns on, for a SIM800; with skipping on, the attach step succeeds without "AT+CGATT=1" |
| Device.AttachPrologAttaches | src/SIMx00.cpp:218-220 | unless CGATT is skipped, the last command of the prolog is "AT+CGATT=1" |
| Device.ConnectProlog | src/SIMx00.cpp:192-224 | the prolog keeps the buffer, the power flag and the transparent-mode flag; success needs the signal wait and the registration wait to succeed, and leaves an acceptable RSSI stored |
| Device.NetworkOn | src/SIMx00.cpp:90-104 | after `networkOn` the modem is powered; success implies a known RSSI |
| Device.NetworkOnNeedsOn | src/SIMx00.cpp:90-104 | when `on()` fails, `networkOn` stops right there |
| Device.RetryOKVerdict | src/SIMx00.cpp:59-70 | a command retried n times succeeds exactly when one of the next n replies holds "OK" before "ERROR" |
| Device.RetryOK | src/SIMx00.cpp:59-70 | the retry loop keeps buffer, settings and clock; `Device.RetryOKVerdict` states its verdict |
| Device.AllOK | src/SIMx00.cpp:1610-1642 | a run of "OK" commands keeps buffer, settings and clock; `Device.AllOKVerdict` states its verdict |
| Device.CregValue | src/SIMx00.cpp:166-173 | the `<stat>` parse; its contract is `Device.CregValueReadsStatus` |
| Device.AttachPrologVerdict | src/SIMx00.cpp:209-223 | the end of the prolog succeeds exactly when CGATT is skipped (set by the user, or a SIM800 detected) or "AT+CGATT=1" is answered "OK" |
| Device.ConnectPrologVerdict | src/SIMx00.cpp:192-224 | the prolog succeeds exactly when the signal wait finds an acceptable RSSI within 30 s, registration is then reported within 120 s, and CGATT is skipped or accepted |
| Tcp.CsttFieldsRecoverable | src/SIMx00.cpp:269-280 | the CSTT command determines APN, user and password when they contain no quote; a NULL user or password is the empty field |
| Tcp.ConnectRepliesDistinct | src/SIMx00.cpp:252-258 | under `strcmp`, "CONNECT OK", "CONNECT" and "CONNECT FAIL" each match only their own entry, at indices 0, 1 and 2 |
| Tcp.ConnectReplyIndex | src/SIMx00.cpp:252-258 | each CIPSTART outcome line is reported at its own index, and the index is below 2 exactly when the line is not "CONNECT FAIL" |
| Tcp.Shutdown | src/SIMx00.cpp:296-301 | "AT+CIPSHUT" succeeds exactly when a line starting "SHUT OK" arrives in time |
| Tcp.Connect | src/SIMx00.cpp:319-336 | CIPSTART is sent once, and the connection is taken exactly when it is answered "OK" and the first outcome line is "CONNECT OK" or "CONNECT" (index below 2), not "CONNECT FAIL" or none |
| Tcp.BothOK | src/SIMx00.cpp:303-312 | the transparent-mode pair succeeds exactly when both replies hold "OK" |
| Tcp.StartSession | src/SIMx00.cpp:269-335 | the session part keeps buffer, settings and clock |
| Tcp.StartSessionSends | src/SIMx00.cpp:269-335 | a session that starts has sent CSTT, CIICR, CIPSHUT, the transparent-mode pair when asked, then CIPSTART, and nothing else |
| Tcp.StartSessionNeedsBringup | src/SIMx00.cpp:281-287 | a session that starts had CSTT and CIICR both accepted |
| Tcp.OpenOnline | src/SIMx00.cpp:265-352 | power stays on only after success; the transparent-mode flag takes the argument on success and is kept otherwise |
| Tcp.OpenOnlineSends | src/SIMx00.cpp:265-352 | a successful open sent the prolog and then exactly the session commands |
| Tcp.OpenTCP | src/SIMx00.cpp:246-353 | the modem is powered afterwards exactly when the open succeeded or `on()` itself failed |
| Tcp.OpenTCPNeedsOn | src/SIMx00.cpp:261-263 | when `on()` fails, `openTCP` returns false with nothing sent beyond the probes and no `off()` |
| Tcp.OpenTCPSends | src/SIMx00.cpp:246-353 | a successful open ends with the session commands built from the arguments, right after the prolog |
| Tcp.CloseTCP | src/SIMx00.cpp:355-376 | "+++" goes out first in transparent mode, then "AT+CIPSHUT"; the modem is switched off only when asked |
| Tcp.CloseTCPDefault | src/SIMx00.h:109 | `closeTCP()` without an argument leaves the modem off |
| Tcp.StateOf | src/SIMx00.cpp:410-411 | the state reported holds no NUL and does not start with a blank |
| Tcp.CipStatus | src/SIMx00.cpp:394-411 | a state is reported only after "AT+CIPSTATUS" was answered "OK"; exactly that command is sent and exactly one scripted reply is used |
| Tcp.CipStatusReadsState | src/SIMx00.cpp:394-411 | "OK" then "STATE: <state>" gives back the state |
| Tcp.IsTCPConnected | src/SIMx00.cpp:378-431 | true only when powered; outside transparent mode exactly when the state is "CONNECT OK"; in transparent mode only when "+++" was answered "OK" and "ATO0" was the last command sent |
| Tcp.ConnectedIffConnectOk | src/SIMx00.cpp:378-431 | for a status reply "OK", "STATE: <state>", connected iff the state is "CONNECT OK" |
| Tcp.ConfirmState | src/SIMx00.cpp:398-425 | connected exactly when the state is "CONNECT OK" and, when data mode is to be resumed, "ATO0" is answered "CONNECT"; "ATO0" is sent exactly when resuming a "CONNECT OK" link |
| Tcp.ResumeData | src/SIMx00.cpp:417-424 | "ATO0" is sent, and the result is whether the first line of its reply starts with "CONNECT" |
| Tcp.EscapeAccepted | src/SIMx00.cpp:388-395 | in transparent mode "+++" answered by "OK" succeeds, consumes that line and records "+++" as raw bytes |
| Tcp.EscapeConfirms | src/SIMx00.cpp:388-425 | in transparent mode, once "+++" is answered "OK", the verdict is that of the state check that resumes data mode, on the modem with that "OK" consumed |
| Tcp.ResumedIffConnectOk | src/SIMx00.cpp:398-425 | with the status reply "OK", "STATE: <state>" and "CONNECT" answering "ATO0", the resuming state check succeeds iff the state is "CONNECT OK", and sends "ATO0" exactly then |
| Tcp.ResumeConnects | src/SIMx00.cpp:417-424 | a reply line "CONNECT" to "ATO0" resumes data mode |
| Tcp.TransparentConnectedIffConnectOk | src/SIMx00.cpp:378-431 | in transparent mode, with "+++" answered "OK", the status reply "OK", "STATE: <state>" and "CONNECT" to "ATO0": connected iff the state is "CONNECT OK", and "ATO0" is sent after "+++" and "AT+CIPSTATUS" exactly then |
| Tcp.SendDataTCP | src/SIMx00.cpp:436-466 | the corrected flow: payload written only after the prompt came; success iff prompt and then "SEND OK" |
| Tcp.SendDataTCPAsWritten | src/SIMx00.cpp:436-466 | the code as written: the payload always follows CIPSEND; success iff "SEND OK" arrives after wherever the prompt scan stopped |
| Tcp.SendDataAgreesAfterPrompt | src/SIMx00.cpp:446-458 | once the prompt has come, the code as written and the corrected flow agree |
| Tcp.PayloadSentWithoutPrompt | src/SIMCOM_Modem.cpp:353 | with silence instead of the prompt the code as written still sends the payload and reports success on "SEND OK"; the corrected flow sends nothing and fails |
| Tcp.SendDataAfterPrompt | src/SIMx00.cpp:436-466 | "> " then "SEND OK" make `sendDataTCP` succeed |
| Tcp.ReceiveDataTCP | src/SIMx00.cpp:474-494 | complete exactly when all requested bytes arrive before the silence; the data are the first min(len, arrived) of them |
| Tcp.ReceiveDataTakesWhatArrives | src/SIMx00.cpp:474-494 | requested bytes that arrive are returned whole and nothing after them is read |
| Tcp.ReceiveLineTCP | src/SIMx00.cpp:499-515 | a line is returned only when it fits the buffer |
| Tcp.ReceiveLineTCPReadsLine | src/SIMx00.cpp:499-515 | a whole line is returned as sent; a line cut off by the deadline gives nothing |
| Ftp.BearerSettings | src/SIMx00.cpp:1605-1661 | two to four settings: connection type and APN, then user and password when given |
| Ftp.BearerSettingsWithoutCredentials | src/SIMx00.cpp:1624-1640 | a NULL and an empty user or password are both left out |
| Ftp.BearerSettingsWithCredentials | src/SIMx00.cpp:1605-1661 | with both credentials: CONTYPE, APN, USER, PWD in that order |
| Ftp.SetBearerParms | src/SIMx00.cpp:1605-1661 | the bearer set-up keeps buffer, settings and clock |
| Ftp.SetBearerParmsVerdict | src/SIMx00.cpp:1605-1661 | success exactly when every setting is accepted, "AT+SAPBR=1,1" is accepted within five tries, and the query after the first accepted try is accepted |
| Ftp.BearerWithVerdict | src/SIMx00.cpp:1605-1661 | the bearer set-up succeeds exactly when every setting is accepted and the bearer opens within five tries, the query after it accepted |
| Ftp.FtpOnline | src/SIMx00.cpp:526-580 | power stays on only after a successful login |
| Ftp.OpenFTP | src/SIMx00.cpp:526-580 | the modem is powered afterwards exactly when the open succeeded or `on()` failed |
| Ftp.OpenFTPLogsIn | src/SIMx00.cpp:526-580 | an open session sent the whole login (profile, server, user, password) right after the bearer set-up |
| Ftp.FtpOnlineLogsIn | src/SIMx00.cpp:538-571 | a successful online phase sent the login commands right after the bearer set-up |
| Ftp.CloseFTP | src/SIMx00.cpp:582-586 | `closeFTP` switches the modem off, sends nothing and always reports success |
| Ftp.SessionMaxReads | src/SIMx00.cpp:630-643 | after the prefix, "1,1,<n>" gives the maximum n |
| Ftp.PutMaxReadsLength | src/SIMx00.cpp:626-643 | round trip: "+FTPPUT:", blanks, "1,1,<n>" announces the maximum n |
| Ftp.PutMaxRejectsError | src/SIMx00.cpp:630-640 | a reply whose second field is not "1", such as "+FTPPUT:1,61", announces nothing |
| Ftp.PutMax | src/SIMx00.cpp:626-643 | the `+FTPPUT:1,1,<n>` parse; its contracts are `Ftp.PutMaxReadsLength` and `Ftp.PutMaxRejectsError` |
| Ftp.NetErrorRejected | src/SIMx00.cpp:619 | the net-error reply "+FTPPUT:1,61" announces no maximum |
| Ftp.PutRound | src/SIMx00.cpp:600-649 | one round of the session request keeps buffer, settings and clock |
| Ftp.OpenFTPfile | src/SIMx00.cpp:591-655 | only the announced maximum changes, and only on success |
| Ftp.OpenFTPfileFirstRound | src/SIMx00.cpp:591-655 | name and path accepted and "+FTPPUT:1,1,<n>" give an open file with maximum n |
| Ftp.FileOpensOnFound | src/SIMx00.cpp:591-655 | once a round finds n, the file is open with maximum n |
| Ftp.PutRoundFinds | src/SIMx00.cpp:600-649 | "OK" then "+FTPPUT:1,1,<n>" make a round find n |
| Ftp.PutRoundGivesUp | src/SIMx00.cpp:630-640 | an error reply ends the five-round loop at once: no second "AT+FTPPUT=1" |
| Ftp.CloseFTPfile | src/SIMx00.cpp:657-682 | the verdict is the "OK" to "AT+FTPPUT=2,0" alone; the missing `+FTPPUT:` acknowledgement is tolerated |
| Ftp.SendFTPdataLow | src/SIMx00.cpp:690-734 | the chunk is written only after the `+FTPPUT:` answer to its announcement; success exactly when that answer came and the "OK" after the chunk came before "ERROR" |
| Ftp.LowSends | src/SIMx00.cpp:690-734 | a successful chunk upload sent the announcement and then the chunk |
| Ftp.ChunksPartition | src/SIMx00.cpp:792-802 | the chunks concatenate to the data; none is empty or longer than the maximum; all but the last are full |
| Ftp.ChunksOf3000 | src/SIMx00.cpp:792-802 | 3000 bytes with a maximum of 1360 go out as 1360, 1360 and 280 bytes |
| Ftp.Chunks | src/SIMx00.cpp:792-802 | no more chunks than bytes, and no chunk exactly when there are no data; `Ftp.ChunksPartition` states the partition |
| Ftp.SendChunks | src/SIMx00.cpp:792-802 | with a chunk upload that keeps state, the loop keeps buffer, settings and clock; `Ftp.SendChunksSends` states what it sends |
| Ftp.SendChunksSends | src/SIMx00.cpp:792-802 | a successful loop announced and wrote every chunk, in order |
| Ftp.SendFTPdata | src/SIMx00.cpp:788-804 | the corrected upload keeps buffer, settings and clock; no data is success with nothing sent, a zero maximum with data is failure with nothing sent |
| Ftp.SendFTPdataSends | src/SIMx00.cpp:788-804 | a successful upload wrote the data chunk by chunk, none longer than the announced maximum |
| Ftp.AsWrittenAgrees | src/SIMx00.cpp:788-804 | with a positive maximum the loop as written ends within `size` rounds with the corrected verdict |
| Ftp.AsWrittenNeverSucceeds | src/SIMx00.cpp:792-802 | with maximum 0 and data to send the loop as written never reports success, however long it runs |
| Ftp.SendFTPdataAsWritten | src/SIMx00.cpp:788-804 | the loop as written keeps buffer, settings and clock for any bound; `Ftp.AsWrittenAgrees` and `Ftp.AsWrittenNeverSucceeds` state its verdict |
| Ftp.EmptyChunkIsClose | src/SIMx00.cpp:698-699 | the announcement of an empty chunk is "AT+FTPPUT=2,0", the close command |
| Ftp.AsWrittenClosesInstead | src/SIMx00.cpp:792-802 | with maximum 0 the loop as written first sends "AT+FTPPUT=2,0", the close command, and afterwards only that command and empty writes |
| Http.SessionParams | src/SIMx00.cpp:1446-1494 | one URL setting, plus one each for a non-empty content type, non-empty user data and the redirect switch when asked for |
| Http.SessionParamsOrder | src/SIMx00.cpp:1446-1494 | the URL comes first, the redirect switch last, and only the URL when nothing else is given |
| Http.SetHTTPParamsSession | src/SIMx00.cpp:1446-1494 | success exactly when every parameter command is accepted |
| Http.StatusCodeReads | src/SIMx00.cpp:1420-1423 | the status is the number after any two characters, truncated to `uint16_t` |
| Http.StatusCodeNeedsDigits | src/SIMx00.cpp:1423-1426 | without digits after the two characters there is no status |
| Http.StatusCode | src/SIMx00.cpp:1420-1426 | the corrected status parse; its contracts are `Http.StatusCodeReads` and `Http.StatusCodeNeedsDigits` |
| Http.StatusCodeAsWritten | src/SIMx00.cpp:1418-1423 | the parse as written; `Http.AsWrittenAgreesOnFullLines` and `Http.StaleStatusAccepted` state how it differs |
| Http.ActionLineReads | src/SIMx00.cpp:1413-1423 | "+HTTPACTION:", blanks, method digit, comma, code reads back as the code |
| Http.DoHTTPACTION | src/SIMx00.cpp:1395-1444 | success exactly when "OK" comes and then a `+HTTPACTION:` line with a number; with a status pointer the code is reported, without one it must be 200; no body |
| Http.ActionReadsStatus | src/SIMx00.cpp:1395-1444 | round trip: a reply with code c succeeds iff reported or c = 200, and reports c |
| Http.AsWrittenAgreesOnFullLines | src/SIMx00.cpp:1418-1423 | when the line holds the two skipped characters, the as-written parse equals the corrected one |
| Http.StaleStatusAccepted | src/SIMx00.cpp:1418-1423 | the line "+HTTPACTION:x" makes the code as written read a status from stale buffer bytes, where the corrected parse finds none |
| Http.DoHTTPREAD | src/SIMx00.cpp:1349-1393 | a body exists exactly when a number follows "+HTTPREAD:"; success exactly when all announced bytes arrive, whatever follows them; the body is the first of them, up to the buffer length |
| Http.ReadBody | src/SIMx00.cpp:1374-1388 | after the announcement of n bytes: success exactly when n bytes arrive; the body is the first min(n, arrived, len) of them; the closing "OK" is awaited but does not change the verdict |
| Http.ReadDeliversBody | src/SIMx00.cpp:1349-1393 | round trip: "+HTTPREAD: n" and n bytes deliver those bytes |
| Http.HttpProlog | src/SIMx00.cpp:1310-1337 | the prolog keeps buffer, power and transparent-mode flags |
| Http.HttpSetup | src/SIMx00.cpp:1318-1333 | the bearer set-up, "AT+HTTPINIT" and the CID setting keep buffer, settings and clock |
| Http.HttpSetupVerdict | src/SIMx00.cpp:1318-1333 | that part succeeds exactly when every bearer setting is accepted, the bearer opens within five tries with its query accepted, and "AT+HTTPINIT" and the CID setting are both answered "OK" |
| Http.HttpPrologVerdict | src/SIMx00.cpp:1310-1337 | `doHTTPprolog` succeeds exactly when `connectProlog` succeeds and then the bearer, "AT+HTTPINIT" and the CID setting all succeed |
| Http.HttpOpen | src/SIMx00.cpp:1581-1587 | a session is open only when `on()` and the prolog succeeded |
| Http.HttpClose | src/SIMx00.cpp:1339-1344 | the result is kept; "AT+HTTPTERM" is sent only after success, its verdict ignored; the modem ends off |
| Http.PostData | src/SIMx00.cpp:886-968 | the payload is written only after "DOWNLOAD"; success needs it |
| Http.PostDataSends | src/SIMx00.cpp:886-968 | a successful upload wrote the length, the payload and the POST action, in that order |
| Http.PostMiddle | src/SIMx00.cpp:886-968 | a POST succeeds only when every session parameter was accepted |
| Http.GetMiddle | src/SIMx00.cpp:1275-1303 | a GET succeeds only when its URL setting was accepted, and reports no status |
| Http.GetNeedsStatus200 | src/SIMx00.cpp:1275-1303 | a successful GET had "OK" and status 200 |
| Http.PostReplyMiddle | src/SIMx00.cpp:1164-1191 | the POST with reply succeeds only when the POST did, with the same status |
| Http.Abandon | src/SIMx00.cpp:1525-1527 | a flow that stops before its middle part switches off, sends nothing more and reports failure |
| Http.HttpGet | src/SIMx00.cpp:1576-1603 | the modem always ends off; no status is reported; success needs power-on and the prolog |
| Http.HttpPost | src/SIMx00.cpp:1501-1528 | the modem always ends off; success needs power-on and the prolog |
| Http.HttpPostWithReply | src/SIMx00.cpp:1537-1564 | the modem always ends off; success needs power-on and the prolog |
| Http.GetStopsWithoutSession | src/SIMx00.cpp:1576-1603 | when power-on or the prolog fails nothing more is sent and nothing reported |
| Http.GetTerminatesOnSuccess | src/SIMx00.cpp:1597-1602 | after the session opened, a GET ends with "AT+HTTPTERM" exactly when it succeeded |
| Sms.Submit | src/SIMx00.cpp:850-861 | the corrected submission: text and Ctrl-Z are written only after the prompt; success exactly when the prompt came and then "OK" before "ERROR" |
| Sms.SubmitAsWritten | src/SIMx00.cpp:850-861 | the code as written: text and Ctrl-Z always follow CMGS; success exactly when "OK" comes before "ERROR" after wherever the prompt scan stopped |
| Sms.SubmitAgreesAfterPrompt | src/SIMx00.cpp:850-861 | once the prompt has come, the code as written and the corrected submission agree |
| Sms.SubmitAfterPrompt | src/SIMx00.cpp:850-861 | "> " then "OK" make the submission succeed |
| Sms.TextSentWithoutPrompt | src/SIMCOM_Modem.cpp:353 | with silence instead of the prompt the code as written submits the text and reports success on "OK" |
| Sms.TextMode | src/SIMx00.cpp:846-861 | a rejected "AT+CMGF=1" fails with nothing else sent |
| Sms.TextModeVerdict | src/SIMx00.cpp:846-861 | text mode then submission succeed exactly when "AT+CMGF=1" is accepted and the prompt and "OK" follow CMGS |
| Sms.TextModeSends | src/SIMx00.cpp:846-861 | a successful submission sent CMGF, CMGS, then text and Ctrl-Z |
| Sms.TextModeAsWritten | src/SIMx00.cpp:846-861 | as written, too, a rejected "AT+CMGF=1" fails with nothing else sent |
| Sms.TextModeAsWrittenVerdict | src/SIMx00.cpp:846-861 | as written: success exactly when "AT+CMGF=1" is accepted and "OK" comes after wherever the prompt scan stopped |
| Sms.SendSMS | src/SIMx00.cpp:823-873 | the modem always ends off; success needs `networkOn` |
| Sms.SendSMSVerdict | src/SIMx00.cpp:823-873 | success iff network up, text mode accepted, prompt seen and "OK" after it |
| Sms.SendSMSNeedsNetwork | src/SIMx00.cpp:823-873 | without network nothing past `networkOn` is sent, and the result is false |
| Sms.SendSMSSends | src/SIMx00.cpp:823-873 | a successful `sendSMS` sent CMGF, CMGS, then text and Ctrl-Z, right after `networkOn` |
| Sms.SendSMSAsWritten | src/SIMx00.cpp:823-873 | the code as written ends off too; success needs `networkOn` |
| Sms.SendSMSAsWrittenVerdict | src/SIMx00.cpp:823-873 | as written: success iff network up, text mode accepted and "OK" after wherever the prompt scan stopped |
| Datetime.CumDaysValues | src/SIMCOM_Datetime.cpp:144 | the `daysInMonth` table sums to 0, 31, 59, 90, ..., 334 days before each month and 365 for the year |
| Datetime.FromY2K | src/SIMCOM_Datetime.cpp:17-108 | the timestamp constructor gives seconds and minutes below 60, hours below 24, a 0-based month 0..11, a 0-based day within that month, zone 0 |
| Datetime.SplitTime | src/SIMCOM_Datetime.cpp:24-29 | hours below 24, minutes and seconds below 60, adding back up to the seconds of the day |
| Datetime.SplitYears | src/SIMCOM_Datetime.cpp:37-72 | at most 180 years; the remaining days fit in the year; the leap flag is set only on multiples of 4 other than 2100; fewer than 100 years exactly when fewer than 36525 days |
| Datetime.LeapFlagIsGregorian | src/SIMCOM_Datetime.cpp:50-55 | a year the constructor flags as leap (a multiple of 4 other than 2100) is a Gregorian leap year, and before 2100 a year is leap exactly when it is a multiple of 4 |
| Datetime.YearsAddUp | src/SIMCOM_Datetime.cpp:37-72 | 365 days a year plus the Gregorian leap days of the years before, plus the day of year, give back the day count; the leap flag is the Gregorian one whenever the day of year is not 0 |
| Datetime.SplitMonth | src/SIMCOM_Datetime.cpp:76-105 | month 0..11 and a day within that month |
| Datetime.JanuaryFebruary | src/SIMCOM_Datetime.cpp:81-86 | in the first 59 (60) days, division by 31 gives January or February and a day within it, adding back up |
| Datetime.MarchToDecember | src/SIMCOM_Datetime.cpp:87-105 | from March 1 on, the 153-, 61- and 31-day divisions give months 2..11 and a day within that month, adding back up to the day of year |
| Datetime.MonthsAddUp | src/SIMCOM_Datetime.cpp:76-105 | the days before the month, the day, and the leap day from March on add back up to the day of year |
| Datetime.TimestampAddsUp | src/SIMCOM_Datetime.cpp:17-108 | for every timestamp, the Gregorian day count of the constructed date is `ts / 86400` and its time of day `ts % 86400` |
| Datetime.DefaultIsY2K | src/SIMCOM_Datetime.h:13 | the default object is 2000-01-01 00:00:00 in zone 0 |
| Datetime.AccessorsOfFirstDay | src/SIMCOM_Datetime.h:27-29 | fields 0, 0, 0 read as year 2000, month 1, day 1 |
| Datetime.Year | src/SIMCOM_Datetime.h:27 | `year()` is 2000 plus the offset, within 2000..2255 |
| Datetime.Month | src/SIMCOM_Datetime.h:28 | `month()` is the 0-based month plus one, and 0 when the field holds 255 |
| Datetime.Day | src/SIMCOM_Datetime.h:29 | `day()` is the 0-based day plus one, and 0 when the field holds 255 |
| Datetime.CalendarOfFields | src/SIMCOM_Datetime.h:27-29 | a valid 0-based month and day read back one-based, as a month 1..12 and a day within it |
| Datetime.TimestampCalendar | src/SIMCOM_Datetime.h:27-29 | through the accessors a timestamp gives year 2000..2180, month 1..12 and a day within the month |
| Datetime.EpochOfDaysIs | src/SIMCOM_Datetime.cpp:149-168 | the epoch is the day count times 86400, plus the time of day, minus 900 s per zone step, modulo 2^32 |
| Datetime.EpochIs | src/SIMCOM_Datetime.cpp:149-168 | without wrap and in zone 0 the epoch is days * 86400 plus the time of day |
| Datetime.LeapCount | src/SIMCOM_Datetime.cpp:152 | the closed-form count of leap days (multiples of 4, less those of 100, plus those of 400) equals the year-by-year count of Gregorian leap years |
| Datetime.LeapDaysStep | src/SIMCOM_Datetime.cpp:152 | the closed-form count grows by one after a Gregorian leap year and stays put after any other year |
| Datetime.Y2KEpochAsWritten | src/SIMCOM_Datetime.cpp:149-168 | as written, in zone 0 and without wrap: the day of the month, 365 days a year, `(_yOff + 3) / 4` leap days, the months before and the leap day from April on, times 86400, plus the time of day |
| Datetime.Y2KEpoch | src/SIMCOM_Datetime.cpp:149-168 | corrected: the same with the Gregorian leap days and the leap day from March on |
| Datetime.DriftIs | src/SIMCOM_Datetime.cpp:152-158 | before 2200, the day count as written is the Gregorian count plus the drift, which is -1, 0 or 1 |
| Datetime.AprilFirst2100 | src/SIMCOM_Datetime.cpp:152-157 | timestamp 3163536000 is 2100-04-01, but as written it comes back as 3163622400, which is 2100-04-02: line 157 adds a leap day to 2100, which has none |
| Datetime.NewYear2101 | src/SIMCOM_Datetime.cpp:152 | timestamp 3187296000 is 2101-01-01, but as written it comes back as 3187382400, which is 2101-01-02: `(_yOff + 3) / 4` counts 2100 as a leap year |
| Datetime.NewYear2101Dates | src/SIMCOM_Datetime.cpp:17-108 | the timestamp constructor reads 3187296000 as 2101-01-01 and 3187382400 as 2101-01-02 |
| Datetime.Y2KRoundTrip | src/SIMCOM_Datetime.cpp:149-168 | for every 32-bit timestamp, the corrected epoch of the constructed date is the timestamp it came from |
| Datetime.AsWrittenDrifts | src/SIMCOM_Datetime.cpp:152-158 | as written, the epoch of a constructed date is its timestamp shifted by the drift, modulo 2^32: a day short in March of a leap year before 2100, a day long from April 2100 on except in March of a leap year, and right otherwise |
| Datetime.MarchFirst2000 | src/SIMCOM_Datetime.cpp:157 | 2000-03-01 is 5184000 s after Y2K, but as written it comes back as 5097600, i.e. 2000-02-29 |
| Datetime.UnixEpochAsWritten | src/SIMCOM_Datetime.cpp:173-176 | as written, in zone 0 and without wrap: the day count with the leap day from April on, times 86400, plus the time of day and 946684800 |
| Datetime.UnixEpoch | src/SIMCOM_Datetime.cpp:173-176 | corrected: the same with the Gregorian leap days and the leap day from March on |
| Datetime.EpochPlusOffset | src/SIMCOM_Datetime.cpp:175 | without wrap and in zone 0, the 32-bit sum of the Y2K epoch and 946684800 is the exact Unix time |
| Datetime.UnixOfY2K | src/SIMCOM_Datetime.cpp:175 | the Unix time as written is the Y2K time as written plus 946684800, modulo 2^32, whatever value that Y2K time was reduced from |
| Datetime.UnixAsWrittenDrifts | src/SIMCOM_Datetime.cpp:152-175 | for any date whose day counts fit `uint16_t`, the Unix time as written is the corrected one shifted by that drift, modulo 2^32 |
| Datetime.UnixRoundTrip | src/SIMCOM_Datetime.cpp:173-176 | for every timestamp, the constructed date is 946684800 s later in Unix time, modulo 2^32 |
| Datetime.UnixAsWrittenRoundTrip | src/SIMCOM_Datetime.cpp:173-176 | as written, that Unix time is off by the same drift |
| Datetime.Conv1d | src/SIMCOM_Datetime.cpp:181-188 | a decimal digit gives its value, anything else 0 |
| Datetime.Conv2d | src/SIMCOM_Datetime.cpp:193-198 | two digits give their two-digit number; never above 99 |
| Datetime.Parse | src/SIMCOM_Datetime.cpp:122-142 | year, time and zone fields are at most 99; the zone is negative only when character 17 is '-', and not negative otherwise |
| Datetime.SeparatorsIgnored | src/SIMCOM_Datetime.cpp:122-142 | the characters at offsets 2, 5, 8, 11 and 14 are never looked at |
| Datetime.ZeroMonthWraps | src/SIMCOM_Datetime.cpp:126 | month "00" is stored as 255, outside the documented 0..11 |
| Datetime.Add0Nd | src/SIMCOM_Datetime.cpp:205-220 | the text is zeros followed by the decimal digits of the value, never cut |
| Datetime.Add0NdWidth | src/SIMCOM_Datetime.cpp:205-220 | up to width 5 the text is `width` long unless the value needs more digits |
| Datetime.PadToTwo | src/SIMCOM_Datetime.cpp:205-220 | a value below 100 prints as exactly two digits |
| Datetime.AddToStringIsClockText | src/SIMCOM_Datetime.cpp:230-244 | the text is "yy/MM/dd,hh:mm:ss+00" with month and day one-based, each field two digits |
| Datetime.AddToString | src/SIMCOM_Datetime.cpp:230-244 | the formatter; its contracts are `Datetime.AddToStringIsClockText` and `Datetime.ClockTextRoundTrip` |
| Datetime.ClockTextRoundTrip | src/SIMCOM_Datetime.cpp:230-244 | the formatted text is 20 characters long and parses back to the same date, in zone 0 |
| Datetime.ZoneIsDropped | src/SIMCOM_Datetime.cpp:228-244 | a date with a nonzero zone does not survive the round trip |

## Left out

- Timing: `millis`, `delay`, `mydelay` and the watchdog are not modelled as time. Time passes only as `Lapse` events and a finite list of clock readings. The delays between retries and the exact per-call budgets (12 s for `+CSQ:`, 15 s for CIPSTART and the like) are not separate values.
- Power pins: the `SIMCOM_Modem_OnOff` GPIO sequence is not modelled. `on()` marks the modem powered and then probes it with "AT". `isOn()` is the powered flag.
- Printing: the diagnostic stream, the `print`/`println` overloads (the `double` one included), `writeByte` and `flushInput` are not separate members. `SendCommand` discards unread input as `flushInput` does.
- Variants and overloads:
  - The `_P` (program-memory) variants behave like their RAM versions and are modelled once.
  - The `Stream`- and function-pointer payload overloads of `sendFTPdata`, `sendFTPdata_low` and the HTTP POST upload are left out; the buffer versions are modelled.
- Device housekeeping: `initBuffer` (the `malloc` is the `mallocOk` parameter of `Device.Init`), `setPin`, `setModemStream` and the timing statistics (`_timeToOpenTCP` and the like) are left out.
- The firmware's own TCP, FTP and HTTP behaviour is not modelled: replies are whatever the script holds.
- Receive timeouts: the 4000 ms defaults of `receiveDataTCP`/`receiveLineTCP` are not parameters. Their deadline is the next `Lapse`.
- Other getters: `getIMEI`, `getCCLK`, `getUnixEpoch` of SIMx00 (src/SIMx00.cpp:1863-1884) and the like are I/O wrappers around the modelled primitives. They are not part of this model.
- Datetime accessors: `hour()`, `minute()` and `second()` return the fields unchanged and have no members. The field-wise constructor is the `DateTime` datatype constructor, which stores its arguments as they are. The weekday computed in the timestamp constructor is never used and is left out.
- Integer width: an AVR build (16-bit `int`) would wrap `-113 + 2 * q` and the printed lengths differently. The model fixes a 32-bit target. The lengths in "AT+CIPSEND=", "AT+FTPPUT=2," and "AT+HTTPDATA=" are all printed as a C `int` (`Machine.ToI32`, then `CText.Itoa`): `print((int)data_len)` and `itoa` write the same decimal text.
- Engine.SendCommand: a command built by `strcpy`/`strcat` into a fixed buffer (60 bytes in `openTCP`, 64 in `openFTPfile` and `sendSMS`) is required to fit it (`Engine.Fits`). The overflow is left out.
  - The same requirement is on Tcp.OpenTCP, Ftp.OpenFTP, Ftp.OpenFTPfile and Sms.SendSMS.
- Transport.Collect and Transport.ReadLine: a CR followed by a `Lapse` ends the line. In `readLine`, when `ts_max` passes inside the 50 ms wait for an LF after a CR, the result is -1 instead (src/SIMCOM_Modem.cpp:167-176). The model assumes that grace window ends before the read deadline.
- Datetime.Parse: text shorter than 20 characters is read as NUL past its end (`CText.CharAt`). The source reads whatever memory follows the string.
  - The same holds for Datetime.Conv1d and Datetime.Conv2d (src/SIMCOM_Datetime.cpp:122-141, 181-198).
- Http.DoHTTPACTION: it uses the corrected parse `Http.StatusCode`, which rejects a status field shorter than two characters. The code as written reads stale buffer bytes past the NUL instead (src/SIMx00.cpp:1418-1423). That behaviour is modelled separately by `Http.StatusCodeAsWritten` (see Findings).
- Datetime.Y2KEpochAsWritten: it requires a month field of at most 12, as do Datetime.Y2KEpoch, Datetime.UnixEpochAsWritten and Datetime.UnixEpoch. `Datetime.Parse` can store months 13..98 and 255 (`Datetime.ZeroMonthWraps`), and with those `getY2KEpoch` reads past the end of `daysInMonth` (src/SIMCOM_Datetime.cpp:154-156). That out-of-table read is not modelled.
- Datetime.AddToString: the formatter always writes the zone "+00", as the source comment at src/SIMCOM_Datetime.cpp:228 says. `Datetime.ZoneIsDropped` states the consequence. It is documented behaviour, not a finding.
- Ftp.SendFTPdataAsWritten: the loop that may not end is given a bound of `fuel` rounds and answers None when it is still running after them. `Ftp.AsWrittenNeverSucceeds` holds for every bound; `Ftp.AsWrittenAgrees` needs at least one round per byte.
- Device.WaitForSignalQuality and Device.WaitForCREG: the polling loops read the clock from the finite list of readings. A list that runs out counts as an expired deadline, so a wait that the source would continue past the last reading ends there.

## Findings

| source | as written | input that shows it | evidently intended | confidence | as-written member | corrected member |
|---|---|---|---|---|---|---|
| src/SIMCOM_Modem.cpp:353 | `waitForPrompt` returns true after the loop, whether the prompt was seen or the deadline passed; `sendSMS` and `sendDataTCP` then write the payload regardless | the reply to `AT+CMGS` (or `AT+CIPSEND`) is silence, then "OK" (or "SEND OK"): the text is sent and the call reports success | return whether the prompt was seen, and write the payload only after it | not executed | Replies.WaitForPrompt, Replies.PromptTimeoutReportedAsSuccess, Sms.SubmitAsWritten, Sms.TextSentWithoutPrompt, Tcp.SendDataTCPAsWritten, Tcp.PayloadSentWithoutPrompt | Replies.WaitForPromptChecked, Replies.CheckedPromptSound, Sms.Submit, Sms.SendSMSVerdict, Tcp.SendDataTCP, Tcp.SendDataAfterPrompt |
| src/SIMx00.cpp:792-802 | the loop sends chunks of min(remaining, `_ftpMaxLength`) bytes until none remain | `_ftpMaxLength == 0` (no file opened) and any data: every round announces an empty chunk, which is the close command "AT+FTPPUT=2,0"; the call never reports success, and it never ends while each round is answered | fail at once when no maximum was announced | not executed | Ftp.SendFTPdataAsWritten, Ftp.AsWrittenNeverSucceeds, Ftp.AsWrittenClosesInstead | Ftp.SendFTPdata, Ftp.SendFTPdataSends |
| src/SIMCOM_Datetime.cpp:157 | the leap day is added when the 0-based month is `> 2`, i.e. from April on | 2000-03-01 00:00:00 gives 5097600, the epoch of 2000-02-29; the timestamp constructor reads 5184000 as March 1 | `_m >= 2`, so that in March of a leap year before 2100 the epoch is the inverse of the timestamp constructor; from 2100 on `_m >= 2` gives the inverse only together with the Gregorian count of the next row, and on its own it leaves March 2100, and March of every leap year after it, a day late | not executed | Datetime.Y2KEpochAsWritten, Datetime.AsWrittenDrifts, Datetime.MarchFirst2000, Datetime.UnixEpochAsWritten, Datetime.UnixAsWrittenDrifts | Datetime.Y2KEpoch, Datetime.Y2KRoundTrip, Datetime.UnixEpoch, Datetime.UnixRoundTrip |
| src/SIMCOM_Datetime.cpp:152-157 | line 152's `(_yOff + 3) / 4` counts 2100 among the leap years for every year from 2101 on, and line 157's `(_yOff % 4) == 0` adds a leap day to 2100 from April on; so the day count is one day long from 2100-04-01 on, except in March of the leap years after 2100, where the leap day line 157 misses cancels it | timestamp 3163536000, which the constructor reads as 2100-04-01, gives back 3163622400, the epoch of 2100-04-02 (line 157); timestamp 3187296000, read as 2101-01-01, gives back 3187382400, the epoch of 2101-01-02 (line 152) | count the Gregorian leap years in both places, so that `getY2KEpoch(SIMCOMDateTime(ts)) == ts` for every 32-bit timestamp | not executed | Datetime.Y2KEpochAsWritten, Datetime.AprilFirst2100, Datetime.NewYear2101, Datetime.AsWrittenDrifts, Datetime.DriftIs | Datetime.Y2KEpoch, Datetime.LeapCount, Datetime.Y2KRoundTrip |
| src/SIMx00.cpp:1418-1423 | after "+HTTPACTION:" and the blanks, two characters are skipped unchecked before `strtoul` | the line "+HTTPACTION:0" steps over its NUL, and the status is read from bytes left in the buffer by an earlier line | make sure the two characters are there, and fail otherwise | not executed | Http.StatusCodeAsWritten, Http.StaleStatusAccepted | Http.StatusCode, Http.DoHTTPACTION, Http.AsWrittenAgreesOnFullLines |
