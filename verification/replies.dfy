/**
 * Reply matching on top of `readLine` (SIMCOM_Modem.cpp `waitForOK`,
 * `waitForMessage`, `waitForMessages`, `waitForPrompt`). Each wait reads
 * from the event stream until it decides or its deadline lapses, and hands
 * back what it left unread.
 */
module Replies {
  import opened Options
  import opened CText
  import opened Transport

  /** The outcome of a wait and the input it left unread. */
  datatype Waited<T> = Waited(value: T, rest: seq<Event>)

  predicate IsOK(line: string)
  {
    StrEq(line, "OK")
  }

  predicate IsError(line: string)
  {
    StrEq(line, "ERROR")
  }

  // ---------------------------------------------------------------------
  // waitForOK
  // ---------------------------------------------------------------------

  /**
   * `waitForOK`: true on a line "OK", false on a line "ERROR" or when the
   * deadline passes; empty and other lines are skipped.
   */
  function WaitForOK(buf: Buffer, input: seq<Event>): (r: Waited<bool>)
    ensures IsSuffix(r.rest, input)
    ensures r.value ==> |r.rest| < |input|
    decreases |input|
  {
    var l := ReadLine(buf, input);
    match l.line
    case None => Waited(false, l.rest)
    case Some(line) =>
      if |line| == 0 then WaitForOK(buf, l.rest)
      else if IsOK(line) then Waited(true, l.rest)
      else if IsError(line) then Waited(false, l.rest)
      else WaitForOK(buf, l.rest)
  }

  /** Reference verdict on a sequence of lines: an "OK" comes before any "ERROR". */
  predicate OkBeforeError(lines: seq<string>)
  {
    exists i :: 0 <= i < |lines| && IsOK(lines[i]) && forall j :: 0 <= j < i ==> !IsError(lines[j])
  }

  lemma OkFirst(x: string, lines: seq<string>)
    requires IsOK(x)
    ensures OkBeforeError([x] + lines)
  {
    assert ([x] + lines)[0] == x;
  }

  lemma ErrorFirst(x: string, lines: seq<string>)
    requires IsError(x)
    ensures !OkBeforeError([x] + lines)
  {
    assert ([x] + lines)[0] == x;
  }

  lemma OtherFirst(x: string, lines: seq<string>)
    requires !IsOK(x) && !IsError(x)
    ensures OkBeforeError([x] + lines) <==> OkBeforeError(lines)
  {
    if OkBeforeError(lines) {
      OtherFirstKeeps(x, lines);
    }
    var s := [x] + lines;
    if OkBeforeError(s) {
      var i :| 0 <= i < |s| && IsOK(s[i]) && forall j :: 0 <= j < i ==> !IsError(s[j]);
      assert s[0] == x;
      OtherFirstDrops(x, lines, i);
      assert 0 <= i - 1 < |lines|;
    }
  }

  lemma OtherFirstKeeps(x: string, lines: seq<string>)
    requires !IsError(x) && OkBeforeError(lines)
    ensures OkBeforeError([x] + lines)
  {
    var s := [x] + lines;
    var i :| 0 <= i < |lines| && IsOK(lines[i]) && forall j :: 0 <= j < i ==> !IsError(lines[j]);
    assert IsOK(s[i + 1]);
    assert forall j :: 0 < j < i + 1 ==> s[j] == lines[j - 1];
    assert forall j :: 0 <= j < i + 1 ==> !IsError(s[j]);
  }

  lemma OtherFirstDrops(x: string, lines: seq<string>, i: nat)
    requires 0 < i <= |lines|
    requires IsOK(([x] + lines)[i]) && forall j :: 0 <= j < i ==> !IsError(([x] + lines)[j])
    ensures IsOK(lines[i - 1]) && forall j :: 0 <= j < i - 1 ==> !IsError(lines[j])
  {
    var s := [x] + lines;
    assert s[i] == lines[i - 1];
    forall j | 0 <= j < i - 1
      ensures !IsError(lines[j])
    {
      assert lines[j] == s[j + 1];
    }
  }

  /** `waitForOK` succeeds exactly when the lines that arrive in time hold an "OK" before any "ERROR". */
  lemma {:induction false} WaitForOKIffOkBeforeError(buf: Buffer, input: seq<Event>)
    ensures WaitForOK(buf, input).value <==> OkBeforeError(Lines(buf, input))
    decreases |input|
  {
    var l := ReadLine(buf, input);
    if l.line.Some? {
      var line := l.line.value;
      var tail := Lines(buf, l.rest);
      assert Lines(buf, input) == [line] + tail;
      if IsOK(line) {
        OkFirst(line, tail);
      } else if IsError(line) {
        ErrorFirst(line, tail);
      } else {
        OtherFirst(line, tail);
        WaitForOKIffOkBeforeError(buf, l.rest);
      }
    }
  }

  /** An empty line in front of the reply changes nothing. */
  lemma WaitForOKSkipsBlankLine(cap: nat, input: seq<Event>)
    requires cap >= 1
    ensures WaitForOK(Allocated(cap), [Byte(CR), Byte(LF)] + input) == WaitForOK(Allocated(cap), input)
  {
    SameLineForEveryTerminator(cap, [], input);
    assert Bytes([]) + ([Byte(CR), Byte(LF)] + input) == [Byte(CR), Byte(LF)] + input;
  }

  /** A reply line "OK" that fits the buffer is accepted. */
  lemma OkLineAccepted(cap: nat, rest: seq<Event>)
    requires cap > 2
    ensures WaitForOK(Allocated(cap), Line("OK") + rest) == Waited(true, rest)
  {
    ReadsWholeLine(cap, "OK", rest);
    CStrOfNulFree("OK");
  }

  /** A reply line "ERROR" is a failure, whatever follows it. */
  lemma ErrorLineRejected(cap: nat, rest: seq<Event>)
    requires cap > 5
    ensures WaitForOK(Allocated(cap), Line("ERROR") + rest) == Waited(false, rest)
  {
    ReadsWholeLine(cap, "ERROR", rest);
    CStrOfNulFree("ERROR");
    CStrOfNulFree("OK");
  }

  // ---------------------------------------------------------------------
  // waitForMessage
  // ---------------------------------------------------------------------

  /** The test of `waitForMessage` on a non-empty line: `strncmp(line, msg, strlen(msg)) == 0`. */
  predicate Matches(msg: string, line: string)
  {
    |line| > 0 && StrNEq(line, msg, |msg|)
  }

  /** `waitForMessage`: the first non-empty line that starts with `msg`, None on timeout. */
  function WaitForMessage(msg: string, buf: Buffer, input: seq<Event>): (r: Waited<Option<string>>)
    requires NulFree(msg)
    ensures IsSuffix(r.rest, input)
    ensures r.value.Some? ==> |r.value.value| > 0 && msg <= CStr(r.value.value)
    ensures r.value.Some? ==> buf.Allocated? && |r.value.value| < buf.capacity && |r.rest| < |input|
    decreases |input|
  {
    var l := ReadLine(buf, input);
    match l.line
    case None => Waited(None, l.rest)
    case Some(line) =>
      StrNEqIsPrefix(line, msg);
      if Matches(msg, line) then Waited(Some(line), l.rest) else WaitForMessage(msg, buf, l.rest)
  }

  /** A first reply line that starts with `msg` and fits the buffer is the one returned. */
  lemma FirstLineMatches(msg: string, cap: nat, x: string, rest: seq<Event>)
    requires NulFree(msg) && NulFree(x) && NoBreak(x)
    requires 0 < |x| < cap
    requires msg <= x
    ensures WaitForMessage(msg, Allocated(cap), Line(x) + rest) == Waited(Some(x), rest)
  {
    ReadsWholeLine(cap, x, rest);
    CStrOfNulFree(x);
    StrNEqIsPrefix(x, msg);
  }

  /** Index of the first line matching `msg`, or `|lines|` when none does. */
  predicate FirstMatchAt(msg: string, lines: seq<string>, i: int)
  {
    0 <= i < |lines| && Matches(msg, lines[i]) && forall j :: 0 <= j < i ==> !Matches(msg, lines[j])
  }

  predicate NoMatch(msg: string, lines: seq<string>)
  {
    forall j :: 0 <= j < |lines| ==> !Matches(msg, lines[j])
  }

  /**
   * `waitForMessage` returns the first arriving line that matches, and
   * times out exactly when no line that arrives in time matches.
   */
  lemma {:induction false} WaitForMessageIsFirstMatch(msg: string, buf: Buffer, input: seq<Event>)
    requires NulFree(msg)
    ensures var r := WaitForMessage(msg, buf, input).value;
      && (r.None? <==> NoMatch(msg, Lines(buf, input)))
      && (r.Some? ==> exists i :: FirstMatchAt(msg, Lines(buf, input), i) && Lines(buf, input)[i] == r.value)
    decreases |input|
  {
    var l := ReadLine(buf, input);
    if l.line.Some? {
      var line := l.line.value;
      var tail := Lines(buf, l.rest);
      var s := Lines(buf, input);
      assert s == [line] + tail;
      if Matches(msg, line) {
        assert FirstMatchAt(msg, s, 0);
      } else {
        WaitForMessageIsFirstMatch(msg, buf, l.rest);
        var r := WaitForMessage(msg, buf, input).value;
        assert r == WaitForMessage(msg, buf, l.rest).value;
        if r.Some? {
          var i :| FirstMatchAt(msg, tail, i) && tail[i] == r.value;
          assert s[i + 1] == tail[i];
          assert forall j :: 0 <= j < i + 1 ==> !Matches(msg, s[j]) by {
            forall j | 0 <= j < i + 1
              ensures !Matches(msg, s[j])
            {
              if j > 0 {
                assert s[j] == tail[j - 1];
              }
            }
          }
          assert FirstMatchAt(msg, s, i + 1);
        } else {
          assert NoMatch(msg, s) by {
            forall j | 0 <= j < |s|
              ensures !Matches(msg, s[j])
            {
              if j > 0 {
                assert s[j] == tail[j - 1];
              }
            }
          }
        }
      }
    }
  }

  // ---------------------------------------------------------------------
  // waitForMessages
  // ---------------------------------------------------------------------

  /** The inner loop of `waitForMessages`: the lowest `i >= from` with `strcmp(line, msgs[i]) == 0`, else -1. */
  function MatchIndex(msgs: seq<string>, line: string, from: nat): (r: int)
    requires from <= |msgs|
    ensures r == -1 || from <= r < |msgs|
    ensures r >= 0 ==> StrEq(line, msgs[r])
    ensures r >= 0 ==> forall j :: from <= j < r ==> !StrEq(line, msgs[j])
    ensures r == -1 ==> forall j :: from <= j < |msgs| ==> !StrEq(line, msgs[j])
    decreases |msgs| - from
  {
    if from == |msgs| then -1
    else if StrEq(line, msgs[from]) then from
    else MatchIndex(msgs, line, from + 1)
  }

  /**
   * `waitForMessages`: for the first non-empty line equal to one of `msgs`,
   * the lowest index it equals; -1 on timeout.
   */
  function WaitForMessages(msgs: seq<string>, buf: Buffer, input: seq<Event>): (r: Waited<int>)
    ensures IsSuffix(r.rest, input)
    ensures r.value == -1 || 0 <= r.value < |msgs|
    decreases |input|
  {
    var l := ReadLine(buf, input);
    match l.line
    case None => Waited(-1, l.rest)
    case Some(line) =>
      if |line| == 0 then WaitForMessages(msgs, buf, l.rest)
      else
        var ix := MatchIndex(msgs, line, 0);
        if ix >= 0 then Waited(ix, l.rest) else WaitForMessages(msgs, buf, l.rest)
  }

  /** A first reply line that fits the buffer and equals one of `msgs` is reported at once. */
  lemma FirstLineHits(msgs: seq<string>, cap: nat, x: string, rest: seq<Event>)
    requires NoBreak(x) && 0 < |x| < cap
    requires MatchIndex(msgs, x, 0) >= 0
    ensures WaitForMessages(msgs, Allocated(cap), Line(x) + rest) == Waited(MatchIndex(msgs, x, 0), rest)
  {
    ReadsWholeLine(cap, x, rest);
  }

  predicate EqualsSome(msgs: seq<string>, line: string)
  {
    |line| > 0 && exists k :: 0 <= k < |msgs| && StrEq(line, msgs[k])
  }

  predicate NoHit(msgs: seq<string>, lines: seq<string>)
  {
    forall j :: 0 <= j < |lines| ==> !EqualsSome(msgs, lines[j])
  }

  /** Line `i` is the first to equal a message, and `r` is the lowest message it equals. */
  predicate HitAt(msgs: seq<string>, lines: seq<string>, i: int, r: int)
  {
    && 0 <= i < |lines| && |lines[i]| > 0 && 0 <= r < |msgs| && StrEq(lines[i], msgs[r])
    && (forall k :: 0 <= k < r ==> !StrEq(lines[i], msgs[k]))
    && forall j :: 0 <= j < i ==> !EqualsSome(msgs, lines[j])
  }

  /**
   * `waitForMessages` reports -1 exactly when no line that arrives in time
   * equals a message; otherwise its index is the lowest message equal to the
   * first line that equals any.
   */
  lemma {:induction false} WaitForMessagesIsFirstHit(msgs: seq<string>, buf: Buffer, input: seq<Event>)
    ensures WaitForMessages(msgs, buf, input).value == -1 <==> NoHit(msgs, Lines(buf, input))
    ensures WaitForMessages(msgs, buf, input).value >= 0 ==>
              exists i :: HitAt(msgs, Lines(buf, input), i, WaitForMessages(msgs, buf, input).value)
    decreases |input|
  {
    var l := ReadLine(buf, input);
    if l.line.Some? {
      var line := l.line.value;
      var tail := Lines(buf, l.rest);
      var s := Lines(buf, input);
      assert s == [line] + tail;
      var ix := MatchIndex(msgs, line, 0);
      if |line| > 0 && ix >= 0 {
        assert HitAt(msgs, s, 0, ix);
        assert EqualsSome(msgs, s[0]);
      } else {
        assert !EqualsSome(msgs, s[0]);
        WaitForMessagesIsFirstHit(msgs, buf, l.rest);
        var r := WaitForMessages(msgs, buf, l.rest).value;
        assert WaitForMessages(msgs, buf, input).value == r;
        forall j | 0 < j < |s|
          ensures s[j] == tail[j - 1]
        {
        }
        if r >= 0 {
          var i :| HitAt(msgs, tail, i, r);
          assert HitAt(msgs, s, i + 1, r);
          assert EqualsSome(msgs, s[i + 1]);
        } else {
          assert NoHit(msgs, tail);
          assert NoHit(msgs, s);
        }
      }
    }
  }

  // ---------------------------------------------------------------------
  // waitForPrompt
  // ---------------------------------------------------------------------

  /** Where the byte-level prompt matcher stopped: prompt complete or deadline passed. */
  datatype PromptScan = PromptScan(seen: bool, rest: seq<Event>)

  /**
   * The loop of `waitForPrompt` with the cursor at `prompt[k]`: CR is
   * ignored, LF sends the cursor back to the start, a matching byte moves it
   * on, and any other byte sends it back without being compared again.
   */
  function ScanPrompt(prompt: string, k: nat, input: seq<Event>): (r: PromptScan)
    requires k <= |prompt|
    ensures IsSuffix(r.rest, input)
    decreases |input|
  {
    if k == |prompt| then PromptScan(true, input)
    else if |input| == 0 then PromptScan(false, [])
    else if input[0].Lapse? then PromptScan(false, input[1..])
    else ScanPrompt(prompt, NextCursor(prompt, k, input[0].c), input[1..])
  }

  /** One step of the `switch` in `waitForPrompt`. */
  function NextCursor(prompt: string, k: nat, c: char): (k': nat)
    requires k < |prompt|
    ensures k' <= |prompt|
  {
    if c == CR then k
    else if c == LF then 0
    else if prompt[k] == c then k + 1
    else 0
  }

  /** `waitForPrompt` as written: whatever the scan found, it reports success. */
  function WaitForPrompt(prompt: string, input: seq<Event>): (r: Waited<bool>)
    requires NulFree(prompt)
    ensures r.value
    ensures r.rest == ScanPrompt(prompt, 0, input).rest
  {
    Waited(true, ScanPrompt(prompt, 0, input).rest)
  }

  /** `waitForPrompt` as its documentation promises: true only when the prompt was seen. */
  function WaitForPromptChecked(prompt: string, input: seq<Event>): (r: Waited<bool>)
    requires NulFree(prompt)
    ensures IsSuffix(r.rest, input)
  {
    var s := ScanPrompt(prompt, 0, input);
    Waited(s.seen, s.rest)
  }

  /** The received bytes with CR left out, as the matcher sees them. */
  function Received(ev: seq<Event>): string
  {
    if |ev| == 0 then []
    else (match ev[0] case Byte(c) => (if c == CR then [] else [c]) case Lapse => []) + Received(ev[1..])
  }

  function Consumed(input: seq<Event>, rest: seq<Event>): seq<Event>
    requires |rest| <= |input|
  {
    input[..|input| - |rest|]
  }

  lemma ReceivedCons(e: Event, ev: seq<Event>)
    ensures Received([e] + ev) == Received([e]) + Received(ev)
  {
    assert ([e] + ev)[1..] == ev;
    assert [e][1..] == [];
  }

  lemma ReceivedByte(c: char)
    ensures Received([Byte(c)]) == if c == CR then [] else [c]
  {
    assert [Byte(c)][1..] == [];
  }

  lemma SuffixExtend<T>(a: seq<T>, s: seq<T>, x: T)
    requires IsSuffix(a, s)
    ensures IsSuffix(a + [x], s + [x])
  {
    assert (s + [x])[|s| + 1 - (|a| + 1)..] == s[|s| - |a|..] + [x];
  }

  /** The cursor only ever stands behind a copy of the prompt's head at the end of the text received. */
  lemma NextCursorKeepsSuffix(prompt: string, k: nat, c: char, seen: string)
    requires k < |prompt|
    requires IsSuffix(prompt[..k], seen)
    ensures IsSuffix(prompt[..NextCursor(prompt, k, c)], seen + Received([Byte(c)]))
  {
    ReceivedByte(c);
    if c == CR {
      assert seen + [] == seen;
    } else if c != LF && prompt[k] == c {
      assert prompt[..k + 1] == prompt[..k] + [c];
      SuffixExtend(prompt[..k], seen, c);
    }
  }

  lemma ConsumedCons(input: seq<Event>, rest: seq<Event>)
    requires |input| > 0 && IsSuffix(rest, input[1..])
    ensures Received(Consumed(input, rest)) == Received([input[0]]) + Received(Consumed(input[1..], rest))
  {
    assert Consumed(input, rest) == [input[0]] + Consumed(input[1..], rest);
    ReceivedCons(input[0], Consumed(input[1..], rest));
  }

  /**
   * Soundness of the matcher: when it reports the prompt, the prompt ends
   * the CR-free text received so far (`seen` being that text when the cursor
   * stood at `k`).
   */
  lemma {:induction false} ScanPromptSound(prompt: string, k: nat, input: seq<Event>, seen: string)
    requires k <= |prompt|
    requires IsSuffix(prompt[..k], seen)
    ensures var r := ScanPrompt(prompt, k, input);
      r.seen ==> IsSuffix(prompt, seen + Received(Consumed(input, r.rest)))
    decreases |input|
  {
    var r := ScanPrompt(prompt, k, input);
    if k == |prompt| {
      assert Consumed(input, r.rest) == [];
      assert prompt[..k] == prompt;
      assert seen + Received([]) == seen;
    } else if |input| > 0 && input[0].Byte? {
      var c := input[0].c;
      var k' := NextCursor(prompt, k, c);
      var seen' := seen + Received([Byte(c)]);
      NextCursorKeepsSuffix(prompt, k, c, seen);
      ScanPromptSound(prompt, k', input[1..], seen');
      assert r == ScanPrompt(prompt, k', input[1..]);
      SeenStep(input, r.rest, seen);
    }
  }

  /** The corrected wait reports the prompt only when the text it consumed, CRs left out, ends with the prompt. */
  lemma CheckedPromptSound(prompt: string, input: seq<Event>)
    requires NulFree(prompt)
    ensures var r := WaitForPromptChecked(prompt, input);
      r.value ==> IsSuffix(prompt, Received(Consumed(input, r.rest)))
  {
    ScanPromptSound(prompt, 0, input, []);
    assert [] + Received(Consumed(input, ScanPrompt(prompt, 0, input).rest))
      == Received(Consumed(input, ScanPrompt(prompt, 0, input).rest));
  }

  /** The text received up to `rest` is the first event's and then what the remaining events bring up to `rest`. */
  lemma SeenStep(input: seq<Event>, rest: seq<Event>, seen: string)
    requires |input| > 0 && IsSuffix(rest, input[1..])
    ensures seen + Received(Consumed(input, rest)) == seen + Received([input[0]]) + Received(Consumed(input[1..], rest))
  {
    ConsumedCons(input, rest);
  }

  /** The matcher recognises the prompt sent in one piece from cursor `k` on. */
  lemma {:induction false} ScanPromptReadsRest(prompt: string, k: nat, rest: seq<Event>)
    requires k <= |prompt|
    requires NoBreak(prompt)
    ensures ScanPrompt(prompt, k, Bytes(prompt[k..]) + rest) == PromptScan(true, rest)
    decreases |prompt| - k
  {
    if k < |prompt| {
      var input := Bytes(prompt[k..]) + rest;
      assert input[0] == Byte(prompt[k]);
      assert input[1..] == Bytes(prompt[k + 1..]) + rest;
      ScanPromptReadsRest(prompt, k + 1, rest);
    } else {
      assert Bytes(prompt[k..]) + rest == rest;
    }
  }

  /**
   * Completeness where the modem puts it: a prompt at the start of the
   * reply, or right after a line feed, is recognised and nothing after it
   * is consumed.
   */
  lemma PromptAfterLineFeedIsSeen(prompt: string, k: nat, rest: seq<Event>)
    requires 0 < |prompt| && k < |prompt|
    requires NulFree(prompt) && NoBreak(prompt)
    ensures WaitForPromptChecked(prompt, Bytes(prompt) + rest) == Waited(true, rest)
    ensures ScanPrompt(prompt, k, [Byte(LF)] + (Bytes(prompt) + rest)) == PromptScan(true, rest)
  {
    ScanPromptReadsRest(prompt, 0, rest);
    assert prompt[0..] == prompt;
    assert ([Byte(LF)] + (Bytes(prompt) + rest))[1..] == Bytes(prompt) + rest;
  }

  /** A mismatching byte is not compared again: "> " is never found in ">> ", although it ends it. */
  lemma DoubledPromptIsMissed()
    ensures IsSuffix("> ", ">> ")
    ensures ScanPrompt("> ", 0, Bytes(">> ")) == PromptScan(false, [])
  {
    var p := "> ";
    assert |p| == 2 && p[0] == '>' && p[1] == ' ';
    assert ">> "[1..] == p;
    var e0, e1, e2 := [Byte('>'), Byte('>'), Byte(' ')], [Byte('>'), Byte(' ')], [Byte(' ')];
    assert Bytes(">> ") == e0;
    assert NextCursor(p, 0, '>') == 1;
    assert NextCursor(p, 1, '>') == 0;
    assert NextCursor(p, 0, ' ') == 0;
    assert e0[1..] == e1 && e1[1..] == e2 && e2[1..] == [];
    assert ScanPrompt(p, 0, e2) == ScanPrompt(p, 0, []);
    assert ScanPrompt(p, 1, e1) == ScanPrompt(p, 0, e2);
    assert ScanPrompt(p, 0, e0) == ScanPrompt(p, 1, e1);
  }

  /** Nothing arrives and the deadline passes, yet `waitForPrompt` reports success. */
  lemma PromptTimeoutReportedAsSuccess()
    ensures !WaitForPromptChecked("> ", [Lapse]).value
    ensures WaitForPrompt("> ", [Lapse]).value
  {
  }
}
