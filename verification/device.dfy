/**
 * The modem lifecycle of `SIMx00` (SIMx00.cpp/.h) on top of the engine:
 * initialisation, power on and off, the liveness probe, echo suppression,
 * signal quality and network registration polls, product detection and the
 * prolog every connection runs.
 */
module Device {
  import opened Machine
  import opened Options
  import opened CText
  import opened Transport
  import opened Replies
  import opened Engine

  /**
   * `init(stream, onoff, bufferSize)`: a fresh modem object. `mallocOk` says
   * whether `malloc` returned the line buffer; `powered` is what the power
   * controller reports.
   */
  function Init(link: Link, bufferSize: nat, mallocOk: bool, powered: bool): (r: Modem)
    requires bufferSize >= 1
    ensures r.buf.Allocated? <==> mallocOk
    ensures r.buf.Allocated? ==> r.buf.capacity == bufferSize
    ensures !r.st.echoOff && !r.st.transMode && !r.st.skipCGATT && !r.st.changedSkipCGATT
    ensures r.st.product == UnknownProduct && r.st.ftpMaxLength == 0
    ensures r.st.lastRssi == 0 && r.st.csqTime == 0 && r.st.minSignalQuality == -93
  {
    Modem(link, if mallocOk then Allocated(bufferSize) else Unallocated,
          Settings(powered, false, 0, 0, DefaultMinSignalQuality, 0, false, false, false, UnknownProduct))
  }

  /** With the default size a line keeps at most 63 characters: one byte goes to the NUL. */
  lemma DefaultBufferKeeps63(link: Link, powered: bool, input: seq<Event>)
    ensures var m := Init(link, DefaultBufferSize, true, powered);
      var l := ReadLine(m.buf, input);
      l.line.Some? ==> |l.line.value| <= 63
  {
  }

  /** Without a line buffer no reply can be read, so every command fails. */
  lemma NoBufferNoOK(link: Link, powered: bool, cmd: string)
    ensures !SendCommandWaitForOK(Init(link, 1, false, powered), cmd).value
  {
    var m := Init(link, 1, false, powered);
    assert Lines(m.buf, NextReply(m.link)) == [];
  }

  // ---------------------------------------------------------------------
  // Retried commands, isAlive, on, off
  // ---------------------------------------------------------------------

  /** The reply to the `i`-th command from `m` on holds an "OK" before any "ERROR". */
  predicate OkAt(m: Modem, i: nat)
  {
    OkBeforeError(Lines(m.buf, ReplyAt(m.link, i)))
  }

  /** The verdict of the next command is the "OK" judgement of the script's next reply. */
  lemma FirstReplyIsOkAt(m: Modem, cmd: string)
    ensures SendCommandWaitForOK(m, cmd).value == OkAt(m, 0)
  {
  }

  /** After one command the replies are those of the script one further on. */
  lemma OkAtShift(m: Modem, m': Modem, i: nat)
    requires m'.buf == m.buf && m'.link.script == Advance(m.link)
    ensures OkAt(m', i) <==> OkAt(m, i + 1)
  {
    assert ReplyAt(m'.link, i) == ReplyAt(m.link, i + 1);
  }

  function Repeat<T>(x: T, k: nat): (r: seq<T>)
    ensures |r| == k && forall i :: 0 <= i < k ==> r[i] == x
  {
    if k == 0 then [] else [x] + Repeat(x, k - 1)
  }

  /** `n` tries of `attempt`, stopping at the first that succeeds: the loops of `isAlive` and `on`. */
  function Retry(attempt: Modem -> Step<bool>, m: Modem, n: nat): Step<bool>
    decreases n
  {
    if n == 0 then Step(false, m)
    else
      var s := attempt(m);
      if s.value then s else Retry(attempt, s.modem, n - 1)
  }

  /** Attempts that keep the buffer, the settings and the clock, keep them over a retry loop too. */
  lemma {:induction false} RetryKeepsState(attempt: Modem -> Step<bool>, m: Modem, n: nat)
    requires forall x :: SameState(attempt(x).modem, x)
    ensures SameState(Retry(attempt, m, n).modem, m)
    decreases n
  {
    if n > 0 && !attempt(m).value {
      RetryKeepsState(attempt, attempt(m).modem, n - 1);
    }
  }

  /**
   * When an attempt succeeds exactly when the reply it gets says so, and
   * each attempt moves on to the next reply, a retry loop of `n` succeeds
   * exactly when one of the next `n` replies says so.
   */
  lemma {:induction false} RetryVerdict(attempt: Modem -> Step<bool>, ok: (Modem, nat) -> bool, m: Modem, n: nat)
    requires forall x :: attempt(x).value == ok(x, 0)
    requires forall x, i: nat {:trigger ok(attempt(x).modem, i)} :: ok(attempt(x).modem, i) == ok(x, i + 1)
    ensures Retry(attempt, m, n).value <==> exists i :: 0 <= i < n && ok(m, i)
    decreases n
  {
    if n > 0 {
      var s := attempt(m);
      if !s.value {
        RetryVerdict(attempt, ok, s.modem, n - 1);
        if exists i :: 0 <= i < n && ok(m, i) {
          var i :| 0 <= i < n && ok(m, i);
          assert ok(s.modem, i - 1);
        }
      }
    }
  }

  /**
   * What a retry loop writes: the attempt's one transmission `k` times,
   * where the `k`-th reply is the first that succeeds, or `k` is `n` when
   * none does.
   */
  lemma {:induction false} RetrySends(attempt: Modem -> Step<bool>, ok: (Modem, nat) -> bool, t: Tx, m: Modem, n: nat)
    requires forall x :: attempt(x).value == ok(x, 0)
    requires forall x, i: nat {:trigger ok(attempt(x).modem, i)} :: ok(attempt(x).modem, i) == ok(x, i + 1)
    requires forall x :: attempt(x).modem.link.sent == x.link.sent + [t]
    ensures var r := Retry(attempt, m, n);
      var k := |r.modem.link.sent| - |m.link.sent|;
      && 0 <= k <= n
      && r.modem.link.sent == m.link.sent + Repeat(t, k)
      && (!r.value ==> k == n)
      && (r.value ==> k > 0 && ok(m, k - 1))
      && (forall j :: 0 <= j < k - 1 ==> !ok(m, j))
    decreases n
  {
    var r := Retry(attempt, m, n);
    if n == 0 {
      assert m.link.sent + Repeat(t, 0) == m.link.sent;
    } else {
      var s := attempt(m);
      if s.value {
        assert Repeat(t, 1) == [t];
      } else {
        RetrySends(attempt, ok, t, s.modem, n - 1);
        var k := |r.modem.link.sent| - |s.modem.link.sent|;
        assert Repeat(t, k + 1) == [t] + Repeat(t, k);
        forall j | 0 <= j < k
          ensures !ok(m, j)
        {
          if j > 0 {
            assert !ok(s.modem, j - 1);
          }
        }
      }
    }
  }

  /** A retry loop writes the attempt's transmission once per try: `n` times when every try failed. */
  lemma {:induction false} RetryCounts(attempt: Modem -> Step<bool>, t: Tx, m: Modem, n: nat) returns (k: nat)
    requires forall x :: attempt(x).modem.link.sent == x.link.sent + [t]
    ensures var r := Retry(attempt, m, n);
      && k == |r.modem.link.sent| - |m.link.sent|
      && k <= n
      && r.modem.link.sent == m.link.sent + Repeat(t, k)
      && (!r.value ==> k == n)
    decreases n
  {
    var r := Retry(attempt, m, n);
    if n == 0 {
      k := 0;
      assert m.link.sent + Repeat(t, 0) == m.link.sent;
    } else {
      var s := attempt(m);
      if s.value {
        k := 1;
        assert Repeat(t, 1) == [t];
      } else {
        var k' := RetryCounts(attempt, t, s.modem, n - 1);
        k := k' + 1;
        assert Repeat(t, k' + 1) == [t] + Repeat(t, k');
      }
    }
  }

  /** `a + b` tries are `a` tries, then `b` more when those failed. */
  lemma {:induction false} RetrySplit(attempt: Modem -> Step<bool>, m: Modem, a: nat, b: nat)
    ensures Retry(attempt, m, a + b) ==
      (var s := Retry(attempt, m, a); if s.value then s else Retry(attempt, s.modem, b))
    decreases a
  {
    if a > 0 {
      var s := attempt(m);
      if !s.value {
        RetrySplit(attempt, s.modem, a - 1, b);
      }
    }
  }

  /** `n` rounds of `k` tries are `k * n` tries in a row. */
  lemma {:induction false} RetryNest(inner: Modem -> Step<bool>, outer: Modem -> Step<bool>, m: Modem, k: nat, n: nat)
    requires forall x :: outer(x) == Retry(inner, x, k)
    ensures Retry(outer, m, n) == Retry(inner, m, k * n)
    decreases n
  {
    if n > 0 {
      assert k * n == k + k * (n - 1);
      RetrySplit(inner, m, k, k * (n - 1));
      var s := outer(m);
      if !s.value {
        RetryNest(inner, outer, s.modem, k, n - 1);
      }
    }
  }

  /** `sendCommandWaitForOK(cmd)` as one attempt of a retry loop. */
  function CommandOK(cmd: string): Modem -> Step<bool>
  {
    x => SendCommandWaitForOK(x, cmd)
  }

  /** Send `cmd` and wait for "OK", at most `n` times. */
  function RetryOK(m: Modem, cmd: string, n: nat): (r: Step<bool>)
    ensures SameState(r.modem, m)
  {
    CommandKeepsState(cmd);
    RetryKeepsState(CommandOK(cmd), m, n);
    Retry(CommandOK(cmd), m, n)
  }

  lemma CommandKeepsState(cmd: string)
    ensures forall x :: SameState(CommandOK(cmd)(x).modem, x)
  {
  }

  /** A command with an "OK" wait meets the hypotheses of the retry lemmas. */
  lemma CommandAttempt(cmd: string)
    ensures forall x :: CommandOK(cmd)(x).value == OkAt(x, 0)
    ensures forall x, i: nat {:trigger OkAt(CommandOK(cmd)(x).modem, i)} ::
      OkAt(CommandOK(cmd)(x).modem, i) == OkAt(x, i + 1)
    ensures forall x :: CommandOK(cmd)(x).modem.link.sent == x.link.sent + [Command(cmd)]
  {
    forall x, i: nat
      ensures OkAt(CommandOK(cmd)(x).modem, i) == OkAt(x, i + 1)
    {
      OkAtShift(x, CommandOK(cmd)(x).modem, i);
    }
  }

  /** `RetryOK` succeeds exactly when one of the next `n` replies holds "OK" before "ERROR". */
  lemma RetryOKVerdict(m: Modem, cmd: string, n: nat)
    ensures RetryOK(m, cmd, n).value <==> exists i :: 0 <= i < n && OkAt(m, i)
  {
    CommandAttempt(cmd);
    RetryVerdict(CommandOK(cmd), OkAt, m, n);
  }

  /** `RetryOK` sends `cmd` once per try, and stops after the first "OK". */
  lemma RetryOKSends(m: Modem, cmd: string, n: nat)
    ensures var r := RetryOK(m, cmd, n);
      var k := |r.modem.link.sent| - |m.link.sent|;
      && 0 <= k <= n
      && r.modem.link.sent == m.link.sent + Repeat(Command(cmd), k)
      && (!r.value ==> k == n)
      && (r.value ==> k > 0 && OkAt(m, k - 1))
      && (forall j :: 0 <= j < k - 1 ==> !OkAt(m, j))
  {
    RetryOKCounts(m, cmd, n);
    RetryOKStopsAtFirstOk(m, cmd, n);
  }

  lemma RetryOKCounts(m: Modem, cmd: string, n: nat)
    ensures var r := RetryOK(m, cmd, n);
      var k := |r.modem.link.sent| - |m.link.sent|;
      && 0 <= k <= n
      && r.modem.link.sent == m.link.sent + Repeat(Command(cmd), k)
      && (!r.value ==> k == n)
  {
    RetryOKCountBound(m, cmd, n);
    RetryOKRepeats(m, cmd, n);
  }

  lemma RetryOKCountBound(m: Modem, cmd: string, n: nat)
    ensures var r := RetryOK(m, cmd, n);
      var k := |r.modem.link.sent| - |m.link.sent|;
      0 <= k <= n && (!r.value ==> k == n)
  {
    CommandSends(cmd);
    var k := RetryCounts(CommandOK(cmd), Command(cmd), m, n);
  }

  lemma RetryOKRepeats(m: Modem, cmd: string, n: nat)
    ensures var r := RetryOK(m, cmd, n);
      && |r.modem.link.sent| >= |m.link.sent|
      && r.modem.link.sent == m.link.sent + Repeat(Command(cmd), |r.modem.link.sent| - |m.link.sent|)
  {
    var r := RetryOK(m, cmd, n);
    CommandSends(cmd);
    var k := RetryCounts(CommandOK(cmd), Command(cmd), m, n);
    assert r.modem.link.sent == m.link.sent + Repeat(Command(cmd), k);
  }

  lemma CommandSends(cmd: string)
    ensures forall x :: CommandOK(cmd)(x).modem.link.sent == x.link.sent + [Command(cmd)]
  {
  }

  lemma RetryOKStopsAtFirstOk(m: Modem, cmd: string, n: nat)
    ensures StopsAtFirstOk(m, RetryOK(m, cmd, n))
  {
    RetryOKIsRetry(m, cmd, n);
    CommandRetryStops(cmd, m, n);
  }

  /** The run `r` from `m` succeeded on the last command it sent, and every earlier one was refused. */
  predicate StopsAtFirstOk(m: Modem, r: Step<bool>)
  {
    var k := |r.modem.link.sent| - |m.link.sent|;
    && (r.value ==> k > 0 && OkAt(m, k - 1))
    && (forall j :: 0 <= j < k - 1 ==> !OkAt(m, j))
  }

  lemma RetryOKIsRetry(m: Modem, cmd: string, n: nat)
    ensures RetryOK(m, cmd, n) == Retry(CommandOK(cmd), m, n)
  {
  }

  lemma CommandRetryStops(cmd: string, m: Modem, n: nat)
    ensures StopsAtFirstOk(m, Retry(CommandOK(cmd), m, n))
  {
    CommandAttempt(cmd);
    RetrySends(CommandOK(cmd), OkAt, Command(cmd), m, n);
  }

  /** A retry loop of one-command attempts has used up one reply per command it sent. */
  lemma {:induction false} RetryAdvances(attempt: Modem -> Step<bool>, t: Tx, m: Modem, n: nat)
    requires forall x :: attempt(x).modem.link.sent == x.link.sent + [t]
    requires forall x :: attempt(x).modem.link.script == Advance(x.link)
    ensures var r := Retry(attempt, m, n);
      && |r.modem.link.sent| >= |m.link.sent|
      && r.modem.link.script == Skip(m.link.script, |r.modem.link.sent| - |m.link.sent|)
    decreases n
  {
    if n > 0 {
      var s := attempt(m);
      if !s.value {
        RetryAdvances(attempt, t, s.modem, n - 1);
        SkipSkip(m.link.script, 1, |Retry(attempt, s.modem, n - 1).modem.link.sent| - |s.modem.link.sent|);
      }
    }
  }

  /** The replies left after `RetryOK`: one used per "cmd" sent. */
  lemma RetryOKAdvances(m: Modem, cmd: string, n: nat)
    ensures var r := RetryOK(m, cmd, n);
      && |r.modem.link.sent| >= |m.link.sent|
      && r.modem.link.script == Skip(m.link.script, |r.modem.link.sent| - |m.link.sent|)
  {
    CommandAdvances(cmd);
    RetryAdvances(CommandOK(cmd), Command(cmd), m, n);
    assert RetryOK(m, cmd, n) == Retry(CommandOK(cmd), m, n);
  }

  /** A command with an "OK" wait sends the command and uses up one reply. */
  lemma CommandAdvances(cmd: string)
    ensures forall x :: CommandOK(cmd)(x).modem.link.sent == x.link.sent + [Command(cmd)]
    ensures forall x :: CommandOK(cmd)(x).modem.link.script == Advance(x.link)
  {
  }

  /** The reply judgements seen from a modem `k` replies further on. */
  lemma OkAtSkip(m: Modem, m': Modem, k: nat, i: nat)
    requires m'.buf == m.buf && m'.link.script == Skip(m.link.script, k)
    ensures OkAt(m', i) <==> OkAt(m, i + k)
  {
    ReplyAtSkip(m.link, m'.link, k, i);
  }

  /**
   * A run of commands each of which must be answered "OK": the first one
   * that is not ends the run with false; the commands after it are not sent.
   */
  function AllOK(m: Modem, cmds: seq<string>): (r: Step<bool>)
    ensures SameState(r.modem, m)
    decreases |cmds|
  {
    if |cmds| == 0 then Step(true, m)
    else
      var c := SendCommandWaitForOK(m, cmds[0]);
      if !c.value then c else AllOK(c.modem, cmds[1..])
  }

  /** A run succeeds exactly when the reply to each of its commands holds "OK" before "ERROR". */
  lemma {:induction false} AllOKVerdict(m: Modem, cmds: seq<string>)
    ensures AllOK(m, cmds).value <==> forall i :: 0 <= i < |cmds| ==> OkAt(m, i)
    decreases |cmds|
  {
    if |cmds| > 0 {
      var c := SendCommandWaitForOK(m, cmds[0]);
      FirstReplyIsOkAt(m, cmds[0]);
      if c.value {
        var tail := cmds[1..];
        AllOKVerdict(c.modem, tail);
        if AllOK(c.modem, tail).value {
          forall i | 0 < i < |cmds|
            ensures OkAt(m, i)
          {
            OkAtShift(m, c.modem, i - 1);
          }
        } else {
          var j :| 0 <= j < |tail| && !OkAt(c.modem, j);
          OkAtShift(m, c.modem, j);
        }
      }
    }
  }

  /**
   * What a run sends: its commands in order up to the first refused one,
   * and one reply used per command; all of them when it succeeds.
   */
  lemma {:induction false} AllOKSends(m: Modem, cmds: seq<string>)
    ensures var r := AllOK(m, cmds);
      var k := |r.modem.link.sent| - |m.link.sent|;
      && 0 <= k <= |cmds|
      && r.modem.link.sent == m.link.sent + AsCommands(cmds[..k])
      && (r.value ==> k == |cmds|)
    decreases |cmds|
  {
    var r := AllOK(m, cmds);
    if |cmds| == 0 {
      assert AsCommands(cmds[..0]) == [];
    } else {
      var c := SendCommandWaitForOK(m, cmds[0]);
      if !c.value {
        assert AsCommands(cmds[..1]) == [Command(cmds[0])];
      } else {
        AllOKSends(c.modem, cmds[1..]);
        var k := |r.modem.link.sent| - |c.modem.link.sent|;
        AsCommandsPrefix(cmds, k);
        AppendAssoc(m.link.sent, [Command(cmds[0])], AsCommands(cmds[1..][..k]));
      }
    }
  }

  lemma AsCommandsPrefix(cmds: seq<string>, k: nat)
    requires k < |cmds|
    ensures AsCommands(cmds[..k + 1]) == [Command(cmds[0])] + AsCommands(cmds[1..][..k])
  {
    assert cmds[..k + 1][1..] == cmds[1..][..k];
  }

  /** The replies left after a run: one used per command sent. */
  lemma AllOKAdvances(m: Modem, cmds: seq<string>)
    ensures var r := AllOK(m, cmds);
      && |r.modem.link.sent| >= |m.link.sent|
      && r.modem.link.script == Skip(m.link.script, |r.modem.link.sent| - |m.link.sent|)
  {
    var k := AllOKSkips(m, cmds);
  }

  lemma {:induction false} AllOKSkips(m: Modem, cmds: seq<string>) returns (k: nat)
    ensures k == |AllOK(m, cmds).modem.link.sent| - |m.link.sent|
    ensures AllOK(m, cmds).modem.link.script == Skip(m.link.script, k)
    decreases |cmds|
  {
    if |cmds| == 0 {
      assert m.link.script[0..] == m.link.script;
      k := 0;
    } else {
      var c := SendCommandWaitForOK(m, cmds[0]);
      CommandUsesOneReply(m, cmds[0]);
      if c.value {
        var j := AllOKSkips(c.modem, cmds[1..]);
        assert AllOK(m, cmds) == AllOK(c.modem, cmds[1..]);
        SkipSkip(m.link.script, 1, j);
        k := j + 1;
      } else {
        assert AllOK(m, cmds) == c;
        k := 1;
      }
    }
  }

  lemma CommandUsesOneReply(m: Modem, cmd: string)
    ensures var c := SendCommandWaitForOK(m, cmd);
      && |c.modem.link.sent| == |m.link.sent| + 1
      && c.modem.link.script == Skip(m.link.script, 1)
  {
  }

  /** A run whose every command is accepted leaves the reply after the last one next in line. */
  lemma RunAccepted(m: Modem, cmds: seq<string>)
    requires forall i :: 0 <= i < |cmds| ==> OkAt(m, i)
    ensures var a := AllOK(m, cmds);
      && a.value && a.modem.buf == m.buf
      && NextReply(a.modem.link) == ReplyAt(m.link, |cmds|)
  {
    var a := AllOK(m, cmds);
    AllOKVerdict(m, cmds);
    AllOKSends(m, cmds);
    AllOKAdvances(m, cmds);
    ReplyAtSkip(m.link, a.modem.link, |cmds|, 0);
  }

  /** `isAlive()`: "AT" and a wait for "OK", up to three times. */
  function IsAlive(m: Modem): (r: Step<bool>)
    ensures SameState(r.modem, m)
    ensures r.value <==> exists i :: 0 <= i < 3 && OkAt(m, i)
  {
    RetryOKVerdict(m, "AT", 3);
    RetryOK(m, "AT", 3)
  }

  /**
   * `on()`: power the modem up if the controller reports it off, then probe
   * with up to ten rounds of `isAlive`; the result is `isOn()` after a probe
   * succeeded, which the powered controller confirms.
   */
  function On(m: Modem): (r: Step<bool>)
    ensures r.modem.st == m.st.(powered := true)
    ensures r.modem.buf == m.buf && r.modem.link.clock == m.link.clock
  {
    var p := m.(st := m.st.(powered := true));
    RetryKeepsState(IsAlive, p, 10);
    Retry(IsAlive, p, 10)
  }

  /** `on()` is thirty "AT" probes in a row, and succeeds exactly when one of them is answered "OK". */
  lemma OnProbes30(m: Modem)
    ensures On(m) == RetryOK(m.(st := m.st.(powered := true)), "AT", 30)
    ensures On(m).value <==> exists i :: 0 <= i < 30 && OkAt(m, i)
  {
    var p := m.(st := m.st.(powered := true));
    RetryNest(CommandOK("AT"), IsAlive, p, 3, 10);
    RetryOKVerdict(p, "AT", 30);
    assert forall i: nat :: OkAt(p, i) == OkAt(m, i);
  }

  /** `off()`: power down whatever the state and forget the echo setting; the result is `!isOn()`. */
  function Off(m: Modem): (r: Step<bool>)
    ensures r.value && !r.modem.st.powered && !r.modem.st.echoOff
    ensures r.modem.link == m.link && r.modem.buf == m.buf
    ensures r.modem.st == m.st.(powered := false, echoOff := false)
  {
    Step(true, m.(st := m.st.(powered := false, echoOff := false)))
  }

  // ---------------------------------------------------------------------
  // Echo
  // ---------------------------------------------------------------------

  /** `disableCIURC()`: "AT+CIURC=0", verdict ignored. */
  function DisableCIURC(m: Modem): (r: Modem)
    ensures SameState(r, m)
    ensures r.link.sent == m.link.sent + [Command("AT+CIURC=0")]
  {
    SendCommandWaitForOK(m, "AT+CIURC=0").modem
  }

  /**
   * `switchEchoOff()`: nothing when echo is already off; otherwise "ATE0",
   * and only when that is answered "OK" also "AT+CIURC=0" and the flag.
   */
  function SwitchEchoOff(m: Modem): (r: Modem)
    ensures r.st == m.st.(echoOff := m.st.echoOff || OkAt(m, 0))
    ensures r.buf == m.buf && r.link.clock == m.link.clock
  {
    if m.st.echoOff then m
    else
      var s := SendCommandWaitForOK(m, "ATE0");
      FirstReplyIsOkAt(m, "ATE0");
      if !s.value then s.modem
      else
        var c := DisableCIURC(s.modem);
        c.(st := c.st.(echoOff := true))
  }

  /** The commands `switchEchoOff` writes: none when echo is off, else "ATE0" and, after an "OK", "AT+CIURC=0". */
  lemma SwitchEchoOffSends(m: Modem)
    ensures m.st.echoOff ==> SwitchEchoOff(m) == m
    ensures !m.st.echoOff && OkAt(m, 0) ==>
      SwitchEchoOff(m).link.sent == m.link.sent + [Command("ATE0"), Command("AT+CIURC=0")]
    ensures !m.st.echoOff && !OkAt(m, 0) ==> SwitchEchoOff(m).link.sent == m.link.sent + [Command("ATE0")]
  {
    if !m.st.echoOff {
      var s := SendCommandWaitForOK(m, "ATE0");
      FirstReplyIsOkAt(m, "ATE0");
    }
  }

  /** Once echo is off a second call sends nothing. */
  lemma SwitchEchoOffIdempotent(m: Modem)
    requires SwitchEchoOff(m).st.echoOff
    ensures SwitchEchoOff(SwitchEchoOff(m)) == SwitchEchoOff(m)
  {
  }

  /** `off()` clears the echo flag, so the next `switchEchoOff` sends "ATE0" again. */
  lemma OffForgetsEcho(m: Modem)
    ensures var o := Off(m).modem;
      SwitchEchoOff(o).link.sent[|o.link.sent|] == Command("ATE0")
  {
    var o := Off(m).modem;
    SwitchEchoOffSends(o);
  }

  // ---------------------------------------------------------------------
  // Polling until a deadline
  // ---------------------------------------------------------------------

  /** What one round of a polling loop found: a result, a reason to stop, or nothing yet. */
  datatype Polled<T> = Found(found: T) | GiveUp | Again

  /**
   * `while (!isTimedOut(ts_max)) { ... }`: each round first reads the clock
   * for the loop test, then polls; the loop ends with the first result, a
   * reason to stop, or the deadline.
   */
  function PollUntil<T>(attempt: Modem -> Step<Polled<T>>, m: Modem, deadline: u32): (r: Step<Option<T>>)
    requires forall x :: attempt(x).modem.link.clock == x.link.clock
    decreases |m.link.clock|
  {
    if Expired(m, deadline) then Step(None, m)
    else
      var s := attempt(Tick(m));
      match s.value
      case Found(v) => Step(Some(v), s.modem)
      case GiveUp => Step(None, s.modem)
      case Again => PollUntil(attempt, s.modem, deadline)
  }

  /** Rounds that keep the buffer and the settings keep them over the whole loop. */
  lemma {:induction false} PollKeepsSettings<T>(attempt: Modem -> Step<Polled<T>>, m: Modem, deadline: u32)
    requires forall x :: attempt(x).modem.link.clock == x.link.clock
    requires forall x :: attempt(x).modem.st == x.st && attempt(x).modem.buf == x.buf
    ensures PollUntil(attempt, m, deadline).modem.st == m.st
    ensures PollUntil(attempt, m, deadline).modem.buf == m.buf
    decreases |m.link.clock|
  {
    if !Expired(m, deadline) && attempt(Tick(m)).value.Again? {
      PollKeepsSettings(attempt, attempt(Tick(m)).modem, deadline);
    }
  }

  /** Whatever the loop returns, some round found. */
  lemma {:induction false} PollFound<T>(attempt: Modem -> Step<Polled<T>>, good: T -> bool, m: Modem, deadline: u32)
    requires forall x :: attempt(x).modem.link.clock == x.link.clock
    requires forall x :: attempt(x).value.Found? ==> good(attempt(x).value.found)
    ensures PollUntil(attempt, m, deadline).value.Some? ==> good(PollUntil(attempt, m, deadline).value.value)
    decreases |m.link.clock|
  {
    if !Expired(m, deadline) && attempt(Tick(m)).value.Again? {
      PollFound(attempt, good, attempt(Tick(m)).modem, deadline);
    }
  }

  /** The modem after `k` rounds of the loop, each starting with the loop test's clock reading. */
  function After<T>(attempt: Modem -> Step<Polled<T>>, m: Modem, k: nat): Modem
    decreases k
  {
    if k == 0 then m else After(attempt, attempt(Tick(m)).modem, k - 1)
  }

  /** A round that goes on: the deadline has not passed, and the poll asks for another round. */
  predicate GoesOn<T>(attempt: Modem -> Step<Polled<T>>, m: Modem, deadline: u32)
  {
    !Expired(m, deadline) && attempt(Tick(m)).value.Again?
  }

  /** Round `k` finds, before the deadline, and every round before it went on. */
  predicate FoundInRound<T>(attempt: Modem -> Step<Polled<T>>, m: Modem, deadline: u32, k: nat)
  {
    && (forall j :: 0 <= j < k ==> GoesOn(attempt, After(attempt, m, j), deadline))
    && !Expired(After(attempt, m, k), deadline)
    && attempt(Tick(After(attempt, m, k))).value.Found?
  }

  /** The result round `k` found. */
  function FoundValue<T>(attempt: Modem -> Step<Polled<T>>, m: Modem, deadline: u32, k: nat): T
    requires FoundInRound(attempt, m, deadline, k)
  {
    attempt(Tick(After(attempt, m, k))).value.found
  }

  /** Finding in round `k + 1` is going on in the first round and finding `k` rounds later. */
  lemma FoundInLaterRound<T>(attempt: Modem -> Step<Polled<T>>, m: Modem, deadline: u32, k: nat)
    ensures FoundInRound(attempt, m, deadline, k + 1) <==>
      GoesOn(attempt, m, deadline) && FoundInRound(attempt, attempt(Tick(m)).modem, deadline, k)
  {
    var next := attempt(Tick(m)).modem;
    if FoundInRound(attempt, m, deadline, k + 1) {
      assert GoesOn(attempt, After(attempt, m, 0), deadline);
      forall j | 0 <= j < k
        ensures GoesOn(attempt, After(attempt, next, j), deadline)
      {
        assert After(attempt, m, j + 1) == After(attempt, next, j);
      }
    }
    if GoesOn(attempt, m, deadline) && FoundInRound(attempt, next, deadline, k) {
      forall j | 0 <= j < k + 1
        ensures GoesOn(attempt, After(attempt, m, j), deadline)
      {
        if j > 0 {
          assert After(attempt, m, j) == After(attempt, next, j - 1);
        }
      }
    }
  }

  /**
   * The loop's verdict: it returns a result exactly when some round before
   * the deadline found one and every earlier round went on, and the result
   * is what that round found.
   */
  lemma {:induction false} PollVerdict<T>(attempt: Modem -> Step<Polled<T>>, m: Modem, deadline: u32)
    requires forall x :: attempt(x).modem.link.clock == x.link.clock
    ensures PollUntil(attempt, m, deadline).value.Some? <==> exists k: nat :: FoundInRound(attempt, m, deadline, k)
    ensures forall k: nat :: FoundInRound(attempt, m, deadline, k) ==>
      PollUntil(attempt, m, deadline).value == Some(FoundValue(attempt, m, deadline, k))
    decreases |m.link.clock|
  {
    var r := PollUntil(attempt, m, deadline);
    var next := attempt(Tick(m)).modem;
    forall k: nat | FoundInRound(attempt, m, deadline, k)
      ensures r.value == Some(FoundValue(attempt, m, deadline, k))
    {
      if k > 0 {
        FoundInLaterRound(attempt, m, deadline, k - 1);
        PollVerdict(attempt, next, deadline);
      }
    }
    if r.value.Some? {
      if GoesOn(attempt, m, deadline) {
        PollVerdict(attempt, next, deadline);
        var k: nat :| FoundInRound(attempt, next, deadline, k);
        FoundInLaterRound(attempt, m, deadline, k);
      } else {
        assert FoundInRound(attempt, m, deadline, 0);
      }
    }
  }

  /** Once the clock readings say the deadline has passed, the loop polls no more. */
  lemma PollAfterDeadline<T>(attempt: Modem -> Step<Polled<T>>, m: Modem, deadline: u32)
    requires forall x :: attempt(x).modem.link.clock == x.link.clock
    requires |m.link.clock| > 0 && IsTimedOut(m.link.clock[0], deadline)
    ensures PollUntil(attempt, m, deadline) == Step(None, m)
  {
  }

  /** A first round that finds ends the loop with that result. */
  lemma PollFirstRound<T>(attempt: Modem -> Step<Polled<T>>, m: Modem, deadline: u32)
    requires forall x :: attempt(x).modem.link.clock == x.link.clock
    requires |m.link.clock| > 0 && !IsTimedOut(m.link.clock[0], deadline)
    requires attempt(Tick(m)).value.Found?
    ensures PollUntil(attempt, m, deadline) == Step(Some(attempt(Tick(m)).value.found), attempt(Tick(m)).modem)
  {
  }

  /**
   * `for (retry = 0; retry < n; retry++) { ... }` whose body may break with
   * a result, leave the function, or go round again: at most `n` rounds.
   */
  function Attempts<T>(attempt: Modem -> Step<Polled<T>>, m: Modem, n: nat): Step<Option<T>>
    decreases n
  {
    if n == 0 then Step(None, m)
    else
      var s := attempt(m);
      match s.value
      case Found(v) => Step(Some(v), s.modem)
      case GiveUp => Step(None, s.modem)
      case Again => Attempts(attempt, s.modem, n - 1)
  }

  /** A round that gives up ends the counted loop at once, with nothing found. */
  lemma GiveUpEndsAttempts<T>(attempt: Modem -> Step<Polled<T>>, m: Modem, n: nat)
    requires n > 0 && attempt(m).value == GiveUp
    ensures Attempts(attempt, m, n) == Step(None, attempt(m).modem)
  {
  }

  /** Whatever the loop returns, some round found. */
  lemma {:induction false} AttemptsFound<T>(attempt: Modem -> Step<Polled<T>>, good: (Modem, T) -> bool, m: Modem, n: nat)
    requires forall x :: attempt(x).value.Found? ==> good(attempt(x).modem, attempt(x).value.found)
    ensures var r := Attempts(attempt, m, n); r.value.Some? ==> good(r.modem, r.value.value)
    decreases n
  {
    if n > 0 && attempt(m).value.Again? {
      AttemptsFound(attempt, good, attempt(m).modem, n - 1);
    }
  }

  /** Rounds that keep the buffer, the settings and the clock keep them over the loop. */
  lemma {:induction false} AttemptsKeepState<T>(attempt: Modem -> Step<Polled<T>>, m: Modem, n: nat)
    requires forall x :: SameState(attempt(x).modem, x)
    ensures SameState(Attempts(attempt, m, n).modem, m)
    decreases n
  {
    if n > 0 && attempt(m).value.Again? {
      AttemptsKeepState(attempt, attempt(m).modem, n - 1);
    }
  }

  // ---------------------------------------------------------------------
  // Signal quality
  // ---------------------------------------------------------------------

  /** Bit error rates in hundredths of a percent by RXQUAL class (subclause 8.2.4 of 3GPP TS 45.008). */
  const BerValues: seq<u8> := [49, 43, 37, 25, 19, 13, 7, 0]

  /** The table lookup of `getRSSIAndBER`: 99 and classes outside the table give 0. */
  function BerOf(raw: int): (r: u8)
    ensures 0 <= raw < 8 ==> r == BerValues[raw]
    ensures raw == 99 || raw < 0 || raw >= 8 ==> r == 0
  {
    if raw == 99 || raw < 0 || raw >= |BerValues| then 0 else BerValues[raw]
  }

  datatype Signal = Signal(rssi: i8, ber: u8)

  /**
   * `getRSSIAndBER`: "AT+CSQ" read with `getIntValue`; the RSSI is mapped
   * to dBm. The BER field is never parsed, so the class looked up is always 0.
   */
  function GetRssiAndBer(m: Modem): (r: Step<Option<Signal>>)
    ensures var g := GetIntValue(m, "AT+CSQ", "+CSQ:");
      && (r.value.Some? <==> g.value.ok)
      && (r.value.Some? ==> r.value.value == Signal(RssiFromCsq(g.value.written.value), 49))
      && r.modem == g.modem
  {
    var g := GetIntValue(m, "AT+CSQ", "+CSQ:");
    if g.value.ok then Step(Some(Signal(RssiFromCsq(g.value.written.value), BerOf(0))), g.modem)
    else Step(None, g.modem)
  }

  /** A reply "+CSQ: <n>,<ber>" with "OK" gives `-113 + 2 * n` dBm, for every CSQ value 0..31. */
  lemma CsqReadsRssi(m: Modem, sp: string, n: nat, tail: string)
    requires n <= 31
    requires forall i :: 0 <= i < |sp| ==> sp[i] == ' '
    requires Plain(tail) && (|tail| == 0 || DigitValue(tail[0]) == 36)
    requires m.buf.Allocated? && 5 + |sp| + |NatDigits(n)| + |tail| < m.buf.capacity
    requires NextReply(m.link) == Line("+CSQ:" + (sp + (NatDigits(n) + tail))) + Line("OK")
    ensures GetRssiAndBer(m).value == Some(Signal(-113 + 2 * n, 49))
  {
    var reply := "+CSQ:";
    PrintableIsPlain(reply);
    GetIntValueReadsNumber(m, "AT+CSQ", reply, sp, n, tail);
    assert RssiFromCsq(n) == -113 + 2 * n;
  }

  /** The signal poll budget of `waitForSignalQuality`, in ms. */
  const CsqBudget: u32 := 30000

  /** The time `waitForSignalQuality` stores: `(int32_t)(millis() - start) / 1000` in a `uint8_t`. */
  function CsqSeconds(start: u32, now: u32): u8
  {
    ToU8(CDiv(ToI32(ToU32(now - start)), 1000))
  }

  /** Below 256 s the stored time is the elapsed whole seconds. */
  lemma CsqSecondsCounts(start: u32, now: u32)
    requires ToU32(now - start) < 256000
    ensures CsqSeconds(start, now) == ToU32(now - start) / 1000
  {
    var e := ToU32(now - start);
    ToI32OfSmall(e);
    assert 0 <= e / 1000 < 256;
  }

  /** The test of `waitForSignalQuality`: a known RSSI, at least the minimum quality. */
  predicate Acceptable(rssi: int, minSignalQuality: int)
  {
    rssi != 0 && rssi >= minSignalQuality
  }

  /** One round of `waitForSignalQuality`: an acceptable RSSI is a result. */
  function CsqRound(minSignalQuality: i32, m: Modem): (r: Step<Polled<i8>>)
    ensures r.modem.st == m.st && r.modem.buf == m.buf && r.modem.link.clock == m.link.clock
    ensures var g := GetRssiAndBer(m).value;
      r.value.Found? <==> g.Some? && Acceptable(g.value.rssi, minSignalQuality)
    ensures r.value.Found? ==> r.value.found == GetRssiAndBer(m).value.value.rssi && Acceptable(r.value.found, minSignalQuality)
    ensures !r.value.GiveUp?
  {
    var g := GetRssiAndBer(m);
    if g.value.Some? && Acceptable(g.value.value.rssi, minSignalQuality) then Step(Found(g.value.value.rssi), g.modem)
    else Step(Again, g.modem)
  }

  function CsqRounds(minSignalQuality: i32): Modem -> Step<Polled<i8>>
  {
    x => CsqRound(minSignalQuality, x)
  }

  /**
   * `waitForSignalQuality()`: poll "AT+CSQ" until a known RSSI reaches the
   * minimum or 30 s pass. Success records the RSSI and the seconds taken,
   * from a last clock reading; failure records 0 ("not known").
   */
  function WaitForSignalQuality(m: Modem): (r: Step<bool>)
    ensures r.value ==> Acceptable(r.modem.st.lastRssi, m.st.minSignalQuality)
    ensures !r.value ==> r.modem.st.lastRssi == 0
    ensures r.modem.st == m.st.(lastRssi := r.modem.st.lastRssi, csqTime := r.modem.st.csqTime)
    ensures r.modem.buf == m.buf
  {
    var start := Millis(m);
    var round := CsqRounds(m.st.minSignalQuality);
    PollKeepsSettings(round, Tick(m), Deadline(start, CsqBudget));
    PollFound(round, (v: i8) => Acceptable(v, m.st.minSignalQuality), Tick(m), Deadline(start, CsqBudget));
    var p := PollUntil(round, Tick(m), Deadline(start, CsqBudget));
    match p.value
    case None => Step(false, p.modem.(st := p.modem.st.(lastRssi := 0)))
    case Some(rssi) =>
      var d := Tick(p.modem);
      Step(true, d.(st := d.st.(lastRssi := rssi, csqTime := CsqSeconds(start, Millis(p.modem)))))
  }

  /**
   * `waitForSignalQuality` succeeds exactly when, before the 30 s deadline,
   * some poll reads an acceptable RSSI and every earlier poll did not; the
   * RSSI recorded is the one that poll read.
   */
  lemma SignalVerdict(m: Modem)
    ensures var round, deadline := CsqRounds(m.st.minSignalQuality), Deadline(Millis(m), CsqBudget);
      && (WaitForSignalQuality(m).value <==> exists k: nat :: FoundInRound(round, Tick(m), deadline, k))
      && forall k: nat :: FoundInRound(round, Tick(m), deadline, k) ==>
           WaitForSignalQuality(m).modem.st.lastRssi == FoundValue(round, Tick(m), deadline, k)
  {
    PollVerdict(CsqRounds(m.st.minSignalQuality), Tick(m), Deadline(Millis(m), CsqBudget));
  }

  /** A clock reading is taken off the front. */
  lemma TickTakes(m: Modem, c: u32, later: seq<u32>)
    requires m.link.clock == [c] + later
    ensures Millis(m) == c && Tick(m).link.clock == later
  {
    assert ([c] + later)[1..] == later;
  }

  /** A round that reads an acceptable RSSI finds it. */
  lemma CsqRoundFinds(minSignalQuality: i32, m: Modem)
    requires var g := GetRssiAndBer(m).value; g.Some? && Acceptable(g.value.rssi, minSignalQuality)
    ensures CsqRound(minSignalQuality, m) == Step(Found(GetRssiAndBer(m).value.value.rssi), GetRssiAndBer(m).modem)
  {
  }

  /**
   * A first poll, within the budget, that reads an acceptable RSSI ends the
   * wait at once: that RSSI is recorded, and the seconds between the first
   * clock reading and the third.
   */
  lemma SignalOnFirstPoll(m: Modem, start: u32, test: u32, done: u32, later: seq<u32>)
    requires m.link.clock == [start] + ([test] + ([done] + later))
    requires !IsTimedOut(test, Deadline(start, CsqBudget))
    requires var g := GetRssiAndBer(Tick(Tick(m))).value;
      g.Some? && Acceptable(g.value.rssi, m.st.minSignalQuality)
    ensures var r := WaitForSignalQuality(m);
      && r.value
      && r.modem.st.lastRssi == GetRssiAndBer(Tick(Tick(m))).value.value.rssi
      && r.modem.st.csqTime == CsqSeconds(start, done)
  {
    var round := CsqRounds(m.st.minSignalQuality);
    TickTakes(m, start, [test] + ([done] + later));
    var t := Tick(m);
    TickTakes(t, test, [done] + later);
    var t2 := Tick(t);
    CsqRoundFinds(m.st.minSignalQuality, t2);
    PollFirstRound(round, t, Deadline(start, CsqBudget));
    TickTakes(GetRssiAndBer(t2).modem, done, later);
  }

  /** A budget that has run out at the first test leaves the RSSI unknown, with nothing sent. */
  lemma SignalTimeout(m: Modem, start: u32, test: u32, later: seq<u32>)
    requires m.link.clock == [start] + ([test] + later)
    requires IsTimedOut(test, Deadline(start, CsqBudget))
    ensures var r := WaitForSignalQuality(m);
      !r.value && r.modem.st.lastRssi == 0 && r.modem.link.sent == m.link.sent
  {
    TickTakes(m, start, [test] + later);
    PollAfterDeadline(CsqRounds(m.st.minSignalQuality), Tick(m), Deadline(start, CsqBudget));
  }

  // ---------------------------------------------------------------------
  // Network registration
  // ---------------------------------------------------------------------

  /** The registration poll budget of `waitForCREG`, in ms. */
  const CregBudget: u32 := 120000

  /**
   * The `<stat>` of a "+CREG:" line: `strtoul` of the text after the first
   * comma, as an `int`; 0 when there is no comma.
   */
  function CregValue(line: string): i32
  {
    var c := CStr(line);
    match Find(c, ',')
    case None => 0
    case Some(i) => ToI32(Strtoul(c[i + 1..], 0).value)
  }

  /** Registered, home network (1) or roaming (5) (subclause 7.2 of 3GPP TS 27.007). */
  predicate Registered(v: int)
  {
    v == 1 || v == 5
  }

  /** The number after the first comma is the status `waitForCREG` judges; without a comma it is 0. */
  lemma CregValueReadsStatus(head: string, stat: nat, rest: string)
    requires NulFree(head) && ',' !in head
    requires stat < I32Half
    requires NulFree(rest) && (|rest| == 0 || DigitValue(rest[0]) == 36)
    ensures CregValue(head + ([','] + (NatDigits(stat) + rest))) == stat
    ensures CregValue(head) == 0
  {
    var d := NatDigits(stat);
    DigitsArePlain(stat);
    var line := head + ([','] + (d + rest));
    assert NulFree(line);
    CStrOfNulFree(line);
    CStrOfNulFree(head);
    FindAfterHead(head, ',', d + rest);
    assert line[|head| + 1..] == d + rest;
    StrtoulReadsItoa(stat, rest, 0);
    ToI32OfSmall(stat);
  }

  /** One "AT+CREG?" poll: the status its "+CREG:" line reports (0 without one), after the trailing "OK" wait. */
  function CregPoll(m: Modem): (r: Step<i32>)
    ensures SameState(r.modem, m)
    ensures r.modem.link.sent == m.link.sent + [Command("AT+CREG?")]
    ensures var w := WaitForMessage("+CREG:", m.buf, NextReply(m.link)).value;
      r.value == if w.Some? then CregValue(w.value) else 0
  {
    var w := AwaitMessage(SendCommand(m, "AT+CREG?"), "+CREG:");
    var v := if w.value.Some? then CregValue(w.value.value) else 0;
    Step(v, AwaitOK(w.modem).modem)
  }

  /** One round of `waitForCREG`: registered is a result; otherwise a failing `isAlive` ends the loop. */
  function CregRound(m: Modem): (r: Step<Polled<()>>)
    ensures SameState(r.modem, m)
    ensures var p := CregPoll(m);
      && (r.value.Found? <==> Registered(p.value))
      && (r.value.Again? <==> !Registered(p.value) && IsAlive(p.modem).value)
  {
    var p := CregPoll(m);
    if Registered(p.value) then Step(Found(()), p.modem)
    else
      var a := IsAlive(p.modem);
      Step(if a.value then Again else GiveUp, a.modem)
  }

  /**
   * `waitForCREG()`: until 120 s pass, "AT+CREG?" and its "+CREG:" line;
   * registered (1 or 5) ends the wait, anything else is followed by an
   * `isAlive` probe whose failure ends it too. The trailing "OK" is read but
   * not judged.
   */
  function WaitForCREG(m: Modem): (r: Step<bool>)
    ensures r.modem.st == m.st && r.modem.buf == m.buf
  {
    var start := Millis(m);
    PollKeepsSettings(CregRound, Tick(m), Deadline(start, CregBudget));
    var p := PollUntil(CregRound, Tick(m), Deadline(start, CregBudget));
    Step(p.value.Some?, p.modem)
  }

  /**
   * `waitForCREG` succeeds exactly when, before the 120 s deadline, some
   * poll reports status 1 or 5 and every earlier poll reported another
   * status and was followed by a successful `isAlive`.
   */
  lemma CregVerdict(m: Modem)
    ensures WaitForCREG(m).value <==>
      exists k: nat :: FoundInRound(CregRound, Tick(m), Deadline(Millis(m), CregBudget), k)
  {
    PollVerdict(CregRound, Tick(m), Deadline(Millis(m), CregBudget));
  }

  /** A first poll within the budget answered "+CREG: <n>,1" or "+CREG: <n>,5" ends the wait with success. */
  lemma RegisteredOnFirstPoll(m: Modem, start: u32, test: u32, later: seq<u32>, n: string, stat: nat)
    requires m.link.clock == [start] + ([test] + later)
    requires !IsTimedOut(test, Deadline(start, CregBudget))
    requires Plain(n) && ',' !in n && Registered(stat)
    requires m.buf.Allocated? && 8 + |n| < m.buf.capacity
    requires NextReply(m.link) == Line("+CREG:" + (n + ([','] + NatDigits(stat)))) + Line("OK")
    ensures WaitForCREG(m).value
  {
    var t := Tick(Tick(m));
    var line := "+CREG:" + (n + ([','] + NatDigits(stat)));
    assert NatDigits(stat) == [DigitChar(stat)];
    assert Plain(line) by {
      DigitsArePlain(stat);
      assert Plain([','] + NatDigits(stat));
      PlainConcat(n, [','] + NatDigits(stat));
      PlainConcat("+CREG:", n + ([','] + NatDigits(stat)));
    }
    assert line == ("+CREG:" + n) + ([','] + (NatDigits(stat) + ""));
    CregValueReadsStatus("+CREG:" + n, stat, "");
    FirstLineMatches("+CREG:", m.buf.capacity, line, Line("OK"));
    PollFirstRound(CregRound, Tick(m), Deadline(start, CregBudget));
  }

  // ---------------------------------------------------------------------
  // Product identification and the connection prolog
  // ---------------------------------------------------------------------

  /** `setSkipCGATT(x)`: the user's choice, which also turns product detection off. */
  function SetSkipCGATT(m: Modem, x: bool): (r: Modem)
    ensures r.st.skipCGATT == x && r.st.changedSkipCGATT
    ensures r.link == m.link && r.buf == m.buf
    ensures r.st.product == m.st.product && r.st.echoOff == m.st.echoOff && r.st.powered == m.st.powered
  {
    m.(st := m.st.(skipCGATT := x, changedSkipCGATT := true))
  }

  /** The product a banner names: `strncmp` with "SIM900", then "SIM800", over six characters. */
  function Classify(text: string): (r: Product)
    ensures r == Sim900 <==> "SIM900" <= CStr(text)
    ensures r == Sim800 <==> "SIM800" <= CStr(text) && !("SIM900" <= CStr(text))
  {
    StrNEqIsPrefix(text, "SIM900");
    StrNEqIsPrefix(text, "SIM800");
    if StrNEq(text, "SIM900", 6) then Sim900
    else if StrNEq(text, "SIM800", 6) then Sim800
    else UnknownProduct
  }

  /** Banners such as "SIM900 R11.0" and "SIM800 R11.08" name their product; others name none. */
  lemma ClassifyBanners(model: string, revision: string)
    requires NulFree(model) && NulFree(revision) && |model| == 6
    ensures Classify(model + revision) == (if model == "SIM900" then Sim900 else if model == "SIM800" then Sim800 else UnknownProduct)
  {
    var b := model + revision;
    CStrOfNulFree(b);
    assert b[..6] == model;
  }

  /**
   * `getPII(buffer, buflen)`: echo off, then "ATI" read with the
   * prefix-less `getStrValue`; the text counts only when that returns true.
   */
  function GetPII(m: Modem, size: nat): (r: Step<Option<string>>)
    requires size >= 1
    ensures r.value.Some? ==> |r.value.value| < size
    ensures r.modem.st == SwitchEchoOff(m).st && r.modem.buf == m.buf && r.modem.link.clock == m.link.clock
  {
    var e := SwitchEchoOff(m);
    var g := GetLineValue(e, "ATI", size);
    if g.value.None? then Step(None, g.modem)
    else
      var ok := AwaitOK(g.modem);
      Step(if ok.value then g.value else None, ok.modem)
  }

  /** `setProductId()`: the banner, read into 64 bytes, decides SIM900 or SIM800; otherwise nothing changes. */
  function SetProductId(m: Modem): (r: Modem)
    ensures r.st == SwitchEchoOff(m).st.(product := r.st.product)
    ensures r.st.product == m.st.product || r.st.product != UnknownProduct
    ensures r.buf == m.buf && r.link.clock == m.link.clock
  {
    var g := GetPII(m, 64);
    match g.value
    case None => g.modem
    case Some(text) =>
      var k := Classify(text);
      if k == UnknownProduct then g.modem else g.modem.(st := g.modem.st.(product := k))
  }

  /** Product detection inside `connectProlog`: a SIM800 needs no CGATT. */
  function DetectProduct(m: Modem): (r: Modem)
    ensures r.st == SwitchEchoOff(m).st.(product := r.st.product, skipCGATT := r.st.skipCGATT)
    ensures r.st.skipCGATT != m.st.skipCGATT ==> r.st.skipCGATT && r.st.product == Sim800
    ensures r.buf == m.buf
  {
    var s := SetProductId(m);
    if s.st.product == Sim800 then s.(st := s.st.(skipCGATT := true)) else s
  }

  /**
   * `connectProlog()`: echo off, signal quality, registration; then, unless
   * the user chose the CGATT policy or the product is known, product
   * detection, where a SIM800 skips CGATT; finally "AT+CGATT=1" unless
   * skipped.
   */
  function ConnectProlog(m: Modem): (r: Step<bool>)
    ensures r.modem.buf == m.buf
    ensures r.modem.st.powered == m.st.powered && r.modem.st.transMode == m.st.transMode
    ensures var q := WaitForSignalQuality(SwitchEchoOff(m));
      r.value ==> && q.value && WaitForCREG(q.modem).value
                  && Acceptable(r.modem.st.lastRssi, m.st.minSignalQuality)
  {
    var e := SwitchEchoOff(m);
    var q := WaitForSignalQuality(e);
    if !q.value then q
    else
      var c := WaitForCREG(q.modem);
      if !c.value then c
      else AttachProlog(c.modem)
  }

  /** The end of `connectProlog`, once the network is registered. */
  function AttachProlog(m: Modem): (r: Step<bool>)
    ensures r.modem.buf == m.buf
    ensures r.modem.st == m.st.(echoOff := r.modem.st.echoOff, product := r.modem.st.product, skipCGATT := r.modem.st.skipCGATT)
    ensures m.st.changedSkipCGATT || m.st.product != UnknownProduct ==> r.modem.st == m.st
    ensures r.modem.st.skipCGATT != m.st.skipCGATT ==> r.modem.st.skipCGATT && r.modem.st.product == Sim800
    ensures r.modem.st.skipCGATT ==> r.value
  {
    var p := CgattPolicy(m);
    if !p.st.skipCGATT then SendCommandWaitForOK(p, "AT+CGATT=1") else Step(true, p)
  }

  /** The end of the prolog succeeds exactly when CGATT is skipped or "AT+CGATT=1" is answered "OK". */
  lemma AttachPrologVerdict(m: Modem)
    ensures var p := CgattPolicy(m);
      AttachProlog(m).value <==> p.st.skipCGATT || OkAt(p, 0)
  {
    FirstReplyIsOkAt(CgattPolicy(m), "AT+CGATT=1");
  }

  /**
   * `connectProlog` succeeds exactly when, after echo off, some poll before
   * the 30 s deadline reads an acceptable signal, then some poll before the
   * 120 s deadline reports registration, and then CGATT is skipped or
   * accepted.
   */
  lemma ConnectPrologVerdict(m: Modem)
    ensures var e := SwitchEchoOff(m);
      var q := WaitForSignalQuality(e);
      var p := CgattPolicy(WaitForCREG(q.modem).modem);
      ConnectProlog(m).value <==>
        && (exists k: nat :: FoundInRound(CsqRounds(e.st.minSignalQuality), Tick(e), Deadline(Millis(e), CsqBudget), k))
        && (exists k: nat :: FoundInRound(CregRound, Tick(q.modem), Deadline(Millis(q.modem), CregBudget), k))
        && (p.st.skipCGATT || OkAt(p, 0))
  {
    var e := SwitchEchoOff(m);
    var q := WaitForSignalQuality(e);
    SignalVerdict(e);
    CregVerdict(q.modem);
    AttachPrologVerdict(WaitForCREG(q.modem).modem);
  }

  /** The CGATT decision of `connectProlog`: product detection runs only when neither the user nor an earlier detection settled it. */
  function CgattPolicy(m: Modem): (r: Modem)
    ensures r.buf == m.buf
    ensures r.st == m.st.(echoOff := r.st.echoOff, product := r.st.product, skipCGATT := r.st.skipCGATT)
    ensures m.st.changedSkipCGATT || m.st.product != UnknownProduct ==> r == m
    ensures r.st.skipCGATT != m.st.skipCGATT ==> r.st.skipCGATT && r.st.product == Sim800
  {
    if !m.st.changedSkipCGATT && m.st.product == UnknownProduct then DetectProduct(m) else m
  }

  /** Unless CGATT is skipped, the last command of the prolog is "AT+CGATT=1". */
  lemma AttachPrologAttaches(m: Modem)
    ensures var r := AttachProlog(m);
      !r.modem.st.skipCGATT ==> |r.modem.link.sent| > 0 && r.modem.link.sent[|r.modem.link.sent| - 1] == Command("AT+CGATT=1")
  {
    var p := CgattPolicy(m);
    if !p.st.skipCGATT {
      var r := SendCommandWaitForOK(p, "AT+CGATT=1");
      assert AttachProlog(m) == r;
      assert r.modem.link.sent == p.link.sent + [Command("AT+CGATT=1")];
    }
  }

  /**
   * `networkOn()`: power on; then echo off, signal quality and
   * registration, each only after the previous step succeeded.
   */
  function NetworkOn(m: Modem): (r: Step<bool>)
    ensures r.modem.st.powered && r.modem.buf == m.buf
    ensures r.value ==> r.modem.st.lastRssi != 0
  {
    var o := On(m);
    if !o.value then o
    else
      var q := WaitForSignalQuality(SwitchEchoOff(o.modem));
      if !q.value then q else WaitForCREG(q.modem)
  }

  /** `networkOn` stops after `on()` when the modem does not answer. */
  lemma NetworkOnNeedsOn(m: Modem)
    requires !On(m).value
    ensures NetworkOn(m) == On(m)
  {
  }
}
