/**
 * Line transport (SIMCOM_Modem.cpp `readLine`, `readBytes`).
 *
 * The modem stream is a finite sequence of events: a received byte, or a
 * `Lapse`, a silence long enough for the deadline of the wait in progress to
 * pass. Past the end of the sequence the modem stays silent for ever, so a
 * wait that needs more input there times out too.
 */
module Transport {
  import opened Options
  import opened CText

  const CR: char := '\r'
  const LF: char := '\n'

  /** SIMCOM_MODEM_DEFAULT_BUFFER_SIZE: the line capacity `init` uses unless told otherwise. */
  const DefaultBufferSize: nat := 64

  datatype Event = Byte(c: char) | Lapse

  /**
   * The input line buffer: never allocated (a NULL pointer), or allocated
   * with a fixed capacity that includes the terminating NUL.
   */
  datatype LineBuffer = Unallocated | Allocated(capacity: nat)

  /** `readLine` stores the NUL at index `bufcnt`, so an allocated buffer holds at least one byte. */
  type Buffer = b: LineBuffer | b.Unallocated? || b.capacity >= 1 witness Unallocated

  /** The events a string of received bytes produces. */
  function Bytes(s: string): (r: seq<Event>)
    ensures |r| == |s|
    ensures forall i :: 0 <= i < |s| ==> r[i] == Byte(s[i])
  {
    seq(|s|, i requires 0 <= i < |s| => Byte(s[i]))
  }

  /** No line terminator in `s`. */
  predicate NoBreak(s: string)
  {
    forall i :: 0 <= i < |s| ==> s[i] != CR && s[i] != LF
  }

  predicate IsSuffix<T(==)>(tail: seq<T>, whole: seq<T>)
  {
    |tail| <= |whole| && tail == whole[|whole| - |tail|..]
  }

  /** A line, or None for `-1` (NULL buffer or deadline passed), and the input left over. */
  datatype LineRead = LineRead(line: Option<string>, rest: seq<Event>)

  /**
   * The loop of `readLine` after `acc` has been collected: `room` is
   * `capacity - 1`, the most bytes the buffer keeps; further bytes are read
   * and dropped. LF ends the line; CR ends it too and swallows one LF right
   * behind it, while any other next event is only peeked and stays unread.
   */
  function Collect(room: nat, input: seq<Event>, acc: string): (r: LineRead)
    requires |acc| <= room
    ensures IsSuffix(r.rest, input)
    ensures r.line.Some? ==> |r.line.value| <= room && |r.rest| < |input|
    decreases |input|
  {
    if |input| == 0 then LineRead(None, [])
    else match input[0]
      case Lapse => LineRead(None, input[1..])
      case Byte(c) =>
        if c == LF then LineRead(Some(acc), input[1..])
        else if c == CR then
          (if |input| >= 2 && input[1] == Byte(LF) then LineRead(Some(acc), input[2..])
           else LineRead(Some(acc), input[1..]))
        else Collect(room, input[1..], if |acc| < room then acc + [c] else acc)
  }

  /**
   * `readLine`: the bytes up to the next CR, LF or CR LF, of which at most
   * `capacity - 1` are kept so that the NUL still fits; `-1` for a NULL
   * buffer (nothing read) or when the deadline passes first.
   */
  function ReadLine(buf: Buffer, input: seq<Event>): (r: LineRead)
    ensures IsSuffix(r.rest, input)
    ensures r.line.Some? ==> buf.Allocated? && |r.line.value| + 1 <= buf.capacity && |r.rest| < |input|
    ensures buf.Unallocated? ==> r == LineRead(None, input)
  {
    if buf.Unallocated? then LineRead(None, input) else Collect(buf.capacity - 1, input, [])
  }

  /** The successive lines `readLine` returns until its first `-1`. */
  function Lines(buf: Buffer, input: seq<Event>): seq<string>
    decreases |input|
  {
    var r := ReadLine(buf, input);
    if r.line.None? then [] else [r.line.value] + Lines(buf, r.rest)
  }

  /** `acc` extended by `x`, keeping no more than `room` bytes. */
  function Keep(acc: string, x: string, room: nat): string
  {
    var s := acc + x;
    if |s| <= room then s else s[..room]
  }

  lemma {:induction false} CollectSkipsText(room: nat, x: string, tail: seq<Event>, acc: string)
    requires |acc| <= room
    requires NoBreak(x)
    ensures |Keep(acc, x, room)| <= room
    ensures Collect(room, Bytes(x) + tail, acc) == Collect(room, tail, Keep(acc, x, room))
    decreases |x|
  {
    if |x| > 0 {
      var input := Bytes(x) + tail;
      assert input[0] == Byte(x[0]);
      assert input[1..] == Bytes(x[1..]) + tail;
      var acc' := if |acc| < room then acc + [x[0]] else acc;
      CollectSkipsText(room, x[1..], tail, acc');
      assert Keep(acc', x[1..], room) == Keep(acc, x, room) by {
        assert acc + x == (acc + [x[0]]) + x[1..];
      }
    } else {
      assert Bytes(x) + tail == tail;
      assert acc + x == acc;
    }
  }

  /** The line `x` gives when it is followed by the events `t`. */
  lemma LineAfterText(cap: nat, x: string, t: seq<Event>)
    requires cap >= 1
    requires NoBreak(x)
    ensures ReadLine(Allocated(cap), Bytes(x) + t) == Collect(cap - 1, t, Keep([], x, cap - 1))
  {
    CollectSkipsText(cap - 1, x, t, []);
  }

  /**
   * `X\r\n`, `X\n`, and `X\r` followed by anything but LF all give the same
   * line, `X` cut to `capacity - 1` bytes. After a lone CR the next event is
   * left for the next read.
   */
  lemma SameLineForEveryTerminator(cap: nat, x: string, rest: seq<Event>)
    requires cap >= 1
    requires NoBreak(x)
    ensures var line := Some(Keep([], x, cap - 1));
      && ReadLine(Allocated(cap), Bytes(x) + ([Byte(CR), Byte(LF)] + rest)) == LineRead(line, rest)
      && ReadLine(Allocated(cap), Bytes(x) + ([Byte(LF)] + rest)) == LineRead(line, rest)
      && (|rest| == 0 || rest[0] != Byte(LF) ==>
            ReadLine(Allocated(cap), Bytes(x) + ([Byte(CR)] + rest)) == LineRead(line, rest))
  {
    LineAfterText(cap, x, [Byte(CR), Byte(LF)] + rest);
    assert ([Byte(CR), Byte(LF)] + rest)[2..] == rest;
    LineAfterText(cap, x, [Byte(LF)] + rest);
    assert ([Byte(LF)] + rest)[1..] == rest;
    LineAfterText(cap, x, [Byte(CR)] + rest);
    assert ([Byte(CR)] + rest)[1..] == rest;
  }

  /** Text that can sit inside one reply line: no NUL, no CR, no LF. */
  predicate Plain(s: string)
  {
    NulFree(s) && NoBreak(s)
  }

  /** Printable ASCII is plain; this is how a reply literal is shown to be one. */
  lemma PrintableIsPlain(s: string)
    requires forall i :: 0 <= i < |s| ==> ' ' <= s[i] <= '~'
    ensures Plain(s)
  {
    assert forall i :: 0 <= i < |s| ==> s[i] != NUL && s[i] != CR && s[i] != LF;
  }

  lemma PlainConcat(a: string, b: string)
    requires Plain(a) && Plain(b)
    ensures Plain(a + b)
  {
    assert forall i :: 0 <= i < |a + b| ==> (a + b)[i] == if i < |a| then a[i] else b[i - |a|];
  }

  /** A reply line as the modem sends it: the text, then CR LF. */
  function Line(x: string): seq<Event>
  {
    Bytes(x) + [Byte(CR), Byte(LF)]
  }

  /** A line that fits the buffer is read whole, and reading stops right after its CR LF. */
  lemma ReadsWholeLine(cap: nat, x: string, rest: seq<Event>)
    requires |x| < cap
    requires NoBreak(x)
    ensures ReadLine(Allocated(cap), Line(x) + rest) == LineRead(Some(x), rest)
  {
    SameLineForEveryTerminator(cap, x, rest);
    assert Line(x) + rest == Bytes(x) + ([Byte(CR), Byte(LF)] + rest);
    assert [] + x == x;
  }

  /** Without a terminator before the deadline `readLine` returns -1; nothing partial is exposed. */
  lemma UnterminatedTimesOut(cap: nat, x: string, rest: seq<Event>)
    requires cap >= 1
    requires NoBreak(x)
    ensures ReadLine(Allocated(cap), Bytes(x)) == LineRead(None, [])
    ensures ReadLine(Allocated(cap), Bytes(x) + ([Lapse] + rest)) == LineRead(None, rest)
  {
    LineAfterText(cap, x, []);
    assert Bytes(x) + [] == Bytes(x);
    LineAfterText(cap, x, [Lapse] + rest);
    assert ([Lapse] + rest)[1..] == rest;
  }

  /** A line longer than the buffer: the excess is read and dropped, and the next line starts after the terminator. */
  lemma LongLineIsTruncated(cap: nat, x: string, rest: seq<Event>)
    requires cap >= 1 && |x| >= cap
    requires NoBreak(x)
    ensures ReadLine(Allocated(cap), Bytes(x) + ([Byte(LF)] + rest)) == LineRead(Some(x[..cap - 1]), rest)
  {
    SameLineForEveryTerminator(cap, x, rest);
    assert [] + x == x;
  }

  // ---------------------------------------------------------------------
  // readBytes
  // ---------------------------------------------------------------------

  /** The bytes that arrive before the next deadline lapse. */
  function Arrived(input: seq<Event>): (s: string)
    ensures |s| <= |input|
    ensures forall i :: 0 <= i < |s| ==> input[i] == Byte(s[i])
    ensures |s| < |input| ==> input[|s|] == Lapse
  {
    if |input| == 0 || input[0] == Lapse then [] else [input[0].c] + Arrived(input[1..])
  }

  function Min(a: int, b: int): int
  {
    if a <= b then a else b
  }

  /** Outcome of `readBytes`: its return value, the bytes copied, whether a NUL followed them. */
  datatype BytesRead = BytesRead(unread: nat, stored: string, terminated: bool, rest: seq<Event>)

  /**
   * `readBytes(len, buffer, buflen, ts_max)`: reads up to `len` raw bytes
   * until the deadline, stores the first `buflen` of them, writes a NUL after
   * them when capacity is left, and returns how many were not read.
   */
  function ReadBytes(len: nat, buflen: nat, input: seq<Event>): (r: BytesRead)
    ensures r.unread <= len
    ensures IsSuffix(r.rest, input)
    ensures r.unread == 0 ==> len <= |input| && r.rest == input[len..]
    decreases len
  {
    if len == 0 then BytesRead(0, [], buflen > 0, input)
    else if |input| == 0 then BytesRead(len, [], buflen > 0, [])
    else match input[0]
      case Lapse => BytesRead(len, [], buflen > 0, input[1..])
      case Byte(c) =>
        var r := ReadBytes(len - 1, if buflen > 0 then buflen - 1 else 0, input[1..]);
        if buflen > 0 then r.(stored := [c] + r.stored) else r
  }

  /**
   * What `readBytes` reports: of the `k` bytes it could read (at most `len`,
   * and only those that arrive in time) it returns `len - k`, and it
   * terminates the copy with a NUL only when `buflen > k`.
   */
  lemma {:induction false} ReadBytesCounts(len: nat, buflen: nat, input: seq<Event>)
    ensures var r := ReadBytes(len, buflen, input);
      var k := Min(len, |Arrived(input)|);
      r.unread == len - k && (r.terminated <==> buflen > k)
    decreases len
  {
    if len > 0 && |input| > 0 && input[0].Byte? {
      assert Arrived(input) == [input[0].c] + Arrived(input[1..]);
      ReadBytesCounts(len - 1, if buflen > 0 then buflen - 1 else 0, input[1..]);
    }
  }

  /** The bytes `readBytes` keeps are the first `buflen` of those it read. */
  lemma {:induction false} ReadBytesStores(len: nat, buflen: nat, input: seq<Event>)
    ensures ReadBytes(len, buflen, input).stored == Arrived(input)[..Min(Min(len, |Arrived(input)|), buflen)]
    decreases len
  {
    if len == 0 || |input| == 0 || input[0].Lapse? {
      assert Arrived(input) == [] || len == 0;
    } else {
      var c := input[0].c;
      var b' := if buflen > 0 then buflen - 1 else 0;
      var a' := Arrived(input[1..]);
      var a := Arrived(input);
      assert a == [c] + a';
      var r' := ReadBytes(len - 1, b', input[1..]);
      ReadBytesStores(len - 1, b', input[1..]);
      var k' := Min(len - 1, |a'|);
      assert Min(len, |a|) == k' + 1;
      if buflen > 0 {
        var j := Min(k', b');
        assert ReadBytes(len, buflen, input).stored == [c] + r'.stored;
        assert r'.stored == a'[..j];
        assert Min(Min(len, |a|), buflen) == j + 1;
        assert a[..j + 1] == [c] + a'[..j] by {
          assert a[1..] == a';
          assert a[..j + 1] == [a[0]] + a[1..][..j];
        }
      } else {
        assert ReadBytes(len, buflen, input).stored == r'.stored == [];
      }
    }
  }
}
