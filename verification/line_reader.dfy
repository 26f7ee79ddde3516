/**
  The interactive line reader of the example program (`input_string`).

  The reader polls the console for one event at a time: a time-out or a
  byte. It keeps the bytes typed so far in the caller's buffer, echoes what
  it accepts, and stops on <Enter> or once 128 bytes are stored; it then
  writes the terminator at the current index. The polling is modelled as a
  fold over a finite sequence of events (the idle timer is compiled out).

  The byte is held in an `INT8`, so 0xFF reads as -1, the time-out code, and
  is ignored like a time-out. <Esc> as the first key stores {ESC, '\0'} and
  moves the index to 2 but does not end the read.
 */
module LineReader {
  import opened CStrings
  import opened Ascii

  const Backspace: char := 8 as char
  const Enter: char := 13 as char

  /** The index bound of the polling loop. */
  const LineLimit: nat := 128
  /** Size of the `String` buffer that `main` passes in. */
  const CallerBufferSize: nat := 128

  /** The value `getchar_timeout_us` reports for "no key". */
  const TimeoutCode: int := -1

  /** One poll of the console. */
  datatype Event = Timeout | Key(b: Byte)

  /** What `DataInput`, an `INT8`, holds after the poll. */
  function AsInt8(e: Event): (v: int)
    ensures -128 <= v < 128
    ensures e.Key? ==> v % 256 == e.b
  {
    match e
    case Timeout => TimeoutCode
    case Key(b) => if b < 128 then b else b - 256
  }

  /** The bytes stored so far (`String[0 .. index)`), the bytes echoed to the
      console, and whether the loop has exited. */
  datatype Reader = Reader(line: seq<char>, echo: seq<char>, done: bool)

  const Start: Reader := Reader([], [], false)

  /** One pass of the loop body followed by the loop condition, for a loop
      that exits once the index reaches `limit`. */
  function Step(r: Reader, e: Event, limit: nat): (r': Reader)
    requires !r.done && |r.line| < limit && limit >= 2
    ensures |r'.line| <= limit
    ensures r'.done <==> |r'.line| >= limit || AsInt8(e) == 13
  {
    var v := AsInt8(e);
    var (line, echo) :=
      if v == TimeoutCode || v == 0 then
        (r.line, r.echo)
      else if v == 8 then
        if |r.line| > 0 then (r.line[..|r.line| - 1], r.echo + [Backspace, ' ', Backspace])
        else (r.line, r.echo)
      else if v == 27 then
        (if |r.line| == 0 then [Escape, Nul] else r.line, r.echo + ['\r'])
      else if v == 13 then
        (if |r.line| == 0 then [Enter, Nul] else r.line, r.echo + ['\r'])
      else
        (r.line + [(v % 256) as char], r.echo + [(v % 256) as char]);
    Reader(line, echo, |line| >= limit || v == 13)
  }

  /** Feeds `events` to the loop until it exits or the events run out. */
  function Run(r: Reader, events: seq<Event>, limit: nat): (r': Reader)
    requires limit >= 2
    requires r.done || |r.line| < limit
    requires |r.line| <= limit
    ensures |r'.line| <= limit
    ensures r'.done || |r'.line| < limit
    ensures r.done ==> r' == r
    decreases |events|
  {
    if r.done || events == [] then r
    else Run(Step(r, events[0], limit), events[1..], limit)
  }

  /** `input_string` as written: the loop runs while the index is below 128. */
  function InputString(events: seq<Event>): (r: Reader)
    ensures |Terminated(r)| <= LineLimit + 1
    ensures r.done || |r.line| < LineLimit
  {
    Run(Start, events, LineLimit)
  }

  /** The caller's buffer after the call, terminator included:
      `String[0 ..= index]`. */
  function Terminated(r: Reader): (buf: seq<char>)
    ensures |buf| == |r.line| + 1 && buf[..|r.line|] == r.line && buf[|r.line|] == Nul
  {
    r.line + [Nul]
  }

  // ---------------------------------------------------------------------------
  // One event at a time.
  // ---------------------------------------------------------------------------

  /** A time-out, a 0 byte, and 0xFF (which the `INT8` turns into the time-out
      code) change nothing and the read goes on. */
  lemma IgnoredEvents(r: Reader, e: Event, limit: nat)
    requires !r.done && |r.line| < limit && limit >= 2
    requires e == Timeout || e == Key(0) || e == Key(255)
    ensures Step(r, e, limit) == r
  {
  }

  /** An ordinary byte is stored at the index and echoed. */
  lemma OrdinaryKey(r: Reader, b: Byte, limit: nat)
    requires !r.done && |r.line| < limit && limit >= 2
    requires b !in {0, 8, 13, 27, 255}
    ensures Step(r, Key(b), limit).line == r.line + [b as char]
    ensures Step(r, Key(b), limit).echo == r.echo + [b as char]
    ensures Step(r, Key(b), limit).done <==> |r.line| + 1 == limit
  {
  }

  /** <Backspace> drops the last byte and erases it on screen; on an empty
      line it does nothing. */
  lemma BackspaceKey(r: Reader, limit: nat)
    requires !r.done && |r.line| < limit && limit >= 2
    ensures |r.line| > 0 ==>
      Step(r, Key(8), limit) == Reader(r.line[..|r.line| - 1], r.echo + [Backspace, ' ', Backspace], false)
    ensures |r.line| == 0 ==> Step(r, Key(8), limit) == r
  {
  }

  /** <Enter> always ends the read and echoes '\r'; only as the first key is
      it stored, followed by a '\0'. */
  lemma EnterKey(r: Reader, limit: nat)
    requires !r.done && |r.line| < limit && limit >= 2
    ensures Step(r, Key(13), limit).done
    ensures |r.line| == 0 ==> Step(r, Key(13), limit).line == [Enter, Nul]
    ensures |r.line| > 0 ==> Step(r, Key(13), limit).line == r.line
    ensures Step(r, Key(13), limit).echo == r.echo + ['\r']
  {
  }

  /** <Esc> as the first key stores {ESC, '\0'} and moves the index to 2;
      anywhere else it keeps the line; it always echoes '\r' and never ends the
      read by itself. */
  lemma EscapeKey(r: Reader, limit: nat)
    requires !r.done && |r.line| < limit && limit >= 3
    ensures !Step(r, Key(27), limit).done
    ensures |r.line| == 0 ==> Step(r, Key(27), limit).line == [Escape, Nul]
    ensures |r.line| > 0 ==> Step(r, Key(27), limit).line == r.line
    ensures Step(r, Key(27), limit).echo == r.echo + ['\r']
  {
  }

  // ---------------------------------------------------------------------------
  // Whole reads.
  // ---------------------------------------------------------------------------

  /** The event is one the loop ignores. */
  predicate Ignored(e: Event) {
    AsInt8(e) == TimeoutCode || AsInt8(e) == 0
  }

  function Significant(events: seq<Event>): (s: seq<Event>)
    ensures |s| <= |events|
    ensures forall k :: 0 <= k < |s| ==> !Ignored(s[k])
  {
    if events == [] then []
    else if Ignored(events[0]) then Significant(events[1..])
    else [events[0]] + Significant(events[1..])
  }

  /** Time-outs and ignored bytes, wherever they fall, do not change the
      outcome of a read. */
  lemma {:induction false} IgnoredEventsInvisible(r: Reader, events: seq<Event>, limit: nat)
    requires limit >= 2 && (r.done || |r.line| < limit) && |r.line| <= limit
    ensures Run(r, events, limit) == Run(r, Significant(events), limit)
    decreases |events|
  {
    if !r.done && events != [] {
      IgnoredEventsInvisible(Step(r, events[0], limit), events[1..], limit);
      if Ignored(events[0]) {
        IgnoredEventsInvisible(r, events[1..], limit);
      } else {
        var s := Significant(events);
        assert s[0] == events[0] && s[1..] == Significant(events[1..]);
      }
    }
  }

  /** A byte the loop stores as typed. */
  predicate PlainKey(e: Event) {
    e.Key? && e.b !in {0, 8, 13, 27, 255}
  }

  /** The bytes typed, time-outs left out. */
  function Bytes(events: seq<Event>): (s: seq<char>)
    ensures |s| <= |events|
    ensures (forall k :: 0 <= k < |events| ==> events[k].Key?) ==> |s| == |events|
  {
    if events == [] then []
    else (if events[0].Key? then [events[0].b as char] else []) + Bytes(events[1..])
  }

  /** The first `n` typed bytes: the first event's byte, then the next
      `n - 1`. */
  lemma BytesPrefix(events: seq<Event>, n: nat)
    requires 1 <= n <= |events| && events[0].Key?
    ensures Bytes(events[..n]) == [events[0].b as char] + Bytes(events[1..][..n - 1])
  {
    assert events[..n][1..] == events[1..][..n - 1];
  }

  /** Without editing keys the line is the typed bytes, in order, up to the
      limit, and the console shows exactly the same bytes. */
  lemma {:induction false} PlainTyping(r: Reader, events: seq<Event>, limit: nat)
    requires limit >= 2 && !r.done && |r.line| < limit
    requires forall k :: 0 <= k < |events| ==> PlainKey(events[k])
    ensures var n := Min(|events|, limit - |r.line|);
      var r' := Run(r, events, limit);
      && r'.line == r.line + Bytes(events[..n])
      && r'.echo == r.echo + Bytes(events[..n])
      && (r'.done <==> |r.line| + |events| >= limit)
    decreases |events|
  {
    if events != [] {
      var r1 := Step(r, events[0], limit);
      OrdinaryKey(r, events[0].b, limit);
      var n := Min(|events|, limit - |r.line|);
      var c := events[0].b as char;
      var rest := Bytes(events[1..][..n - 1]);
      BytesPrefix(events, n);
      assert r.line + Bytes(events[..n]) == (r.line + [c]) + rest;
      assert r.echo + Bytes(events[..n]) == (r.echo + [c]) + rest;
      if r1.done {
        assert n == 1 && events[1..][..0] == [];
      } else {
        PlainTyping(r1, events[1..], limit);
      }
    }
  }

  /** The read keeps at most `limit` bytes and the terminator goes right
      after them, so the caller's buffer needs `limit + 1` bytes. */
  lemma TerminatorIndex(events: seq<Event>, limit: nat)
    requires limit >= 2
    ensures |Terminated(Run(Start, events, limit))| <= limit + 1
  {
  }

  /** Example: 'a', 'b', <Backspace>, 'c', <Enter> reads "ac". */
  lemma EditedLine(events: seq<Event>)
    requires events == [Key('a' as int), Key('b' as int), Key(8), Key('c' as int), Key(13)]
    ensures InputString(events).done
    ensures Terminated(InputString(events)) == ['a', 'c', Nul]
    ensures InputString(events).echo == ['a', 'b', Backspace, ' ', Backspace, 'c', '\r']
  {
    var r1 := Step(Start, events[0], LineLimit);
    var r2 := Step(r1, events[1], LineLimit);
    var r3 := Step(r2, events[2], LineLimit);
    var r4 := Step(r3, events[3], LineLimit);
    var r5 := Step(r4, events[4], LineLimit);
    assert r4.line == ['a', 'c'];
    calc {
      InputString(events);
      Run(r1, events[1..], LineLimit);
      Run(r2, events[2..], LineLimit);
      { assert events[2..][1..] == events[3..]; }
      Run(r3, events[3..], LineLimit);
      { assert events[3..][1..] == events[4..]; }
      Run(r4, events[4..], LineLimit);
      r5;
    }
  }

  /** Example: <Enter> alone reads {CR, '\0'}. */
  lemma EnterAlone(events: seq<Event>)
    requires |events| >= 1 && events[0] == Key(13)
    ensures InputString(events).done
    ensures Terminated(InputString(events)) == [Enter, Nul, Nul]
  {
  }

  /** Example: <Esc> then <Enter> reads {ESC, '\0'}: the Esc alone would have
      kept the loop waiting. */
  lemma EscapeThenEnter(events: seq<Event>)
    requires |events| >= 2 && events[0] == Key(27) && events[1] == Key(13)
    ensures !Step(Start, events[0], LineLimit).done
    ensures InputString(events).done
    ensures Terminated(InputString(events)) == [Escape, Nul, Nul]
  {
    var r1 := Step(Start, events[0], LineLimit);
    assert InputString(events) == Run(r1, events[1..], LineLimit);
    assert events[1..][0] == Key(13);
  }

  /** 128 ordinary keys fill the line, so the terminator is written at index
      128: one past the end of the 128-byte `String` buffer of `main`. */
  lemma OverflowWitness(events: seq<Event>)
    requires events == seq(LineLimit, _ => Key('a' as int))
    ensures InputString(events).done
    ensures |InputString(events).line| == CallerBufferSize
    ensures |Terminated(InputString(events))| == CallerBufferSize + 1
  {
    PlainTyping(Start, events, LineLimit);
  }

  /** The read as evidently intended: it stops one byte earlier, so the line
      and its terminator always fit the caller's 128-byte buffer. */
  function InputStringFitting(events: seq<Event>): (r: Reader)
    ensures |Terminated(r)| <= CallerBufferSize
    ensures r.done || |r.line| < CallerBufferSize - 1
  {
    Run(Start, events, CallerBufferSize - 1)
  }
}
