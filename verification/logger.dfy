/**
  The console logger of the example program (`log_info`).

  With no terminal attached nothing is printed. Otherwise the formatted
  message (at most 511 bytes, the `vsnprintf` buffer) is checked, in any
  letter case, for the two control words "home" and "cls", which are
  replaced by the VT100 cursor-home and clear-screen sequences. A message
  starting with '\r' is first printed on its own. Then comes the line
  `[LLLLL C] [name]<padding>- message`: the source line right-aligned in
  five columns, the core number, the caller's name in brackets (cut and
  marked with '~' when too long) and blanks to align the messages.

  The formatting of the caller's arguments is taken as done: the model
  starts from the formatted message, which is also used as a `printf`
  format and so must not contain '%'.
 */
module Logger {
  import opened CStrings
  import opened Ascii

  /** Room for the bracketed function name, brackets included. */
  const FunctionSize: nat := 25
  /** Size of the `Dum1Str`/`Dum2Str` work buffers. */
  const WorkBufferSize: nat := 512

  const HomeSequence: string := [Escape, '[', 'H']
  const ClearSequence: string := [Escape, '[', '2', 'J']

  /** `Dum1Str` after the substitutions: a message equal to "home" or "cls"
      in any case becomes the matching control sequence. */
  function Message(text: string): (m: string)
    ensures m != text ==> (ToLower(text) == "home" || ToLower(text) == "cls") && |m| > 0 && m[0] == Escape
  {
    var lowered := ToLower(text);
    if lowered == "home" then HomeSequence
    else if lowered == "cls" then ClearSequence
    else text
  }

  /** `[%5u %u] `: source line and core number. */
  function Location(line: nat, core: nat): (s: string)
    ensures |s| >= 9 && s[0] == '[' && s[|s| - 2..] == "] "
  {
    "[" + PadLeft(Decimal(line), 5) + " " + Decimal(core) + "] "
  }

  /** `Dum2Str` once printed: the name in brackets, cut at 22 bytes with
      "~]" when the bracketed name is longer than `FunctionSize`. */
  function NameTag(name: string): (tag: string)
    ensures 2 <= |tag| <= FunctionSize
    ensures tag[0] == '[' && tag[|tag| - 1] == ']'
  {
    var tag := "[" + name + "]";
    if |tag| > FunctionSize then tag[..FunctionSize - 3] + "~]" else tag
  }

  /** The blanks after the tag: one per position from `strlen(name)` up to
      `FunctionSize - 3`. */
  function Padding(name: string): (p: string)
    ensures forall k :: 0 <= k < |p| ==> p[k] == ' '
    ensures |name| + |p| >= FunctionSize - 3
    ensures |name| <= FunctionSize - 3 ==> |name| + |p| == FunctionSize - 3
    ensures |name| >= FunctionSize - 3 ==> p == []
  {
    seq(Max(FunctionSize - 3 - |name|, 0), _ => ' ')
  }

  /** Everything printed between an optional bare message and the message. */
  function Header(line: nat, core: nat, name: string): (h: string)
    ensures |h| == |Location(line, core)| + if |name| == 23 then 27 else 26
  {
    TagWidth(name);
    Location(line, core) + NameTag(name) + Padding(name) + "- "
  }

  /** What the console receives for a given header: nothing when no
      terminal is attached; else an optional bare copy of the message, the
      header and the message. */
  function Emit(connected: bool, header: string, body: string): string
    requires Nul !in body && '%' !in body
  {
    if !connected then []
    else
      var text := Take(body, WorkBufferSize - 1);
      var lowered := ToLower(text);
      var message := Message(text);
      (if |lowered| > 0 && lowered[0] == '\r' then message else []) + header + message
  }

  /** The bytes `log_info` sends to the console. */
  function LogInfo(connected: bool, line: nat, core: nat, name: string, body: string): string
    requires Nul !in name && |name| + 2 < WorkBufferSize
    requires Nul !in body && '%' !in body
    requires line < 0x1_0000_0000
  {
    Emit(connected, Header(line, core, name), body)
  }

  // ---------------------------------------------------------------------------
  // Properties.
  // ---------------------------------------------------------------------------

  /** With no terminal attached the call prints nothing at all. */
  lemma SilentWithoutTerminal(line: nat, core: nat, name: string, body: string)
    requires Nul !in name && |name| + 2 < WorkBufferSize
    requires Nul !in body && '%' !in body && line < 0x1_0000_0000
    ensures LogInfo(false, line, core, name, body) == []
  {
  }

  /** A lower-case word `w` matches `t` in any letter case. */
  lemma {:induction false} LowerMatches(t: string, w: string)
    requires forall k :: 0 <= k < |w| ==> 'a' <= w[k] <= 'z'
    ensures ToLower(t) == w <==>
      |t| == |w| && forall k :: 0 <= k < |t| ==> t[k] == w[k] || t[k] as int == w[k] as int - 0x20
  {
    if |t| == |w| && forall k :: 0 <= k < |t| ==> t[k] == w[k] || t[k] as int == w[k] as int - 0x20 {
      assert forall k :: 0 <= k < |t| ==> ToLower(t)[k] == w[k];
    }
  }

  /** A message that fits the buffer is taken whole; it is printed bare
      first exactly when it starts with '\r'. */
  lemma EmitFitting(header: string, body: string)
    requires Nul !in body && '%' !in body && |body| < WorkBufferSize
    ensures Emit(true, header, body) ==
      (if |body| > 0 && body[0] == '\r' then Message(body) else []) + header + Message(body)
  {
    assert Take(body, WorkBufferSize - 1) == body;
    assert |body| > 0 ==> (ToLower(body)[0] == '\r' <==> body[0] == '\r');
  }

  /** The control words, for any header. */
  lemma EmitControlWord(header: string, body: string)
    requires Nul !in body && '%' !in body
    requires ToLower(body) == "home" || ToLower(body) == "cls"
    ensures Emit(true, header, body) ==
      header + if ToLower(body) == "home" then HomeSequence else ClearSequence
  {
    assert ToLower(body)[0] != '\r';
    EmitFitting(header, body);
  }

  /** An ordinary message, for any header. */
  lemma EmitPlain(header: string, body: string)
    requires Nul !in body && '%' !in body && |body| < WorkBufferSize
    requires |body| == 0 || body[0] != '\r'
    requires ToLower(body) != "home" && ToLower(body) != "cls"
    ensures Emit(true, header, body) == header + body
  {
    EmitFitting(header, body);
  }

  /** "home" and "cls", in any case, print the header and then exactly the
      control sequence; no bare copy precedes them. */
  lemma ControlWords(connected: bool, line: nat, core: nat, name: string, body: string)
    requires Nul !in name && |name| + 2 < WorkBufferSize
    requires Nul !in body && '%' !in body && line < 0x1_0000_0000
    requires connected
    ensures ToLower(body) == "home" ==>
      LogInfo(connected, line, core, name, body) == Header(line, core, name) + HomeSequence
    ensures ToLower(body) == "cls" ==>
      LogInfo(connected, line, core, name, body) == Header(line, core, name) + ClearSequence
  {
    if ToLower(body) == "home" || ToLower(body) == "cls" {
      EmitControlWord(Header(line, core, name), body);
    }
  }

  /** A message starting with '\r' is printed bare, then again after the
      header. */
  lemma LeadingReturnPrintedTwice(line: nat, core: nat, name: string, body: string)
    requires Nul !in name && |name| + 2 < WorkBufferSize
    requires Nul !in body && '%' !in body && line < 0x1_0000_0000
    requires |body| < WorkBufferSize && |body| > 0 && body[0] == '\r'
    ensures LogInfo(true, line, core, name, body) == body + Header(line, core, name) + body
  {
    var lowered := ToLower(body);
    assert lowered[0] == '\r';
    assert lowered != "home" && lowered != "cls";
    EmitFitting(Header(line, core, name), body);
  }

  /** Any other message fitting the buffer is printed once, after the
      header, unchanged. */
  lemma PlainMessage(line: nat, core: nat, name: string, body: string)
    requires Nul !in name && |name| + 2 < WorkBufferSize
    requires Nul !in body && '%' !in body && line < 0x1_0000_0000
    requires |body| < WorkBufferSize
    requires |body| == 0 || body[0] != '\r'
    requires ToLower(body) != "home" && ToLower(body) != "cls"
    ensures LogInfo(true, line, core, name, body) == Header(line, core, name) + body
  {
    EmitPlain(Header(line, core, name), body);
  }

  /** Longer messages are cut to the 511 bytes `vsnprintf` keeps; a cut
      message starting with '\r' is still printed twice. */
  lemma LongMessageCut(line: nat, core: nat, name: string, body: string)
    requires Nul !in name && |name| + 2 < WorkBufferSize
    requires Nul !in body && '%' !in body && line < 0x1_0000_0000
    requires |body| >= WorkBufferSize
    ensures var text := body[..WorkBufferSize - 1];
      LogInfo(true, line, core, name, body) ==
        (if body[0] == '\r' then text else []) + Header(line, core, name) + text
  {
    var text := body[..WorkBufferSize - 1];
    assert Take(body, WorkBufferSize - 1) == text;
    var lowered := ToLower(text);
    assert |lowered| == WorkBufferSize - 1 && (lowered[0] == '\r' <==> body[0] == '\r');
    assert Message(text) == text;
  }

  /** The middle part of a three-part concatenation. */
  lemma SliceOfMiddle(a: string, b: string, c: string, i: nat, j: nat)
    requires i <= j <= |b|
    ensures (a + b + c)[|a| + i..|a| + j] == b[i..j]
  {
    assert forall k :: |a| + i <= k < |a| + j ==> (a + b + c)[k] == b[k - |a|];
  }

  /** The pieces of `[<p> <c>] `, where `p` is the digits `d` padded on the
      left with blanks. */
  lemma LocationParts(p: string, d: string, c: string)
    requires |d| <= |p| && p[|p| - |d|..] == d
    requires forall k :: 0 <= k < |p| - |d| ==> p[k] == ' '
    ensures var s := "[" + p + " " + c + "] ";
      && |s| == 4 + |p| + |c|
      && s[0] == '[' && s[1 + |p|] == ' ' && s[|s| - 2..] == "] "
      && (forall k :: 1 <= k < 1 + |p| - |d| ==> s[k] == ' ')
      && s[1 + |p| - |d|..1 + |p|] == d
      && s[2 + |p|..|s| - 2] == c
  {
    var rest := " " + c + "] ";
    var s := "[" + p + " " + c + "] ";
    assert s == "[" + p + rest;
    SliceOfMiddle("[", p, rest, |p| - |d|, |p|);
    assert forall k :: 1 <= k < 1 + |p| ==> s[k] == p[k - 1];
    assert s == "[" + p + " " + c + "] ";
    SliceOfMiddle("[" + p + " ", c, "] ", 0, |c|);
  }

  /** The location field: '[', the line number right-aligned in five
      columns (more when it has more digits), a blank, the core number and
      "] ". */
  lemma LocationLayout(line: nat, core: nat)
    ensures var d, c, s := Decimal(line), Decimal(core), Location(line, core);
      var w := Max(5, |d|);
      && |s| == 4 + w + |c|
      && s[0] == '[' && s[1 + w] == ' ' && s[|s| - 2..] == "] "
      && (forall k :: 1 <= k < 1 + w - |d| ==> s[k] == ' ')
      && s[1 + w - |d|..1 + w] == d && DecimalValue(d) == line
      && s[2 + w..|s| - 2] == c && DecimalValue(c) == core
  {
    DecimalRoundTrip(line);
    DecimalRoundTrip(core);
    var d := Decimal(line);
    LocationParts(PadLeft(d, 5), d, Decimal(core));
  }

  /** The caller's name as printed: whole in brackets up to 23 characters,
      else its first 21 characters and "~]"; with the padding the field is 24
      wide, except 25 for a name of exactly 23 characters. */
  lemma TagWidth(name: string)
    ensures |name| <= 23 ==> NameTag(name) == "[" + name + "]"
    ensures |name| > 23 ==> NameTag(name) == "[" + name[..21] + "~]"
    ensures |NameTag(name) + Padding(name)| == if |name| == 23 then 25 else 24
  {
    if |name| > 23 {
      assert ("[" + name + "]")[..22] == "[" + name[..21];
    }
  }

  /** A 23-character name pushes its message one column further right than
      any other name does. */
  lemma TagMisaligned(name: string, other: string)
    requires |name| == 23 && |other| != 23
    ensures |NameTag(name) + Padding(name)| == FunctionSize
    ensures |NameTag(name) + Padding(name)| == |NameTag(other) + Padding(other)| + 1
  {
    TagWidth(name);
    TagWidth(other);
  }

  /** The tag as evidently intended: truncated as soon as the bracketed
      name exceeds `FunctionSize - 1`. */
  function AlignedNameTag(name: string): (tag: string)
    ensures |tag + Padding(name)| == FunctionSize - 1
    ensures |name| <= 22 ==> tag == "[" + name + "]"
    ensures |name| > 22 ==> tag == "[" + name[..21] + "~]"
  {
    var tag := "[" + name + "]";
    if |tag| > FunctionSize - 1 then
      assert tag[..FunctionSize - 3] == "[" + name[..21];
      tag[..FunctionSize - 3] + "~]"
    else tag
  }

  /** The header with the intended tag: every message then starts in the
      same column whatever the caller's name. */
  function AlignedHeader(line: nat, core: nat, name: string): (h: string)
    ensures |h| == |Location(line, core)| + FunctionSize + 1
  {
    Location(line, core) + AlignedNameTag(name) + Padding(name) + "- "
  }

  /** `log_info` with the intended tag. */
  function LogInfoAligned(connected: bool, line: nat, core: nat, name: string, body: string): string
    requires Nul !in name && |name| + 2 < WorkBufferSize
    requires Nul !in body && '%' !in body
    requires line < 0x1_0000_0000
  {
    Emit(connected, AlignedHeader(line, core, name), body)
  }
}
