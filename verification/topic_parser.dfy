/**
  The topic / payload tokenizer of the MQTT module (`mqtt_parse_topic`).

  The session record keeps a `Topic` and a `Payload` C string and two fixed
  grids, `SubTopic[10][40]` and `SubPayload[10][40]`. Parsing one of the two
  strings wipes its grid and then cuts the string at every '/' into at most
  ten segments of at most 39 characters each: one leading '/' is dropped,
  over-long segments are truncated and segments after the tenth are dropped.

  `Tokenize` states that outcome functionally (split, truncate, lay out) and
  `ParseInto` mirrors the index loop of the C code; the two are proved equal.
 */
module TopicParser {
  import opened CStrings

  // Limits of the session record.
  const MaxSubTopic: nat := 10
  const MaxTopicLength: nat := 40
  const MaxSubPayload: nat := 10
  const MaxPayloadLength: nat := 40
  /** Size of the `Topic` buffer, terminator included. */
  const TopicSize: nat := 100

  // Values of the `ParseUnit` selector.
  const ParseTopic: nat := 1
  const ParsePayload: nat := 2

  const Separator: char := '/'

  /** The part of the session record the tokenizer reads and writes. */
  datatype Mqtt = Mqtt(
    topic: string,
    payload: string,
    subTopic: seq<seq<char>>,
    subPayload: seq<seq<char>>)

  /** `g` has the shape of a C array `[count][length]`. */
  predicate IsGrid(g: seq<seq<char>>, count: nat, length: nat) {
    |g| == count && forall k :: 0 <= k < |g| ==> |g[k]| == length
  }

  /** What the C declarations guarantee of a session record: both sources are
      C strings, the topic fits its 100-byte buffer, and both grids have the
      declared dimensions. */
  predicate Valid(m: Mqtt) {
    && Nul !in m.topic && |m.topic| < TopicSize
    && Nul !in m.payload
    && IsGrid(m.subTopic, MaxSubTopic, MaxTopicLength)
    && IsGrid(m.subPayload, MaxSubPayload, MaxPayloadLength)
  }

  // ---------------------------------------------------------------------------
  // Splitting at '/'.
  // ---------------------------------------------------------------------------

  /** The '/'-separated fields of `s`, empty ones included: a string with `n`
      separators has `n + 1` fields. Defined on the last character, the way
      the scanning loop extends its current segment. */
  function Fields(s: string): (f: seq<string>)
    ensures |f| >= 1
    decreases |s|
  {
    if s == [] then [[]]
    else
      var f := Fields(s[..|s| - 1]);
      var c := s[|s| - 1];
      if c == Separator then f + [[]]
      else f[..|f| - 1] + [f[|f| - 1] + [c]]
  }

  /** The fields glued back together with '/' between them. */
  function Join(f: seq<string>): string
    decreases |f|
  {
    if |f| == 0 then []
    else if |f| == 1 then f[0]
    else Join(f[..|f| - 1]) + [Separator] + f[|f| - 1]
  }

  predicate SeparatorFree(f: seq<string>) {
    forall k :: 0 <= k < |f| ==> Separator !in f[k]
  }

  lemma {:induction false} FieldsAreSeparatorFree(s: string)
    ensures SeparatorFree(Fields(s))
    decreases |s|
  {
    if s != [] {
      FieldsAreSeparatorFree(s[..|s| - 1]);
    }
  }

  /** Joining the fields of `s` gives `s` back. */
  lemma {:induction false} JoinFields(s: string)
    ensures Join(Fields(s)) == s
    decreases |s|
  {
    if s != [] {
      var p := s[..|s| - 1];
      var c := s[|s| - 1];
      JoinFields(p);
      assert s == p + [c];
      if c == Separator {
        JoinOpen(Fields(p));
      } else {
        JoinExtend(Fields(p), c);
      }
    }
  }

  lemma JoinOpen(f: seq<string>)
    requires |f| >= 1
    ensures Join(f + [[]]) == Join(f) + [Separator]
  {
    var g := f + [[]];
    assert g[..|g| - 1] == f;
  }

  lemma JoinExtend(f: seq<string>, c: char)
    requires |f| >= 1
    ensures Join(f[..|f| - 1] + [f[|f| - 1] + [c]]) == Join(f) + [c]
  {
    var g := f[..|f| - 1] + [f[|f| - 1] + [c]];
    if |f| > 1 {
      assert g[..|g| - 1] == f[..|f| - 1];
    }
  }

  /** Appending separator-free text extends the last field only. */
  lemma {:induction false} FieldsAppendSeparatorFree(x: string, b: string)
    requires Separator !in b
    ensures var f := Fields(x);
      Fields(x + b) == f[..|f| - 1] + [f[|f| - 1] + b]
    decreases |b|
  {
    var f := Fields(x);
    if b == [] {
      assert x + b == x;
      assert f[|f| - 1] + b == f[|f| - 1];
      assert f == f[..|f| - 1] + [f[|f| - 1]];
    } else {
      var b' := b[..|b| - 1];
      var c := b[|b| - 1];
      FieldsAppendSeparatorFree(x, b');
      assert (x + b)[..|x + b| - 1] == x + b';
      assert f[|f| - 1] + b' + [c] == f[|f| - 1] + b;
    }
  }

  /** Splitting the join of separator-free fields gives the fields back. */
  lemma {:induction false} FieldsJoin(f: seq<string>)
    requires |f| >= 1 && SeparatorFree(f)
    ensures Fields(Join(f)) == f
    decreases |f|
  {
    if |f| == 1 {
      FieldsAppendSeparatorFree([], f[0]);
      assert [] + f[0] == f[0];
    } else {
      var init := f[..|f| - 1];
      FieldsJoin(init);
      var j := Join(init);
      var e := init + [[]];
      assert Fields(j + [Separator]) == e by {
        assert (j + [Separator])[..|j + [Separator]| - 1] == j;
      }
      FieldsAppendSeparatorFree(j + [Separator], f[|f| - 1]);
      assert j + [Separator] + f[|f| - 1] == Join(f);
      assert e[..|e| - 1] == init;
      assert e[|e| - 1] + f[|f| - 1] == f[|f| - 1];
      assert f == init + [f[|f| - 1]];
    }
  }

  /** Reading more input never changes a field that is already closed. */
  lemma {:induction false} FieldsStable(p: string, q: string)
    ensures |Fields(p + q)| >= |Fields(p)|
    ensures forall k :: 0 <= k < |Fields(p)| - 1 ==> Fields(p + q)[k] == Fields(p)[k]
    decreases |q|
  {
    if q == [] {
      assert p + q == p;
    } else {
      var q' := q[..|q| - 1];
      FieldsStable(p, q');
      assert (p + q)[..|p + q| - 1] == p + q';
    }
  }

  // ---------------------------------------------------------------------------
  // The functional statement of the tokenizer.
  // ---------------------------------------------------------------------------

  /** One leading '/' is absorbed; any other is a separator. */
  function DropLeadingSeparator(s: string): (t: string)
    ensures |s| > 0 && s[0] == Separator ==> [Separator] + t == s
    ensures !(|s| > 0 && s[0] == Separator) ==> t == s
  {
    if |s| > 0 && s[0] == Separator then s[1..] else s
  }

  /** Segment `k` as stored: the `k`-th field cut to `length - 1` characters,
      or empty when there is no such field. */
  function Segment(f: seq<string>, k: nat, length: nat): string
    requires length >= 1
  {
    if k < |f| then Take(f[k], length - 1) else []
  }

  /** The grid holding the first `count` segments of the fields `f`. */
  function Layout(f: seq<string>, count: nat, length: nat): (g: seq<seq<char>>)
    requires length >= 1
    ensures IsGrid(g, count, length)
  {
    seq(count, k requires 0 <= k < count => Row(Segment(f, k, length), length))
  }

  /** The grid the C loop leaves behind for the source `src`. */
  function Tokenize(src: string, count: nat, length: nat): (g: seq<seq<char>>)
    requires length >= 1
    ensures IsGrid(g, count, length)
  {
    Layout(Fields(DropLeadingSeparator(src)), count, length)
  }

  // ---------------------------------------------------------------------------
  // The C loop.
  // ---------------------------------------------------------------------------

  /** The fields read after the loop has passed `i` characters of `src`. */
  function Scanned(src: string, i: nat): seq<string>
    requires i <= |src|
  {
    Fields(DropLeadingSeparator(src[..i]))
  }

  /** The text behind `Scanned` grows by one character per step, except
      for the leading '/' at index 0. */
  lemma ScannedText(src: string, i: nat)
    requires i < |src|
    requires i > 0 || src[0] != Separator
    ensures var t := DropLeadingSeparator(src[..i + 1]);
      |t| >= 1 && t[..|t| - 1] == DropLeadingSeparator(src[..i]) && t[|t| - 1] == src[i]
  {
    if i > 0 && src[0] == Separator {
      assert src[..i + 1][1..] == src[..i][1..] + [src[i]];
    }
  }

  /** A '/' after index 0 opens a new, empty field. */
  lemma ScannedSeparator(src: string, i: nat)
    requires 0 < i < |src| && src[i] == Separator
    ensures Scanned(src, i + 1) == Scanned(src, i) + [[]]
  {
    ScannedText(src, i);
  }

  /** Any other character extends the last field. */
  lemma ScannedChar(src: string, i: nat)
    requires i < |src| && src[i] != Separator
    ensures var f := Scanned(src, i);
      Scanned(src, i + 1) == f[..|f| - 1] + [f[|f| - 1] + [src[i]]]
    ensures |Scanned(src, i + 1)| == |Scanned(src, i)|
    ensures var n := |Scanned(src, i)| - 1;
      Scanned(src, i + 1)[n] == Scanned(src, i)[n] + [src[i]]
  {
    ScannedText(src, i);
  }

  /** At the end of the source the loop has read all of it. */
  lemma ScannedAll(src: string, count: nat, length: nat)
    requires length >= 1
    ensures Layout(Scanned(src, |src|), count, length) == Tokenize(src, count, length)
  {
    assert src[..|src|] == src;
  }

  /** A run of characters without '/' extends the last field by exactly
      that run. */
  lemma ScannedRun(src: string, i: nat, j: nat)
    requires 0 < i <= j <= |src|
    requires forall k :: i <= k < j ==> src[k] != Separator
    ensures var f := Scanned(src, i);
      Scanned(src, j) == f[..|f| - 1] + [f[|f| - 1] + src[i..j]]
  {
    var t := DropLeadingSeparator(src[..i]);
    assert src[..j] == src[..i] + src[i..j];
    assert DropLeadingSeparator(src[..j]) == t + src[i..j] by {
      if src[0] == Separator {
        assert src[..j][1..] == src[..i][1..] + src[i..j];
      }
    }
    assert Separator !in src[i..j];
    FieldsAppendSeparatorFree(t, src[i..j]);
  }

  /** Once `count` fields are closed, the rest of the source is irrelevant. */
  lemma ScannedRestIgnored(src: string, i: nat, count: nat, length: nat)
    requires i <= |src| && length >= 1
    requires |Scanned(src, i)| > count
    ensures Layout(Scanned(src, i), count, length) == Tokenize(src, count, length)
  {
    var t := DropLeadingSeparator(src[..i]);
    if i == 0 {
      assert t == [];
    } else {
      assert src == src[..i] + src[i..];
      assert DropLeadingSeparator(src) == t + src[i..];
    }
    FieldsStable(t, src[i..]);
    LayoutAgrees(Scanned(src, i), Fields(DropLeadingSeparator(src)), count, length);
  }

  /** One character of the current field, while its segment has room: it
      is written at the segment's end. */
  lemma CharStep(src: string, i: nat, count: nat, length: nat)
    requires i < |src| && src[i] != Separator && length >= 2
    requires |Scanned(src, i)| - 1 < count
    requires var f := Scanned(src, i); |f[|f| - 1]| < length - 1
    ensures var f, f' := Scanned(src, i), Scanned(src, i + 1);
      var item, g := |f| - 1, Layout(f, count, length);
      && |f'| == |f|
      && |f'[item]| == |f[item]| + 1
      && g[item := g[item][|f[item]| := src[i]]] == Layout(f', count, length)
  {
    ScannedChar(src, i);
    LayoutAppend(Scanned(src, i), src[i], count, length);
  }

  /** A '/' after index 0: a new, empty segment; the grid stays as it is. */
  lemma SeparatorStep(src: string, i: nat, count: nat, length: nat)
    requires 0 < i < |src| && src[i] == Separator && length >= 1
    ensures var f, f' := Scanned(src, i), Scanned(src, i + 1);
      && |f'| == |f| + 1
      && f'[|f|] == []
      && Layout(f', count, length) == Layout(f, count, length)
  {
    ScannedSeparator(src, i);
    LayoutAppendEmpty(Scanned(src, i), count, length);
  }

  /** Writing character `c` at the end of the current segment. */
  lemma LayoutAppend(f: seq<string>, c: char, count: nat, length: nat)
    requires length >= 2 && |f| >= 1 && |f| - 1 < count
    requires |f[|f| - 1]| < length - 1
    ensures var g := Layout(f, count, length);
      var item := |f| - 1;
      var f' := f[..item] + [f[item] + [c]];
      g[item := g[item][|f[item]| := c]] == Layout(f', count, length)
  {
    var item := |f| - 1;
    var g := Layout(f, count, length);
    var f' := f[..item] + [f[item] + [c]];
    var g' := Layout(f', count, length);
    var h := g[item := g[item][|f[item]| := c]];
    forall k | 0 <= k < count
      ensures h[k] == g'[k]
    {
      if k == item {
        assert Segment(f', k, length) == f[item] + [c];
        assert Segment(f, k, length) == f[item];
      } else {
        assert Segment(f', k, length) == Segment(f, k, length);
      }
    }
  }

  /** A segment already cut to `length - 1` characters absorbs more input. */
  lemma LayoutAppendTruncated(f: seq<string>, t: string, count: nat, length: nat)
    requires length >= 1 && |f| >= 1 && |f[|f| - 1]| >= length - 1
    ensures var f' := f[..|f| - 1] + [f[|f| - 1] + t];
      Layout(f', count, length) == Layout(f, count, length)
  {
    var f' := f[..|f| - 1] + [f[|f| - 1] + t];
    forall k | 0 <= k < count
      ensures Layout(f', count, length)[k] == Layout(f, count, length)[k]
    {
      if k == |f| - 1 {
        assert Take(f'[k], length - 1) == Take(f[k], length - 1);
      } else {
        assert Segment(f', k, length) == Segment(f, k, length);
      }
    }
  }

  /** A new empty field does not change the grid. */
  lemma LayoutAppendEmpty(f: seq<string>, count: nat, length: nat)
    requires length >= 1
    ensures Layout(f + [[]], count, length) == Layout(f, count, length)
  {
    forall k | 0 <= k < count
      ensures Layout(f + [[]], count, length)[k] == Layout(f, count, length)[k]
    {
      assert Segment(f + [[]], k, length) == Segment(f, k, length);
    }
  }

  /** Two field lists agreeing on their first `count` entries lay out alike. */
  lemma LayoutAgrees(f: seq<string>, f': seq<string>, count: nat, length: nat)
    requires length >= 1 && |f| >= count && |f'| >= count
    requires forall k :: 0 <= k < count ==> f[k] == f'[k]
    ensures Layout(f, count, length) == Layout(f', count, length)
  {
    forall k | 0 <= k < count
      ensures Layout(f, count, length)[k] == Layout(f', count, length)[k]
    {
      assert Segment(f, k, length) == Segment(f', k, length);
    }
  }

  /** Before the first character the grid is all '\0'. */
  lemma LayoutWiped(src: string, count: nat, length: nat)
    requires length >= 1
    ensures seq(count, _ => seq(length, _ => Nul)) == Layout(Scanned(src, 0), count, length)
  {
    assert Scanned(src, 0) == [[]];
  }

  /** The truncation loop: moves `i` past the characters of an over-long
      field up to the next '/' or the end of the source; the grid does not
      change because those characters are beyond the segment's capacity. */
  method SkipField(src: string, i: nat, count: nat, length: nat) returns (j: nat)
    requires Nul !in src && 1 <= i <= |src| && length >= 1
    requires var f := Scanned(src, i); |f[|f| - 1]| >= length - 1
    ensures i <= j <= |src|
    ensures j == |src| || src[j] == Separator
    ensures |Scanned(src, j)| == |Scanned(src, i)|
    ensures var f := Scanned(src, j); |f[|f| - 1]| >= length - 1
    ensures Layout(Scanned(src, j), count, length) == Layout(Scanned(src, i), count, length)
  {
    j := i;
    while At(src, j) != Nul && At(src, j) != Separator
      invariant i <= j <= |src|
      invariant forall k :: i <= k < j ==> src[k] != Separator
      decreases |src| - j
    {
      j := j + 1;
    }
    ScannedRun(src, i, j);
    LayoutAppendTruncated(Scanned(src, i), src[i..j], count, length);
  }

  /** The state of the scanning loop of `mqtt_parse_topic` after `i`
      characters: `item` is the current segment, `cc` the number of
      characters written into it, and the grid holds what has been read. */
  predicate Progress(src: string, count: nat, length: nat,
                     i: nat, item: nat, cc: nat, grid: seq<seq<char>>)
    requires length >= 1
  {
    && i <= |src|
    && item < count
    && item == |Scanned(src, i)| - 1
    && cc == Min(|Scanned(src, i)[item]|, length - 1)
    && (cc == length - 1 ==> i == |src| || src[i] == Separator)
    && grid == Layout(Scanned(src, i), count, length)
  }

  /** One pass of the loop body. `done` is set when a '/' closes the last
      segment the grid has room for; the grid is then final. */
  method Advance(src: string, count: nat, length: nat,
                 i: nat, item: nat, cc: nat, grid: seq<seq<char>>)
    returns (i': nat, item': nat, cc': nat, grid': seq<seq<char>>, done: bool)
    requires Nul !in src && length >= 2 && i < |src|
    requires Progress(src, count, length, i, item, cc, grid)
    ensures i < i' <= |src|
    ensures done ==> grid' == Tokenize(src, count, length)
    ensures !done ==> Progress(src, count, length, i', item', cc', grid')
  {
    i', item', cc', grid', done := i, item, cc, grid, false;
    if src[i] == Separator {
      if i == 0 {
        // The very first leading slash.
        assert DropLeadingSeparator(src[..1]) == [];
        i' := i + 1;
        return;
      }
      // Skip to the next segment.
      SeparatorStep(src, i, count, length);
      item' := item + 1;
      cc' := 0;
      i' := i + 1;
      if item' >= count {
        ScannedRestIgnored(src, i', count, length);
        done := true;
      }
      return;
    }

    CharStep(src, i, count, length);
    grid' := grid[item := grid[item][cc := src[i]]];
    cc' := cc + 1;
    i' := i + 1;
    if cc' >= length - 1 && At(src, i') != Separator {
      // This segment is full: skip the rest of its field.
      i' := SkipField(src, i', count, length);
    }
  }

  /** The scanning loop of `mqtt_parse_topic` on a `[count][length]` grid:
      the grid is wiped, then the source is walked one character at a time. */
  method ParseInto(src: string, count: nat, length: nat) returns (grid: seq<seq<char>>)
    requires Nul !in src
    requires count >= 1 && length >= 2
    ensures grid == Tokenize(src, count, length)
  {
    grid := seq(count, _ => seq(length, _ => Nul));
    LayoutWiped(src, count, length);
    var i, item, cc := 0, 0, 0;
    while i < |src|
      invariant Progress(src, count, length, i, item, cc, grid)
      decreases |src| - i
    {
      var done;
      i, item, cc, grid, done := Advance(src, count, length, i, item, cc, grid);
      if done {
        return;
      }
    }
    ScannedAll(src, count, length);
  }

  /** `mqtt_parse_topic`: the selector picks the source string, the grid and
      its limits; that grid alone is wiped and refilled, and any other
      selector value leaves the whole record as it was. */
  method MqttParseTopic(m: Mqtt, unit: nat) returns (r: Mqtt)
    requires Valid(m) && unit < 256
    ensures Valid(r)
    ensures unit != ParseTopic && unit != ParsePayload ==> r == m
    ensures unit == ParseTopic ==>
      r == m.(subTopic := Tokenize(m.topic, MaxSubTopic, MaxTopicLength))
    ensures unit == ParsePayload ==>
      r == m.(subPayload := Tokenize(m.payload, MaxSubPayload, MaxPayloadLength))
  {
    if unit == ParseTopic {
      var grid := ParseInto(m.topic, MaxSubTopic, MaxTopicLength);
      r := m.(subTopic := grid);
    } else if unit == ParsePayload {
      var grid := ParseInto(m.payload, MaxSubPayload, MaxPayloadLength);
      r := m.(subPayload := grid);
    } else {
      // Invalid parameter: only a diagnostic is logged.
      r := m;
    }
  }

  // ---------------------------------------------------------------------------
  // What the grid holds, read back as C strings.
  // ---------------------------------------------------------------------------

  /** Each row of a grid read as a C string. */
  function Contents(g: seq<seq<char>>): (c: seq<string>)
    ensures |c| == |g|
  {
    seq(|g|, k requires 0 <= k < |g| => CStr(g[k]))
  }

  lemma {:induction false} FieldsWithoutNul(s: string)
    requires Nul !in s
    ensures forall k :: 0 <= k < |Fields(s)| ==> Nul !in Fields(s)[k]
    decreases |s|
  {
    if s != [] {
      var p := s[..|s| - 1];
      assert forall c :: c in p ==> c in s;
      FieldsWithoutNul(p);
    }
  }

  /** Row `k` holds the `k`-th field of the source (after the absorbed
      leading '/') cut to `length - 1` characters, rows past the last field
      are empty, and every row keeps its final byte as the terminator. */
  lemma TokenizeContents(src: string, count: nat, length: nat)
    requires Nul !in src && length >= 1
    ensures var f := Fields(DropLeadingSeparator(src));
      var g := Tokenize(src, count, length);
      && (forall k :: 0 <= k < count ==> |Contents(g)[k]| < length && g[k][length - 1] == Nul)
      && (forall k :: 0 <= k < count && k < |f| ==> Contents(g)[k] == Take(f[k], length - 1))
      && (forall k :: |f| <= k < count ==> Contents(g)[k] == [])
  {
    var f := Fields(DropLeadingSeparator(src));
    var g := Tokenize(src, count, length);
    FieldsWithoutNul(DropLeadingSeparator(src));
    forall k | 0 <= k < count
      ensures Contents(g)[k] == Segment(f, k, length)
    {
      CStrOfRow(Segment(f, k, length), length);
    }
  }

  /** Rejoining the stored segments with '/' restores the source (minus its
      leading '/') whenever nothing had to be truncated or dropped. */
  lemma RoundTrip(src: string, count: nat, length: nat)
    requires Nul !in src && length >= 1
    requires var f := Fields(DropLeadingSeparator(src));
      |f| <= count && forall k :: 0 <= k < |f| ==> |f[k]| < length
    ensures var n := |Fields(DropLeadingSeparator(src))|;
      Join(Contents(Tokenize(src, count, length))[..n]) == DropLeadingSeparator(src)
  {
    var f := Fields(DropLeadingSeparator(src));
    TokenizeContents(src, count, length);
    assert Contents(Tokenize(src, count, length))[..|f|] == f;
    JoinFields(DropLeadingSeparator(src));
  }

  /** Fields after the `count`-th are dropped without a trace: the grid is
      the one obtained from the first `count` fields alone. */
  lemma SurplusFieldsDropped(src: string, count: nat, length: nat)
    requires length >= 1 && count >= 1
    requires |Fields(DropLeadingSeparator(src))| > count
    ensures var f := Fields(DropLeadingSeparator(src));
      Tokenize(src, count, length) == Tokenize([Separator] + Join(f[..count]), count, length)
  {
    var f := Fields(DropLeadingSeparator(src));
    FieldsAreSeparatorFree(DropLeadingSeparator(src));
    FieldsJoin(f[..count]);
    assert DropLeadingSeparator([Separator] + Join(f[..count])) == Join(f[..count]);
    LayoutAgrees(f, f[..count], count, length);
  }

  /** The empty source and a lone '/' both leave every row empty. */
  lemma BlankSources(count: nat, length: nat)
    requires length >= 1
    ensures forall k :: 0 <= k < count ==> Contents(Tokenize([], count, length))[k] == []
    ensures Tokenize([Separator], count, length) == Tokenize([], count, length)
  {
    TokenizeContents([], count, length);
  }

  /** The rows hold exactly the fields when none is too long and there are
      no more of them than rows. */
  lemma ContentsAreFields(src: string, f: seq<string>, count: nat, length: nat)
    requires Nul !in src && length >= 1
    requires Fields(DropLeadingSeparator(src)) == f
    requires |f| <= count && forall k :: 0 <= k < |f| ==> |f[k]| < length
    ensures forall k :: 0 <= k < |f| ==> Contents(Tokenize(src, count, length))[k] == f[k]
    ensures forall k :: |f| <= k < count ==> Contents(Tokenize(src, count, length))[k] == []
  {
    TokenizeContents(src, count, length);
  }

  // Only the '/' at index 0 is absorbed; every other '/' closes a segment,
  // so doubled separators leave empty segments.

  /** "//a": the second '/' is a separator, leaving segment 0 empty. */
  lemma DoubleLeadingSeparator(src: string, a: string)
    requires Nul !in a && Separator !in a && 0 < |a| < MaxTopicLength
    requires src == [Separator, Separator] + a
    ensures var c := Contents(Tokenize(src, MaxSubTopic, MaxTopicLength));
      && c[0] == [] && c[1] == a
      && forall k :: 2 <= k < MaxSubTopic ==> c[k] == []
  {
    var f: seq<string> := [[], a];
    assert f[..1] == [[]];
    assert DropLeadingSeparator(src) == Join(f);
    FieldsJoin(f);
    ContentsAreFields(src, f, MaxSubTopic, MaxTopicLength);
  }

  /** "a//b": two separators in a row leave an empty segment between. */
  lemma InnerDoubleSeparator(src: string, a: string, b: string)
    requires Nul !in a && Separator !in a && 0 < |a| < MaxTopicLength
    requires Nul !in b && Separator !in b && 0 < |b| < MaxTopicLength
    requires src == a + [Separator, Separator] + b
    ensures var c := Contents(Tokenize(src, MaxSubTopic, MaxTopicLength));
      && c[0] == a && c[1] == [] && c[2] == b
      && forall k :: 3 <= k < MaxSubTopic ==> c[k] == []
  {
    var f: seq<string> := [a, [], b];
    assert f[..2] == [a, []] && f[..2][..1] == [a];
    assert Join(f[..2]) == a + [Separator];
    assert src[0] == a[0] != Separator;
    assert DropLeadingSeparator(src) == Join(f);
    FieldsJoin(f);
    ContentsAreFields(src, f, MaxSubTopic, MaxTopicLength);
  }

  /** "a/b/c": one segment per field, the rest empty. */
  lemma ThreeSegments(src: string, a: string, b: string, c: string)
    requires Nul !in a && Separator !in a && 0 < |a| < MaxTopicLength
    requires Nul !in b && Separator !in b && |b| < MaxTopicLength
    requires Nul !in c && Separator !in c && |c| < MaxTopicLength
    requires src == a + [Separator] + b + [Separator] + c
    ensures var r := Contents(Tokenize(src, MaxSubTopic, MaxTopicLength));
      && r[0] == a && r[1] == b && r[2] == c
      && forall k :: 3 <= k < MaxSubTopic ==> r[k] == []
  {
    var f: seq<string> := [a, b, c];
    assert f[..2] == [a, b] && f[..2][..1] == [a];
    assert Join(f[..2]) == a + [Separator] + b;
    assert src[0] == a[0] != Separator;
    assert DropLeadingSeparator(src) == Join(f);
    FieldsJoin(f);
    ContentsAreFields(src, f, MaxSubTopic, MaxTopicLength);
  }

  /** A source without '/' lands whole in segment 0, cut to 39 characters. */
  lemma LongFieldTruncated(src: string)
    requires Nul !in src && Separator !in src
    ensures Contents(Tokenize(src, MaxSubTopic, MaxTopicLength))[0] == Take(src, 39)
    ensures forall k :: 1 <= k < MaxSubTopic ==> Contents(Tokenize(src, MaxSubTopic, MaxTopicLength))[k] == []
  {
    FieldsAppendSeparatorFree([], src);
    assert [] + src == src;
    TokenizeContents(src, MaxSubTopic, MaxTopicLength);
  }
}
