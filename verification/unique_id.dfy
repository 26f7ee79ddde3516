/**
  The text form of the board's unique id (`get_pico_unique_id`): the eight
  id bytes as two upper-case hexadecimal digits each, with a '-' after
  bytes 1, 3 and 5, e.g. "E661-6408-4329-202D". Reading the id from flash
  is outside the model; the eight bytes are an input.
 */
module UniqueId {
  import opened CStrings
  import opened Ascii

  /** `PICO_UNIQUE_BOARD_ID_SIZE_BYTES`. */
  const IdSize: nat := 8
  /** Length of the rendered id. */
  const IdLength: nat := 19
  /** Size of the `PicoUniqueId` buffers that receive it. */
  const IdBufferSize: nat := 40
  const Dash: char := '-'

  /** The string after the loop has handled bytes `0 .. n - 1`. */
  function RenderPrefix(id: seq<Byte>, n: nat): string
    requires |id| == IdSize && n <= IdSize
    decreases n
  {
    if n == 0 then []
    else
      var i := n - 1;
      RenderPrefix(id, i) + Hex2(id[i]) + (if i % 2 == 1 && i != 7 then [Dash] else [])
  }

  function Render(id: seq<Byte>): (s: string)
    requires |id| == IdSize
    ensures |s| == IdLength
  {
    PrefixLength(id, IdSize);
    RenderPrefix(id, IdSize)
  }

  /** Where the two digits of byte `k` start. */
  function Pos(k: nat): nat {
    2 * k + k / 2
  }

  lemma PosBelow(k: nat, i: nat)
    requires k < i
    ensures Pos(k) + 2 <= Pos(i)
  {
  }

  /** One more byte: its two digits, then a dash after the first byte of
      each pair but the last. */
  lemma PrefixStep(id: seq<Byte>, n: nat)
    requires |id| == IdSize && 0 < n <= IdSize
    ensures var p, r := RenderPrefix(id, n - 1), RenderPrefix(id, n);
      && |r| == |p| + (if (n - 1) % 2 == 1 && n != IdSize then 3 else 2)
      && r[..|p|] == p
      && r[|p|] == Hex2(id[n - 1])[0] && r[|p| + 1] == Hex2(id[n - 1])[1]
      && ((n - 1) % 2 == 1 && n != IdSize ==> r[|p| + 2] == Dash)
  {
  }

  /** After `n` bytes the text is `Pos(n)` long (the dash that follows
      the first byte of each pair included), or 19 long once all eight are
      done. */
  lemma {:induction false} PrefixLength(id: seq<Byte>, n: nat)
    requires |id| == IdSize && n <= IdSize
    ensures |RenderPrefix(id, n)| == if n == IdSize then IdLength else Pos(n)
    decreases n
  {
    if n > 0 {
      PrefixLength(id, n - 1);
      PrefixStep(id, n);
    }
  }

  /** Byte `k` sits at `Pos(k)`. */
  lemma {:induction false} PrefixDigits(id: seq<Byte>, n: nat)
    requires |id| == IdSize && n <= IdSize
    ensures |RenderPrefix(id, n)| == if n == IdSize then IdLength else Pos(n)
    ensures forall k :: 0 <= k < n ==>
      RenderPrefix(id, n)[Pos(k)] == Hex2(id[k])[0] && RenderPrefix(id, n)[Pos(k) + 1] == Hex2(id[k])[1]
    decreases n
  {
    PrefixLength(id, n);
    if n > 0 {
      PrefixDigits(id, n - 1);
      PrefixStep(id, n);
      DigitsStep(id, n - 1, RenderPrefix(id, n - 1), RenderPrefix(id, n));
    }
  }

  /** The step of `PrefixDigits`: `r` extends `p`, which holds the digits
      of bytes `0 .. i - 1`, by the digits of byte `i`. */
  lemma DigitsStep(id: seq<Byte>, i: nat, p: string, r: string)
    requires |id| == IdSize && i < IdSize
    requires |p| == Pos(i) && |p| + 2 <= |r| && r[..|p|] == p
    requires r[|p|] == Hex2(id[i])[0] && r[|p| + 1] == Hex2(id[i])[1]
    requires forall k :: 0 <= k < i ==> p[Pos(k)] == Hex2(id[k])[0] && p[Pos(k) + 1] == Hex2(id[k])[1]
    ensures forall k :: 0 <= k <= i ==> r[Pos(k)] == Hex2(id[k])[0] && r[Pos(k) + 1] == Hex2(id[k])[1]
  {
    forall k | 0 <= k <= i
      ensures r[Pos(k)] == Hex2(id[k])[0] && r[Pos(k) + 1] == Hex2(id[k])[1]
    {
      if k < i {
        PosBelow(k, i);
        DigitsKept(p, r, Pos(k), Hex2(id[k]));
      }
    }
  }

  /** Two digits inside the shorter prefix survive in the longer one. */
  lemma DigitsKept(p: string, r: string, x: nat, h: string)
    requires |h| == 2 && x + 1 < |p| <= |r| && r[..|p|] == p
    requires p[x] == h[0] && p[x + 1] == h[1]
    ensures r[x] == h[0] && r[x + 1] == h[1]
  {
    assert r[..|p|][x] == r[x] && r[..|p|][x + 1] == r[x + 1];
  }

  /** A dash sits just before each even byte but the first. */
  lemma {:induction false} PrefixDashes(id: seq<Byte>, n: nat)
    requires |id| == IdSize && n <= IdSize
    ensures |RenderPrefix(id, n)| == if n == IdSize then IdLength else Pos(n)
    ensures forall k :: 0 < k <= n && k < IdSize && k % 2 == 0 ==> RenderPrefix(id, n)[Pos(k) - 1] == Dash
    decreases n
  {
    PrefixLength(id, n);
    if n > 0 {
      var i := n - 1;
      PrefixDashes(id, i);
      PrefixStep(id, n);
      var p, r := RenderPrefix(id, i), RenderPrefix(id, n);
      forall k | 0 < k <= n && k < IdSize && k % 2 == 0
        ensures r[Pos(k) - 1] == Dash
      {
        if k <= i {
          PosBelow(k - 1, i);
          assert p[Pos(k) - 1] == Dash;
          assert r[Pos(k) - 1] == p[Pos(k) - 1];
        } else {
          assert k == n && Pos(n) - 1 == |p| + 2;
          assert r[|p| + 2] == Dash;
        }
      }
    }
  }

  /** The rendered id: 19 characters (it fits the 40-byte buffers), a dash
      at 4, 9 and 14, and the two digits of byte `k` at `Pos(k)`. */
  lemma RenderShape(id: seq<Byte>)
    requires |id| == IdSize
    ensures |Render(id)| == IdLength && IdLength < IdBufferSize
    ensures Render(id)[4] == Dash && Render(id)[9] == Dash && Render(id)[14] == Dash
    ensures forall k :: 0 <= k < IdSize ==>
      Render(id)[Pos(k)] == Hex2(id[k])[0] && Render(id)[Pos(k) + 1] == Hex2(id[k])[1]
  {
    PrefixDigits(id, IdSize);
    PrefixDashes(id, IdSize);
    assert Pos(2) - 1 == 4 && Pos(4) - 1 == 9 && Pos(6) - 1 == 14;
  }

  /** Both characters of byte `k`'s slot are hexadecimal digits. */
  predicate HexAt(s: string, k: nat)
    requires |s| == IdLength && k < IdSize
  {
    HexValue(s[Pos(k)]) >= 0 && HexValue(s[Pos(k) + 1]) >= 0
  }

  /** The byte the two digits of slot `k` denote. */
  function ByteAt(s: string, k: nat): (v: int)
    requires |s| == IdLength && k < IdSize
    ensures HexAt(s, k) ==> 0 <= v < 256
  {
    HexValue(s[Pos(k)]) * 16 + HexValue(s[Pos(k) + 1])
  }

  /** Reads a rendered id back into its eight bytes. */
  function Parse(s: string): (r: Option<seq<Byte>>)
    ensures r.Some? ==> |s| == IdLength && |r.value| == IdSize
  {
    if |s| == IdLength && s[4] == Dash && s[9] == Dash && s[14] == Dash
       && forall k :: 0 <= k < IdSize ==> HexAt(s, k)
    then Some(seq(IdSize, k requires 0 <= k < IdSize => ByteAt(s, k)))
    else None
  }

  /** Rendering is decodable: parsing the rendered id gives the bytes back. */
  lemma ParseRender(id: seq<Byte>)
    requires |id| == IdSize
    ensures Parse(Render(id)) == Some(id)
  {
    RenderShape(id);
    var s := Render(id);
    forall k | 0 <= k < IdSize
      ensures HexAt(s, k) && ByteAt(s, k) == id[k]
    {
      var h := Hex2(id[k]);
      assert s[Pos(k)] == h[0] && s[Pos(k) + 1] == h[1];
    }
    var bytes := seq(IdSize, k requires 0 <= k < IdSize => ByteAt(s, k));
    assert bytes == id;
  }

  /** Different ids never render alike. */
  lemma RenderInjective(a: seq<Byte>, b: seq<Byte>)
    requires |a| == IdSize && |b| == IdSize
    requires Render(a) == Render(b)
    ensures a == b
  {
    ParseRender(a);
    ParseRender(b);
  }

  /** Every position of a rendered id other than the dashes belongs to the
      slot of some byte. */
  lemma PosCover(j: nat) returns (k: nat)
    requires j < IdLength && j != 4 && j != 9 && j != 14
    ensures k < IdSize && (j == Pos(k) || j == Pos(k) + 1)
  {
    k := if j < 4 then j / 2 else if j < 9 then (j - 1) / 2 else if j < 14 then (j - 2) / 2 else (j - 3) / 2;
  }

  /** What a successful parse tells about its input and its result. */
  lemma Parsed(s: string, id: seq<Byte>)
    requires Parse(s) == Some(id)
    ensures |s| == IdLength && s[4] == Dash && s[9] == Dash && s[14] == Dash
    ensures |id| == IdSize
    ensures forall k :: 0 <= k < IdSize ==> HexAt(s, k) && id[k] == ByteAt(s, k)
  {
  }

  /** Slot `k` of `r` holds the digits of the byte slot `k` of `s` denotes:
      the two slots are alike. */
  lemma SlotAgrees(r: string, s: string, b: Byte, k: nat)
    requires |r| == IdLength && |s| == IdLength && k < IdSize
    requires HexAt(s, k) && b == ByteAt(s, k)
    requires r[Pos(k)] == Hex2(b)[0] && r[Pos(k) + 1] == Hex2(b)[1]
    ensures r[Pos(k)] == s[Pos(k)] && r[Pos(k) + 1] == s[Pos(k) + 1]
  {
    Hex2OfDigits(s[Pos(k)], s[Pos(k) + 1]);
  }

  /** Parsing accepts exactly the rendered ids: whatever it accepts is the
      rendering of the bytes it returns. */
  lemma RenderParse(s: string, id: seq<Byte>)
    requires Parse(s) == Some(id)
    ensures |id| == IdSize && Render(id) == s
  {
    Parsed(s, id);
    RenderShape(id);
    var r := Render(id);
    forall k | 0 <= k < IdSize
      ensures r[Pos(k)] == s[Pos(k)] && r[Pos(k) + 1] == s[Pos(k) + 1]
    {
      SlotAgrees(r, s, id[k], k);
    }
    forall j | 0 <= j < IdLength
      ensures r[j] == s[j]
    {
      if j != 4 && j != 9 && j != 14 {
        var k := PosCover(j);
      }
    }
  }
}
