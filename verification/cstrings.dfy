/**
  Helpers shared by every module: C strings as Dafny strings.

  A C string is a `string` that holds no '\0'; the terminator is implicit.
  A fixed-width C buffer (one row of `SubTopic[10][40]`, say) is a `seq<char>`
  of exactly its width, padded with '\0' after its contents.
 */
module CStrings {

  const Nul: char := '\0'

  /** An unsigned 8-bit value. */
  type Byte = b: int | 0 <= b < 256

  datatype Option<T> = None | Some(value: T)

  function Min(a: int, b: int): int {
    if a <= b then a else b
  }

  function Max(a: int, b: int): int {
    if a >= b then a else b
  }

  /** The byte C reads at index `i` of the NUL-terminated string `s`
      (the terminator, or anything after it, reads as '\0'). */
  function At(s: string, i: nat): (c: char)
    requires Nul !in s
    ensures c == Nul <==> i >= |s|
  {
    if i < |s| then s[i] else Nul
  }

  /** At most the first `n` characters of `s`. */
  function Take(s: string, n: nat): (r: string)
    ensures |r| == Min(|s|, n)
    ensures r <= s
  {
    if |s| <= n then s else s[..n]
  }

  /** The contents of a C buffer: everything before its first '\0'. */
  function CStr(buf: seq<char>): (r: string)
    ensures r <= buf
    ensures Nul !in r
    ensures |r| < |buf| ==> buf[|r|] == Nul
  {
    if buf == [] || buf[0] == Nul then []
    else [buf[0]] + CStr(buf[1..])
  }

  /** A buffer of `width` bytes holding the C string `s`, '\0'-padded. */
  function Row(s: string, width: nat): (buf: seq<char>)
    requires |s| < width
    ensures |buf| == width
    ensures buf[..|s|] == s
    ensures forall j :: |s| <= j < width ==> buf[j] == Nul
  {
    s + seq(width - |s|, _ => Nul)
  }

  /** Reading back a padded row yields exactly the string stored in it. */
  lemma {:induction false} CStrOfRow(s: string, width: nat)
    requires Nul !in s && |s| < width
    ensures CStr(Row(s, width)) == s
    decreases |s|
  {
    var buf := Row(s, width);
    if s == [] {
      assert buf[0] == Nul;
    } else {
      assert buf[0] == s[0];
      assert buf[1..] == Row(s[1..], width - 1);
      CStrOfRow(s[1..], width - 1);
      assert s == [s[0]] + s[1..];
    }
  }
}
