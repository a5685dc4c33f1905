/** Bytes and null-terminated strings. */
module CStrings {
  type byte = x: int | 0 <= x < 256

  /** The characters of a C string before its terminator. */
  type Text = s: seq<byte> | forall i :: 0 <= i < |s| ==> s[i] != 0

  const NUL: byte := 0
  const SPACE: byte := 32
  const SLASH: byte := 47

  /** A string literal of the source as bytes; `?` stands for a character that is not one byte. */
  function Ascii(s: string): (t: Text)
    ensures |t| == |s|
  {
    seq(|s|, i requires 0 <= i < |s| => if 0 < s[i] as int < 256 then s[i] as int else 63)
  }

  /** `s[i]`, where index `|s|` holds the terminator; no index past it may be read. */
  function CharAt(s: Text, i: nat): byte
    requires i <= |s|
  {
    if i < |s| then s[i] else NUL
  }

  /** The string stored in a buffer: everything before the first terminator. */
  function CString(buf: seq<byte>): (s: Text)
    ensures |s| <= |buf| && s <= buf
    ensures |s| < |buf| ==> buf[|s|] == NUL
  {
    if buf == [] || buf[0] == NUL then [] else [buf[0]] + CString(buf[1..])
  }

  /** A buffer that starts with `s` and a terminator stores `s`, whatever follows. */
  lemma {:induction false} CStringIs(buf: seq<byte>, s: Text)
    requires |s| < |buf| && buf[..|s|] == s && buf[|s|] == NUL
    ensures CString(buf) == s
  {
    if s != [] {
      assert buf[0] == s[0];
      assert buf[1..][..|s| - 1] == s[1..];
      CStringIs(buf[1..], s[1..]);
    }
  }
}
