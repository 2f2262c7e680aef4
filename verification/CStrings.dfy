/** NUL-terminated strings in byte buffers. */
module CStrings {
  import opened Bytes

  /** The characters before a terminator. */
  type cstring = s: seq<byte> | forall i :: 0 <= i < |s| ==> s[i] != 0

  /** A text of plain characters, as bytes. */
  function Ascii(s: string): (t: cstring)
    requires forall i :: 0 <= i < |s| ==> 0 < s[i] as int < 0x80
    ensures |t| == |s| && forall i :: 0 <= i < |s| ==> t[i] == s[i] as int
  {
    seq(|s|, i requires 0 <= i < |s| => s[i] as int)
  }

  /** `strlen` on a buffer; it stays inside the buffer exactly when the result is below its length. */
  function StrLen(s: seq<byte>): (n: nat)
    ensures n <= |s|
    ensures forall i :: 0 <= i < n ==> s[i] != 0
    ensures n < |s| ==> s[n] == 0
  {
    if s == [] || s[0] == 0 then 0 else 1 + StrLen(s[1..])
  }

  /** The string a buffer holds. */
  function CStr(s: seq<byte>): (c: cstring)
    ensures |c| == StrLen(s) && c == s[..StrLen(s)]
  {
    s[..StrLen(s)]
  }

  /** `strlen` stops at the first NUL and nowhere else. */
  lemma {:induction false} StrLenIs(s: seq<byte>, n: nat)
    requires n < |s| && s[n] == 0
    requires forall i :: 0 <= i < n ==> s[i] != 0
    ensures StrLen(s) == n
  {
    if n > 0 {
      StrLenIs(s[1..], n - 1);
    }
  }
}
