/** CHAR16 strings. A C string is the sequence of its characters; reading at its end yields NUL. */
module Text {

  newtype CHAR16 = x: int | 0 <= x < 0x1_0000

  const NUL: CHAR16 := 0

  function Ch(c: char): CHAR16
    requires c as int < 128
  {
    c as int as CHAR16
  }

  type CString = s: seq<CHAR16> | NUL !in s

  function At(s: CString, i: nat): CHAR16
    requires i <= |s|
  {
    if i < |s| then s[i] else NUL
  }
}
