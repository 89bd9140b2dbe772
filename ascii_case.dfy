/** ASCII case mapping, shared by the ordinal case-insensitive comparison of
    the shell extension and by `str.lower()` in the cropper. Both are exact
    for the comparands they meet here (the verb `pycropper` and the image
    extensions), which are pure ASCII: no non-ASCII character folds onto an
    ASCII letter under either mapping. */
module AsciiCase {
  function UpperAscii(c: char): char {
    if 'a' <= c <= 'z' then (c as int - 32) as char else c
  }

  function LowerAscii(c: char): char {
    if 'A' <= c <= 'Z' then (c as int + 32) as char else c
  }

  /** `s.lower()` on ASCII letters. */
  function ToLowerAscii(s: string): (r: string)
    ensures |r| == |s|
    ensures forall i :: 0 <= i < |s| ==> r[i] == LowerAscii(s[i])
  {
    seq(|s|, i requires 0 <= i < |s| => LowerAscii(s[i]))
  }
}
