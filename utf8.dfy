/** Well-formed UTF-8, as defined by the syntax of section 4 of RFC 3629; this
    is the check that Rust's `String::from_utf8` performs. */
module Utf8 {
  import opened Bytes

  /** A continuation byte, `UTF8-tail` in RFC 3629. */
  predicate IsTail(b: byte) {
    0x80 <= b <= 0xBF
  }

  /** The number of bytes of the well-formed character that `s` starts with,
      or 0 when `s` does not start with one. */
  function LeadingCharWidth(s: seq<byte>): (w: nat)
    ensures w <= |s| && w <= 4
    ensures |s| > 0 && s[0] < 0x80 ==> w == 1
    ensures w > 1 ==> forall i :: 1 <= i < w ==> IsTail(s[i])
  {
    if |s| == 0 then 0
    else
      var b0 := s[0];
      if b0 < 0x80 then 1
      else if 0xC2 <= b0 <= 0xDF then
        if |s| >= 2 && IsTail(s[1]) then 2 else 0
      else if 0xE0 <= b0 <= 0xEF then
        var lo: byte := if b0 == 0xE0 then 0xA0 else 0x80;
        var hi: byte := if b0 == 0xED then 0x9F else 0xBF;
        if |s| >= 3 && lo <= s[1] <= hi && IsTail(s[2]) then 3 else 0
      else if 0xF0 <= b0 <= 0xF4 then
        var lo: byte := if b0 == 0xF0 then 0x90 else 0x80;
        var hi: byte := if b0 == 0xF4 then 0x8F else 0xBF;
        if |s| >= 4 && lo <= s[1] <= hi && IsTail(s[2]) && IsTail(s[3]) then 4 else 0
      else 0
  }

  /** `s` is a sequence of well-formed UTF-8 characters. Such a sequence
      never starts with a continuation byte, so a topic that does is refused
      with `FromUtf8` whatever follows it. */
  predicate ValidUtf8(s: seq<byte>)
    ensures ValidUtf8(s) && s != [] ==> !IsTail(s[0])
    decreases |s|, 1
  {
    s == [] || CharThenValid(s)
  }

  /** `s` starts with a well-formed character and the bytes after it are
      valid UTF-8. */
  predicate CharThenValid(s: seq<byte>)
    decreases |s|, 0
  {
    var w := LeadingCharWidth(s);
    w > 0 && ValidUtf8(s[w..])
  }

  /** The bytes of a Rust `String`: always valid UTF-8. */
  type Utf8String = s: seq<byte> | ValidUtf8(s) witness []

  /** Pure ASCII (every byte below 0x80) is valid UTF-8, so topics such as
      `"test"` are accepted by `String::from_utf8`. */
  lemma {:induction false} AsciiIsValid(s: seq<byte>)
    requires forall i :: 0 <= i < |s| ==> s[i] < 0x80
    ensures ValidUtf8(s)
  {
    if s != [] {
      AsciiIsValid(s[1..]);
    }
  }
}
