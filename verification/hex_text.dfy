/** The JavaScript string built-ins the hex codec is made of, restricted to
    the inputs the codec gives them: `parseInt(s, 16)` on a string of hex
    digits, `Number.prototype.toString(16)` on a non-negative integer,
    `String.prototype.padStart` and `String.prototype.substring`. */
module HexText {
  import opened Values

  /** A base-16 digit in either case. */
  predicate IsHexDigit(c: char) {
    ('0' <= c <= '9') || ('a' <= c <= 'f') || ('A' <= c <= 'F')
  }

  /** A base-16 digit as `toString(16)` writes it: lower case. */
  predicate IsLowerHexDigit(c: char) {
    ('0' <= c <= '9') || ('a' <= c <= 'f')
  }

  predicate AllHex(s: seq<char>) {
    forall i | 0 <= i < |s| :: IsHexDigit(s[i])
  }

  predicate AllLowerHex(s: seq<char>) {
    forall i | 0 <= i < |s| :: IsLowerHexDigit(s[i])
  }

  /** The value of one hex digit, case-insensitively. */
  function DigitValue(c: char): (v: nat)
    requires IsHexDigit(c)
    ensures v < 16
  {
    if '0' <= c <= '9' then c as int - '0' as int
    else if 'a' <= c <= 'f' then c as int - 'a' as int + 10
    else c as int - 'A' as int + 10
  }

  /** The lower-case digit for a value below 16. */
  function LowerDigit(v: nat): (c: char)
    requires v < 16
    ensures IsLowerHexDigit(c) && IsHexDigit(c)
    ensures DigitValue(c) == v
  {
    if v < 10 then ('0' as int + v) as char else ('a' as int + v - 10) as char
  }

  /** Reading a lower-case digit and writing its value back gives the same
      character. */
  lemma LowerDigitOfValue(c: char)
    requires IsLowerHexDigit(c)
    ensures LowerDigit(DigitValue(c)) == c
  {
  }

  /** The number a string of hex digits denotes, most significant digit
      first (0 for the empty string). */
  function HexValue(s: seq<char>): nat
    requires AllHex(s)
  {
    if |s| == 0 then 0 else HexValue(s[..|s| - 1]) * 16 + DigitValue(s[|s| - 1])
  }

  /** `parseInt(s, 16)` on a string of hex digits: NaN (here `None`) for
      the empty string, otherwise the number the digits denote. */
  function ParseInt16(s: seq<char>): (res: Option<nat>)
    requires AllHex(s)
    ensures res.None? <==> |s| == 0
    ensures |s| == 2 ==> res == Some(16 * DigitValue(s[0]) + DigitValue(s[1]))
  {
    if |s| == 0 then None
    else
      PairValue(s);
      Some(HexValue(s))
  }

  /** Two hex digits denote sixteen times the first plus the second. */
  lemma PairValue(s: seq<char>)
    requires AllHex(s)
    ensures |s| == 2 ==> HexValue(s) == 16 * DigitValue(s[0]) + DigitValue(s[1])
  {
    if |s| == 2 {
      var first := s[..1];
      assert first[..0] == [] && first[0] == s[0];
      assert HexValue(first) == DigitValue(s[0]);
    }
  }

  /** `n.toString(16)` for a non-negative integer `n`: lower-case digits,
      no leading zero except for 0 itself, and only two digits below 256. */
  function ToString16(n: nat): (s: seq<char>)
    ensures 1 <= |s| && AllLowerHex(s) && AllHex(s)
    ensures |s| > 1 ==> s[0] != '0'
    ensures n < 16 <==> |s| == 1
    ensures n < 256 ==> |s| <= 2
    decreases n
  {
    if n < 16 then [LowerDigit(n)] else ToString16(n / 16) + [LowerDigit(n % 16)]
  }

  /** Parsing what `toString(16)` wrote gives the number back. */
  lemma {:induction false} ParseToString16(n: nat)
    ensures HexValue(ToString16(n)) == n
    decreases n
  {
    if n >= 16 {
      ParseToString16(n / 16);
      var s := ToString16(n);
      assert s[..|s| - 1] == ToString16(n / 16);
    }
  }

  /** `s.padStart(width, fill)`: fill characters in front of `s` up to the
      given width; `s` itself if it is already that long. */
  function PadStart(s: seq<char>, width: nat, fill: char): (r: seq<char>)
    ensures |r| == if |s| >= width then |s| else width
    ensures r[|r| - |s|..] == s
    ensures forall i | 0 <= i < |r| - |s| :: r[i] == fill
  {
    if |s| >= width then s else seq(width - |s|, _ => fill) + s
  }

  /** Index clamping of `substring`: below 0 becomes 0, beyond the end
      becomes the length. */
  function ClampIndex(i: int, n: nat): (k: nat)
    ensures k <= n
    ensures 0 <= i <= n ==> k == i
  {
    if i < 0 then 0 else if i > n then n else i
  }

  /** `s.substring(start, end)`: indices clamped into the string and
      swapped if out of order, so it never fails. */
  function Substring(s: seq<char>, start: int, end: int): (r: seq<char>)
    ensures |r| <= |s|
    ensures 0 <= start <= end <= |s| ==> r == s[start..end]
    ensures 0 <= start <= |s| <= end ==> r == s[start..]
    ensures |s| <= start && |s| <= end ==> r == []
  {
    var a, b := ClampIndex(start, |s|), ClampIndex(end, |s|);
    if a <= b then s[a..b] else s[b..a]
  }
}
