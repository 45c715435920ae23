/**
 * The parts of Rust's `str` the duplicate-resolution guard relies on:
 * `trim_end` (which strips Unicode White_Space) and `len` (which counts
 * UTF-8 bytes, not characters). A `string` here is a sequence of Unicode
 * scalar values.
 */
module Text {

  /** Rust's `char::is_whitespace`: the Unicode White_Space property. */
  predicate IsWhitespace(c: char) {
    var n := c as int;
    || (0x09 <= n <= 0x0D)
    || n == 0x20
    || n == 0x85
    || n == 0xA0
    || n == 0x1680
    || (0x2000 <= n <= 0x200A)
    || n == 0x2028
    || n == 0x2029
    || n == 0x202F
    || n == 0x205F
    || n == 0x3000
  }

  /** Number of bytes the UTF-8 encoding of one scalar value takes. */
  function Utf8Width(c: char): (w: nat)
    ensures 1 <= w <= 4
    ensures w == 1 <==> c as int < 0x80
  {
    if c as int < 0x80 then 1
    else if c as int < 0x800 then 2
    else if c as int < 0x1_0000 then 3
    else 4
  }

  /** `str::len`: the byte length of the UTF-8 encoding of `s`. */
  function Utf8Len(s: string): nat
  {
    if |s| == 0 then 0 else Utf8Len(s[..|s| - 1]) + Utf8Width(s[|s| - 1])
  }

  /** Byte lengths add up over concatenation. */
  lemma {:induction false} Utf8LenAppend(a: string, b: string)
    ensures Utf8Len(a + b) == Utf8Len(a) + Utf8Len(b)
    decreases |b|
  {
    if |b| == 0 {
      assert a + b == a;
    } else {
      var b' := b[..|b| - 1];
      assert (a + b)[..|a + b| - 1] == a + b';
      Utf8LenAppend(a, b');
    }
  }

  /**
   * `str::trim_end`: the prefix of `s` left once every trailing whitespace
   * character is removed.
   */
  function TrimEnd(s: string): (t: string)
    ensures t <= s
    ensures |t| == 0 || !IsWhitespace(t[|t| - 1])
    ensures forall i | |t| <= i < |s| :: IsWhitespace(s[i])
  {
    if |s| > 0 && IsWhitespace(s[|s| - 1]) then TrimEnd(s[..|s| - 1]) else s
  }

  /**
   * The contract of `TrimEnd` pins its result down: a prefix that does not
   * end in whitespace and leaves only whitespace behind is the trimmed text.
   */
  lemma TrimEndUnique(s: string, p: string)
    requires p <= s
    requires |p| == 0 || !IsWhitespace(p[|p| - 1])
    requires forall i | |p| <= i < |s| :: IsWhitespace(s[i])
    ensures p == TrimEnd(s)
  {
  }

  /** A run of `k` ASCII spaces. */
  function Spaces(k: nat): (r: string)
    ensures |r| == k
    ensures forall i | 0 <= i < k :: r[i] == ' '
  {
    seq(k, _ => ' ')
  }

  /**
   * The count the guard of the duplicate-resolution retry takes: the byte
   * length of `s` minus the byte length of `s.trim_end()`.
   */
  function TrailingWhitespaceBytes(s: string): (n: nat)
    ensures n == Utf8Len(s[|TrimEnd(s)|..])
    ensures n == 0 <==> TrimEnd(s) == s
  {
    var t := TrimEnd(s);
    assert t + s[|t|..] == s;
    Utf8LenAppend(t, s[|t|..]);
    Utf8Len(s) - Utf8Len(t)
  }

  /**
   * Appending one space leaves the trimmed text alone and adds exactly one
   * byte to the trailing-whitespace count.
   */
  lemma {:induction false} AppendSpace(s: string)
    ensures TrimEnd(s + " ") == TrimEnd(s)
    ensures TrailingWhitespaceBytes(s + " ") == TrailingWhitespaceBytes(s) + 1
  {
    var s' := s + " ";
    assert s'[..|s'| - 1] == s;
    assert TrimEnd(s') == TrimEnd(s);
    assert s'[|TrimEnd(s)|..] == s[|TrimEnd(s)|..] + " ";
    Utf8LenAppend(s[|TrimEnd(s)|..], " ");
    assert " "[..0] == "";
  }

  /**
   * For text that does not already end in whitespace, appending `k` spaces
   * gives a trailing-whitespace count of exactly `k` bytes.
   */
  lemma {:induction false} TrailingSpaces(s: string, k: nat)
    requires TrailingWhitespaceBytes(s) == 0
    ensures TrailingWhitespaceBytes(s + Spaces(k)) == k
  {
    if k == 0 {
      assert s + Spaces(k) == s;
    } else {
      var t := s + Spaces(k - 1);
      assert s + Spaces(k) == t + " " by {
        SpacesSucc(k - 1);
      }
      TrailingSpaces(s, k - 1);
      AppendSpace(t);
    }
  }

  /** One space more is a run one longer. */
  lemma SpacesSucc(k: nat)
    ensures Spaces(k) + " " == Spaces(k + 1)
    ensures " " + Spaces(k) == Spaces(k + 1)
  {
  }
}
