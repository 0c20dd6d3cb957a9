/** The JDK string operations the core relies on (`String.indexOf`, `trim`,
    `split`, `Integer.parseInt`, `Integer.toString`, and the blank test of the
    framework's `StringUtil`), modelled on `seq<char>` with their Java edge cases. */
module JavaText {
  import opened Common

  /** `Character.isWhitespace`, restricted to the ASCII range. */
  predicate IsWhitespace(c: char)
  {
    c == ' ' || (9 <= c as int <= 13) || (28 <= c as int <= 31)
  }

  /** `StringUtil.isBlank`: empty, or made only of whitespace. */
  predicate IsBlank(s: string)
  {
    forall i :: 0 <= i < |s| ==> IsWhitespace(s[i])
  }

  /** `String.trim` removes every leading and trailing char whose code is at most U+0020. */
  predicate IsTrimmable(c: char)
  {
    c <= ' '
  }

  predicate AllTrimmable(s: string)
  {
    forall i :: 0 <= i < |s| ==> IsTrimmable(s[i])
  }

  /** A string that `trim` leaves alone. */
  predicate IsTrimmed(s: string)
  {
    s == [] || (!IsTrimmable(s[0]) && !IsTrimmable(s[|s| - 1]))
  }

  /** `s.indexOf(c)`: the first position of `c`, or -1. */
  function IndexOf(s: string, c: char): (r: int)
    ensures -1 <= r < |s|
    ensures r == -1 <==> c !in s
    ensures r >= 0 ==> s[r] == c && c !in s[..r]
  {
    if s == [] then -1
    else if s[0] == c then 0
    else
      var k := IndexOf(s[1..], c);
      assert s[1..][..if k < 0 then 0 else k] == s[1..1 + (if k < 0 then 0 else k)];
      if k < 0 then -1 else k + 1
  }

  lemma IndexOfSeparator(a: string, c: char, b: string)
    requires c !in a
    ensures IndexOf(a + [c] + b, c) == |a|
  {
    var s := a + [c] + b;
    assert s[|a|] == c;
    assert s[..|a|] == a;
  }

  /** The pieces on either side of a separator. */
  lemma SeparatorSlices(a: string, c: char, b: string)
    ensures (a + [c] + b)[..|a|] == a
    ensures (a + [c] + b)[|a| + 1..] == b
  {
  }

  /** A char missing from a string is missing from every slice of it. */
  lemma SliceExcludes(s: string, c: char, i: nat, j: nat)
    requires i <= j <= |s| && c !in s
    ensures c !in s[i..j]
  {
    forall k | 0 <= k < j - i ensures s[i..j][k] != c {
      assert s[i..j][k] == s[i + k];
    }
  }

  /** The leading loop of `trim`: drop chars up to U+0020 from the front. */
  function StripLeading(s: string): (r: string)
    ensures |r| <= |s|
  {
    if s != [] && IsTrimmable(s[0]) then StripLeading(s[1..]) else s
  }

  /** The trailing loop of `trim`: drop chars up to U+0020 from the back. */
  function StripTrailing(s: string): (r: string)
    ensures |r| <= |s|
  {
    if s != [] && IsTrimmable(s[|s| - 1]) then StripTrailing(s[..|s| - 1]) else s
  }

  /** What the leading loop drops is blank, and it stops at a char above U+0020. */
  lemma {:induction false} StripLeadingSpec(s: string)
    ensures var r := StripLeading(s);
            r == s[|s| - |r|..] && AllTrimmable(s[..|s| - |r|]) && (r == [] || !IsTrimmable(r[0]))
  {
    if s != [] && IsTrimmable(s[0]) {
      var t := s[1..];
      StripLeadingSpec(t);
      var r := StripLeading(t);
      assert StripLeading(s) == r;
      assert t[|t| - |r|..] == s[|s| - |r|..];
      var dropped := s[..|s| - |r|];
      forall k | 0 <= k < |dropped| ensures IsTrimmable(dropped[k]) {
        if k > 0 {
          assert dropped[k] == t[..|t| - |r|][k - 1];
        }
      }
    }
  }

  lemma {:induction false} StripTrailingSpec(s: string)
    ensures var r := StripTrailing(s);
            r == s[..|r|] && AllTrimmable(s[|r|..]) && (r == [] || !IsTrimmable(r[|r| - 1]))
  {
    if s != [] && IsTrimmable(s[|s| - 1]) {
      var t := s[..|s| - 1];
      StripTrailingSpec(t);
      var r := StripTrailing(t);
      assert StripTrailing(s) == r;
      assert t[..|r|] == s[..|r|];
      var dropped := s[|r|..];
      forall k | 0 <= k < |dropped| ensures IsTrimmable(dropped[k]) {
        if k < |t| - |r| {
          assert dropped[k] == t[|r|..][k];
        }
      }
    }
  }

  /** `r` is the slice of `s` at `i`, with only chars up to U+0020 around it. */
  predicate TrimmedAt(s: string, r: string, i: int)
  {
    0 <= i <= |s| - |r| && r == s[i..i + |r|] && AllTrimmable(s[..i]) && AllTrimmable(s[i + |r|..])
  }

  /** `s.trim()`: the longest middle slice of `s` that starts and ends with a
      char above U+0020; only such chars are removed. */
  function Trim(s: string): (r: string)
    ensures IsTrimmed(r)
    ensures exists i :: TrimmedAt(s, r, i)
  {
    var left := StripLeading(s);
    var r := StripTrailing(left);
    StripLeadingSpec(s);
    StripTrailingSpec(left);
    TrimSlice(s, left, r);
    r
  }

  /** A suffix with blanks before it, and a prefix of it with blanks after it,
      is a trimmed middle slice. */
  lemma TrimSlice(s: string, left: string, r: string)
    requires |left| <= |s| && left == s[|s| - |left|..] && AllTrimmable(s[..|s| - |left|])
    requires left == [] || !IsTrimmable(left[0])
    requires |r| <= |left| && r == left[..|r|] && AllTrimmable(left[|r|..])
    requires r == [] || !IsTrimmable(r[|r| - 1])
    ensures IsTrimmed(r) && TrimmedAt(s, r, |s| - |left|)
  {
    SliceOfSlice(s, left, r);
    if r != [] {
      assert r[0] == left[0];
    }
  }

  /** A prefix of a suffix is a middle slice, followed by the rest of the suffix. */
  lemma SliceOfSlice(s: string, left: string, r: string)
    requires |left| <= |s| && left == s[|s| - |left|..]
    requires |r| <= |left| && r == left[..|r|]
    ensures var i := |s| - |left|; r == s[i..i + |r|] && s[i + |r|..] == left[|r|..]
  {
  }

  lemma StripLeadingPadded(ws: string, t: string)
    requires AllTrimmable(ws)
    requires t == [] || !IsTrimmable(t[0])
    ensures StripLeading(ws + t) == t
  {
    if ws != [] {
      assert (ws + t)[1..] == ws[1..] + t;
      StripLeadingPadded(ws[1..], t);
    }
  }

  lemma StripTrailingPadded(t: string, ws: string)
    requires AllTrimmable(ws)
    requires t == [] || !IsTrimmable(t[|t| - 1])
    ensures StripTrailing(t + ws) == t
  {
    if ws != [] {
      assert (t + ws)[..|t + ws| - 1] == t + ws[..|ws| - 1];
      StripTrailingPadded(t, ws[..|ws| - 1]);
    }
  }

  /** Trimming a trimmed text padded on both sides gives the text back. */
  lemma {:induction false} TrimPadded(left: string, t: string, right: string)
    requires AllTrimmable(left) && AllTrimmable(right) && IsTrimmed(t)
    ensures Trim(left + t + right) == t
  {
    assert left + t + right == left + (t + right);
    if t == [] {
      assert left + t + right == left + right;
      StripLeadingPadded(left + right, []);
      assert left + right + [] == left + right;
    } else {
      assert (t + right)[0] == t[0];
      StripLeadingPadded(left, t + right);
    }
    StripTrailingPadded(t, right);
  }

  lemma {:induction false} StripLeadingKeeps(s: string, c: char)
    requires !IsTrimmable(c)
    ensures c in StripLeading(s) <==> c in s
  {
    if s != [] && IsTrimmable(s[0]) {
      StripLeadingKeeps(s[1..], c);
      assert s == [s[0]] + s[1..];
    }
  }

  lemma {:induction false} StripTrailingKeeps(s: string, c: char)
    requires !IsTrimmable(c)
    ensures c in StripTrailing(s) <==> c in s
  {
    if s != [] && IsTrimmable(s[|s| - 1]) {
      StripTrailingKeeps(s[..|s| - 1], c);
      assert s == s[..|s| - 1] + [s[|s| - 1]];
    }
  }

  /** `trim` drops only chars at most U+0020, so any other char survives it. */
  lemma TrimKeeps(s: string, c: char)
    requires !IsTrimmable(c)
    ensures c in Trim(s) <==> c in s
  {
    StripLeadingKeeps(s, c);
    StripTrailingKeeps(StripLeading(s), c);
  }

  // ---- String.split with a one-char separator ----

  /** Every piece between separators, the trailing ones included. */
  function Segments(s: string, c: char): (r: seq<string>)
    ensures |r| >= 1
    ensures forall k :: 0 <= k < |r| ==> c !in r[k]
    decreases |s|
  {
    var i := IndexOf(s, c);
    if i < 0 then [s] else [s[..i]] + Segments(s[i + 1..], c)
  }

  function DropTrailingEmpty(parts: seq<string>): (r: seq<string>)
    ensures |r| <= |parts| && r == parts[..|r|]
    ensures r == [] || r[|r| - 1] != []
    ensures forall k :: |r| <= k < |parts| ==> parts[k] == []
  {
    if parts != [] && parts[|parts| - 1] == [] then DropTrailingEmpty(parts[..|parts| - 1]) else parts
  }

  /** `s.split(String.valueOf(c))` for a char that is not a regex metachar:
      the unsplit string when `c` does not occur, otherwise the pieces with the
      trailing empty ones removed (so `":"` splits into no pieces at all). */
  function Split(s: string, c: char): (r: seq<string>)
    ensures forall k :: 0 <= k < |r| ==> c !in r[k]
    ensures c !in s ==> r == [s]
  {
    if c !in s then [s] else DropTrailingEmpty(Segments(s, c))
  }

  /** `h + ":" + p` splits into exactly `h` and `p`. */
  lemma SplitPair(h: string, c: char, p: string)
    requires c !in h && c !in p && p != []
    ensures Split(h + [c] + p, c) == [h, p]
  {
    var s := h + [c] + p;
    IndexOfSeparator(h, c, p);
    assert s[..|h|] == h && s[|h| + 1..] == p;
    assert Segments(s, c) == [h] + Segments(p, c);
    assert s[|h|] == c;
  }

  /** When there are at least two pieces, the first one is the text before the
      first separator and the second one the text up to the next separator. */
  lemma SplitPieces(s: string, c: char)
    requires |Split(s, c)| >= 2
    ensures c in s
    ensures Split(s, c)[0] == s[..IndexOf(s, c)]
    ensures var rest := s[IndexOf(s, c) + 1..];
            Split(s, c)[1] == if c in rest then rest[..IndexOf(rest, c)] else rest
  {
    var r := Split(s, c);
    assert c in s;
    SegmentsFirstTwo(s, c);
    assert r == DropTrailingEmpty(Segments(s, c));
  }

  /** The first two pieces before trailing empty ones are removed. */
  lemma SegmentsFirstTwo(s: string, c: char)
    requires c in s
    ensures |Segments(s, c)| >= 2
    ensures Segments(s, c)[0] == s[..IndexOf(s, c)]
    ensures var rest := s[IndexOf(s, c) + 1..];
            Segments(s, c)[1] == if c in rest then rest[..IndexOf(rest, c)] else rest
  {
    var i := IndexOf(s, c);
    var rest := s[i + 1..];
    var tail := Segments(rest, c);
    assert Segments(s, c) == [s[..i]] + tail;
    SegmentsHead(rest, c);
  }

  /** The first piece runs up to the first separator. */
  lemma SegmentsHead(s: string, c: char)
    ensures Segments(s, c)[0] == if c in s then s[..IndexOf(s, c)] else s
  {
  }

  // ---- Decimal numerals ----

  predicate IsDigit(c: char)
  {
    '0' <= c <= '9'
  }

  predicate AllDigits(s: string)
  {
    forall i :: 0 <= i < |s| ==> IsDigit(s[i])
  }

  function DigitValue(c: char): nat
    requires IsDigit(c)
  {
    c as int - '0' as int
  }

  function DigitChar(d: nat): (c: char)
    requires d < 10
    ensures IsDigit(c) && DigitValue(c) == d
  {
    ('0' as int + d) as char
  }

  /** The value of a numeral read most significant digit first. */
  function DecimalValue(s: string): nat
    requires AllDigits(s)
  {
    if s == [] then 0 else 10 * DecimalValue(s[..|s| - 1]) + DigitValue(s[|s| - 1])
  }

  /** `Integer.toString(n)` for a non-negative `n`. */
  function NatToString(n: nat): (r: string)
    ensures r != [] && AllDigits(r)
  {
    if n < 10 then [DigitChar(n)] else NatToString(n / 10) + [DigitChar(n % 10)]
  }

  lemma {:induction false} DecimalRoundTrip(n: nat)
    ensures DecimalValue(NatToString(n)) == n
  {
    if n >= 10 {
      var s := NatToString(n);
      assert s[..|s| - 1] == NatToString(n / 10);
      DecimalRoundTrip(n / 10);
    }
  }

  const INT_MIN := -0x8000_0000
  const INT_MAX := 0x7FFF_FFFF

  /** `Integer.parseInt(s)`: an optional sign, then at least one ASCII digit, and
      a value in the range of `int`; anything else is a `NumberFormatException`
      (here `None`). */
  function ParseInt(s: string): (r: Option<int>)
    ensures r.Some? ==> INT_MIN <= r.value <= INT_MAX
  {
    if s == [] then None
    else
      var signed := s[0] == '-' || s[0] == '+';
      var digits := if signed then s[1..] else s;
      if digits == [] || !AllDigits(digits) then None
      else
        var v: int := if s[0] == '-' then 0 - DecimalValue(digits) as int else DecimalValue(digits);
        if INT_MIN <= v <= INT_MAX then Some(v) else None
  }

  /** An unsigned numeral in range parses to its value. */
  lemma ParseIntNumeral(p: string)
    requires p != [] && AllDigits(p) && DecimalValue(p) <= INT_MAX
    ensures ParseInt(p) == Some(DecimalValue(p))
  {
    assert IsDigit(p[0]);
  }

  /** `parseInt(toString(n))` gives `n` back for every non-negative `int`. */
  lemma ParseIntToString(n: nat)
    requires n <= INT_MAX
    ensures ParseInt(NatToString(n)) == Some(n)
  {
    DecimalRoundTrip(n);
    ParseIntNumeral(NatToString(n));
  }

  /** A text with no digit at all is never a number. */
  lemma ParseIntRejectsNonNumeric(s: string)
    requires forall i :: 0 <= i < |s| ==> !IsDigit(s[i])
    ensures ParseInt(s) == None
  {
    if s != [] && |s| > 1 && (s[0] == '-' || s[0] == '+') {
      assert !IsDigit(s[1..][0]);
    }
  }
}
