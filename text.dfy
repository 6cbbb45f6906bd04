/** The string primitives the aggregation engine borrows from Python's `str` and `re`:
    whitespace, `str.lower`, `str.strip`, leading-run removal, substring search and
    `str.split('\n')`. Strings are sequences of Unicode scalar values. */
module Text {

  datatype Option<T> = None | Some(value: T)

  /** Python's `str.isspace()`, which is also what `\s` matches in a `str` pattern:
      the ASCII controls 9-13 and 28-31, the space, and the Unicode separators. */
  predicate IsSpace(c: char) {
    || '\t' <= c <= '\r'
    || '\U{1C}' <= c <= '\U{1F}'
    || c == ' '
    || c == '\U{85}' || c == '\U{A0}' || c == '\U{1680}'
    || '\U{2000}' <= c <= '\U{200A}'
    || c == '\U{2028}' || c == '\U{2029}' || c == '\U{202F}' || c == '\U{205F}'
    || c == '\U{3000}'
  }

  /** `str.lower()` restricted to ASCII letters. */
  function LowerChar(c: char): char {
    if 'A' <= c <= 'Z' then (c as int + 32) as char else c
  }

  function Lower(s: string): string {
    seq(|s|, i requires 0 <= i < |s| => LowerChar(s[i]))
  }

  lemma LowerIdempotent(s: string)
    ensures Lower(Lower(s)) == Lower(s)
  {
  }

  /** Length of the longest prefix of `s` whose characters all satisfy `inRun`; dropping
      it is `re.sub('^[...]+', '', s)` for a character class `[...]`. */
  function LeadingRun(s: string, inRun: char -> bool): (k: nat)
    ensures k <= |s|
    ensures forall i :: 0 <= i < k ==> inRun(s[i])
    ensures k < |s| ==> !inRun(s[k])
  {
    if |s| > 0 && inRun(s[0]) then 1 + LeadingRun(s[1..], inRun) else 0
  }

  /** Length of the longest suffix of `s` whose characters all satisfy `inRun`. */
  function TrailingRun(s: string, inRun: char -> bool): (k: nat)
    ensures k <= |s|
    ensures forall i :: |s| - k <= i < |s| ==> inRun(s[i])
    ensures k < |s| ==> !inRun(s[|s| - 1 - k])
  {
    if |s| > 0 && inRun(s[|s| - 1]) then 1 + TrailingRun(s[..|s| - 1], inRun) else 0
  }

  /** `str.strip()`: remove leading and trailing whitespace. */
  function Strip(s: string): (r: string)
    ensures |r| <= |s|
  {
    var t := s[LeadingRun(s, IsSpace)..];
    t[..|t| - TrailingRun(t, IsSpace)]
  }

  /** What `Strip` leaves: a slice of `s` with only whitespace outside it and none at
      either of its ends. */
  lemma StripShape(s: string)
    ensures var r := Strip(s);
      && (r == [] || (!IsSpace(r[0]) && !IsSpace(r[|r| - 1])))
      && exists a, b :: 0 <= a <= b <= |s| && r == s[a..b]
                        && (forall i :: 0 <= i < a ==> IsSpace(s[i]))
                        && (forall i :: b <= i < |s| ==> IsSpace(s[i]))
  {
    var a := LeadingRun(s, IsSpace);
    var t := s[a..];
    var k := TrailingRun(t, IsSpace);
    assert forall i :: a + |t| - k <= i < |s| ==> IsSpace(s[i]) by {
      forall i | a + |t| - k <= i < |s| ensures IsSpace(s[i]) {
        assert s[i] == t[i - a];
      }
    }
    assert t[..|t| - k] == s[a..a + |t| - k];
  }

  /** Stripping a string with no whitespace at its ends changes nothing. */
  lemma StripNoop(s: string)
    requires s == [] || (!IsSpace(s[0]) && !IsSpace(s[|s| - 1]))
    ensures Strip(s) == s
  {
    if s != [] {
      assert LeadingRun(s, IsSpace) == 0;
      assert TrailingRun(s, IsSpace) == 0;
    }
  }

  /** `pat` occurs in `s` starting at index `i`. */
  predicate OccursAt(s: string, pat: string, i: int) {
    0 <= i && i + |pat| <= |s| && s[i..i + |pat|] == pat
  }

  /** Python's `pat in s`. */
  predicate Contains(s: string, pat: string) {
    exists i | 0 <= i <= |s| - |pat| :: OccursAt(s, pat, i)
  }

  /** `s.startswith(pat)`. */
  predicate StartsWith(s: string, pat: string) {
    OccursAt(s, pat, 0)
  }

  /** The first index at or after `from` where `pat` occurs (`str.find(pat, from)`). */
  function IndexOf(s: string, pat: string, from: nat): (r: Option<nat>)
    decreases |s| - from
    ensures r.Some? ==> from <= r.value && OccursAt(s, pat, r.value)
    ensures forall i :: from <= i && (r.None? || i < r.value) ==> !OccursAt(s, pat, i)
  {
    if from + |pat| > |s| then None
    else if OccursAt(s, pat, from) then Some(from)
    else IndexOf(s, pat, from + 1)
  }

  /** `'\n'.join(lines)`. */
  function JoinLines(lines: seq<string>): string {
    if lines == [] then ""
    else if |lines| == 1 then lines[0]
    else lines[0] + "\n" + JoinLines(lines[1..])
  }

  predicate NoNewline(s: string) {
    forall i :: 0 <= i < |s| ==> s[i] != '\n'
  }

  /** `s.split('\n')`: never empty, no part holds a newline, and joining gives `s` back. */
  function SplitLines(s: string): (lines: seq<string>)
    ensures |lines| >= 1
    ensures forall k :: 0 <= k < |lines| ==> NoNewline(lines[k])
    ensures JoinLines(lines) == s
  {
    if s == [] then [""]
    else
      var rest := SplitLines(s[1..]);
      if s[0] == '\n' then
        assert s == "" + "\n" + s[1..];
        [""] + rest
      else
        assert s == [s[0]] + s[1..];
        [[s[0]] + rest[0]] + rest[1..]
  }

  /** The other half of the round trip: splitting a join of newline-free lines gives them back. */
  lemma {:induction false} SplitJoin(lines: seq<string>)
    requires |lines| >= 1
    requires forall k :: 0 <= k < |lines| ==> NoNewline(lines[k])
    ensures SplitLines(JoinLines(lines)) == lines
  {
    if |lines| == 1 {
      SplitNoNewline(lines[0]);
    } else {
      SplitJoin(lines[1..]);
      SplitPrefix(lines[0], JoinLines(lines[1..]));
      assert [lines[0]] + lines[1..] == lines;
    }
  }

  lemma {:induction false} SplitNoNewline(s: string)
    requires NoNewline(s)
    ensures SplitLines(s) == [s]
  {
    if s != [] {
      SplitNoNewline(s[1..]);
      assert [s[0]] + s[1..] == s;
    }
  }

  lemma {:induction false} SplitPrefix(a: string, b: string)
    requires NoNewline(a)
    ensures SplitLines(a + "\n" + b) == [a] + SplitLines(b)
  {
    if a == [] {
      assert a + "\n" + b == "\n" + b;
      assert ("\n" + b)[1..] == b;
    } else {
      SplitPrefix(a[1..], b);
      assert (a + "\n" + b)[1..] == a[1..] + "\n" + b;
      assert [a[0]] + a[1..] == a;
    }
  }
}
