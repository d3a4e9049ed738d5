/**
 * The pieces of JavaScript string and regular-expression semantics that the
 * core relies on: the `\s`, `\w` and `\b` classes of a non-Unicode regular
 * expression, and `String.prototype.split('\n')`.
 */
module JsText {

  /** `\s`: the WhiteSpace and LineTerminator code points of ECMAScript. */
  predicate IsSpace(c: char) {
    var n := c as int;
    n == 0x09 || n == 0x0A || n == 0x0B || n == 0x0C || n == 0x0D || n == 0x20
    || n == 0xA0 || n == 0x1680 || (0x2000 <= n <= 0x200A) || n == 0x2028
    || n == 0x2029 || n == 0x202F || n == 0x205F || n == 0x3000 || n == 0xFEFF
  }

  /** `\w`: ASCII letters, digits and the underscore. */
  predicate IsWordChar(c: char) {
    'a' <= c <= 'z' || 'A' <= c <= 'Z' || '0' <= c <= '9' || c == '_'
  }

  /** `[0-9a-fA-F]` */
  predicate IsHexDigit(c: char) {
    '0' <= c <= '9' || 'a' <= c <= 'f' || 'A' <= c <= 'F'
  }

  /** Position i holds a word character; positions outside the string do not. */
  predicate WordAt(s: string, i: int) {
    0 <= i < |s| && IsWordChar(s[i])
  }

  /** `\b` holds at position i (between s[i-1] and s[i]). */
  predicate IsBoundary(s: string, i: int) {
    WordAt(s, i - 1) != WordAt(s, i)
  }

  /** The end of the longest run, starting at i, of characters that are
      whitespace exactly when `space` holds. */
  function RunEnd(s: string, i: nat, space: bool): (k: nat)
    requires i <= |s|
    ensures i <= k <= |s|
    ensures forall m | i <= m < k :: IsSpace(s[m]) == space
    ensures k == |s| || IsSpace(s[k]) != space
    decreases |s| - i
  {
    if i == |s| || IsSpace(s[i]) != space then i else RunEnd(s, i + 1, space)
  }

  /** The lines joined back with '\n' between them (`Array.prototype.join('\n')`). */
  function JoinLines(lines: seq<string>): string
    requires |lines| >= 1
  {
    if |lines| == 1 then lines[0] else lines[0] + "\n" + JoinLines(lines[1..])
  }

  /** `s.split('\n')`: never empty, no piece holds a newline, and the pieces
      joined with newlines give back s. */
  function SplitLines(s: string): (lines: seq<string>)
    ensures |lines| >= 1
    ensures forall l | l in lines :: '\n' !in l
    ensures JoinLines(lines) == s
  {
    if s == [] then [[]]
    else
      var rest := SplitLines(s[1..]);
      if s[0] == '\n' then
        assert s == "\n" + JoinLines(rest);
        [[]] + rest
      else
        var lines := [[s[0]] + rest[0]] + rest[1..];
        assert lines[1..] == rest[1..];
        assert s == [s[0]] + s[1..];
        lines
  }

  /** split('\n') is the only way to cut s into newline-free pieces that join back to s. */
  lemma {:induction false} SplitLinesUnique(s: string, lines: seq<string>)
    requires |lines| >= 1 && forall l | l in lines :: '\n' !in l
    requires JoinLines(lines) == s
    ensures lines == SplitLines(s)
    decreases |s|
  {
    if lines[0] == [] {
      if |lines| > 1 {
        assert s == "\n" + JoinLines(lines[1..]);
        assert s[1..] == JoinLines(lines[1..]);
        SplitLinesUnique(s[1..], lines[1..]);
      }
    } else {
      var tail := [lines[0][1..]] + lines[1..];
      assert tail[1..] == lines[1..];
      assert lines[0] == [lines[0][0]] + lines[0][1..];
      forall l | l in tail ensures '\n' !in l {
        if l == tail[0] {
          assert lines[0] in lines;
          assert forall k | 0 <= k < |l| :: l[k] == lines[0][k + 1];
        } else {
          assert l in lines;
        }
      }
      assert s[0] == lines[0][0] && JoinLines(tail) == s[1..];
      SplitLinesUnique(s[1..], tail);
      assert lines[0][0] != '\n' by { assert lines[0] in lines; }
    }
  }
}
