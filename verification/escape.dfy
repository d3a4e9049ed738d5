/**
 * `shellEscape`: two global replacements, first every backslash by two
 * backslashes, then every single quote by a backslash and a single quote.
 * Only the string transformation is modelled; nothing here claims that the
 * result is safe to embed in a POSIX single-quoted word.
 */
module ShellEscape {
  import opened Wrappers

  const Backslash: char := '\\'
  const Quote: char := '\''

  /** `s.replace(/c/g, rep)`: every occurrence of c replaced by `rep`. */
  function ReplaceAll(s: string, c: char, rep: string): string {
    if s == [] then [] else (if s[0] == c then rep else [s[0]]) + ReplaceAll(s[1..], c, rep)
  }

  /** The two replacements of `shellEscape`, in the order the source applies them. */
  function Escape(s: string): string {
    ReplaceAll(ReplaceAll(s, Backslash, [Backslash, Backslash]), Quote, [Backslash, Quote])
  }

  /** How one input character comes out of `shellEscape`. */
  function EscapeChar(c: char): string {
    if c == Backslash then [Backslash, Backslash]
    else if c == Quote then [Backslash, Quote]
    else [c]
  }

  /** Each character escaped on its own, results concatenated in order. */
  function EscapeEach(s: string): string {
    if s == [] then [] else EscapeChar(s[0]) + EscapeEach(s[1..])
  }

  /** Number of occurrences of c in s. */
  function Count(s: string, c: char): nat {
    if s == [] then 0 else (if s[0] == c then 1 else 0) + Count(s[1..], c)
  }

  /** Reads an escaped string left to right, turning `\\` into `\` and `\'`
      into `'`; any other backslash and any unescaped quote make it fail. */
  function Unescape(t: string): (r: Option<string>)
    ensures r.Some? ==> |r.value| <= |t|
  {
    if t == [] then Some([])
    else if t[0] == Backslash then
      if |t| >= 2 && (t[1] == Backslash || t[1] == Quote) then
        match Unescape(t[2..])
        case Some(rest) => Some([t[1]] + rest)
        case None => None
      else None
    else if t[0] == Quote then None
    else
      match Unescape(t[1..])
      case Some(rest) => Some([t[0]] + rest)
      case None => None
  }

  lemma {:induction false} ReplaceAllAppend(a: string, b: string, c: char, rep: string)
    ensures ReplaceAll(a + b, c, rep) == ReplaceAll(a, c, rep) + ReplaceAll(b, c, rep)
    decreases |a|
  {
    if a != [] {
      assert (a + b)[0] == a[0] && (a + b)[1..] == a[1..] + b;
      ReplaceAllAppend(a[1..], b, c, rep);
    } else {
      assert a + b == b;
    }
  }

  /** The chain of two replacements escapes each character independently:
      a backslash becomes a doubled pair, a quote becomes `\'`, anything else
      is kept. */
  lemma {:induction false} EscapeIsPerChar(s: string)
    ensures Escape(s) == EscapeEach(s)
  {
    if s != [] {
      var first := if s[0] == Backslash then [Backslash, Backslash] else [s[0]];
      var doubled := ReplaceAll(s[1..], Backslash, [Backslash, Backslash]);
      assert ReplaceAll(s, Backslash, [Backslash, Backslash]) == first + doubled;
      ReplaceAllAppend(first, doubled, Quote, [Backslash, Quote]);
      assert ReplaceAll(first, Quote, [Backslash, Quote]) == EscapeChar(s[0]);
      EscapeIsPerChar(s[1..]);
    }
  }

  lemma {:induction false} UnescapeEach(s: string)
    ensures Unescape(EscapeEach(s)) == Some(s)
  {
    if s != [] {
      UnescapeEach(s[1..]);
      var t := EscapeEach(s);
      assert t == EscapeChar(s[0]) + EscapeEach(s[1..]);
      assert s == [s[0]] + s[1..];
      if s[0] == Backslash || s[0] == Quote {
        assert t[0] == Backslash && t[1] == s[0];
        assert t[2..] == EscapeEach(s[1..]);
        assert Unescape(t) == Some([s[0]] + s[1..]);
      } else {
        assert t[0] == s[0];
        assert t[1..] == EscapeEach(s[1..]);
        assert Unescape(t) == Some([s[0]] + s[1..]);
      }
    }
  }

  /** Un-escaping the output of `shellEscape` gives back its input. */
  lemma EscapeRoundTrip(s: string)
    ensures Unescape(Escape(s)) == Some(s)
  {
    EscapeIsPerChar(s);
    UnescapeEach(s);
  }

  lemma {:induction false} UnescapeOnlyEscaped(t: string, s: string)
    requires Unescape(t) == Some(s)
    ensures EscapeEach(s) == t
  {
    if t != [] {
      if t[0] == Backslash {
        UnescapeOnlyEscaped(t[2..], s[1..]);
        assert t == t[..2] + t[2..];
      } else {
        UnescapeOnlyEscaped(t[1..], s[1..]);
        assert t == [t[0]] + t[1..];
      }
    }
  }

  /** Un-escaping is an exact inverse: t decodes to s exactly when t is what
      `shellEscape` makes of s. */
  lemma UnescapeIffEscape(t: string, s: string)
    ensures Unescape(t) == Some(s) <==> Escape(s) == t
  {
    EscapeIsPerChar(s);
    if Unescape(t) == Some(s) { UnescapeOnlyEscaped(t, s); }
    if Escape(s) == t { UnescapeEach(s); }
  }

  lemma {:induction false} EscapeEachLength(s: string)
    ensures |EscapeEach(s)| == |s| + Count(s, Backslash) + Count(s, Quote)
  {
    if s != [] { EscapeEachLength(s[1..]); }
  }

  /** The output is longer than the input by the number of backslashes plus
      the number of single quotes. */
  lemma EscapeLength(s: string)
    ensures |Escape(s)| == |s| + Count(s, Backslash) + Count(s, Quote)
  {
    EscapeIsPerChar(s);
    EscapeEachLength(s);
  }

  lemma {:induction false} EscapeEachIdentity(s: string)
    requires Backslash !in s && Quote !in s
    ensures EscapeEach(s) == s
  {
    if s != [] {
      assert s[0] in s;
      assert forall k | 0 <= k < |s[1..]| :: s[1..][k] == s[k + 1];
      EscapeEachIdentity(s[1..]);
      assert s == [s[0]] + s[1..];
    }
  }

  /** A string with neither a backslash nor a quote is returned unchanged. */
  lemma EscapeIdentity(s: string)
    requires Backslash !in s && Quote !in s
    ensures Escape(s) == s
  {
    EscapeIsPerChar(s);
    EscapeEachIdentity(s);
  }

  lemma {:induction false} EscapeEachQuotes(s: string)
    ensures forall i | 0 <= i < |EscapeEach(s)| && EscapeEach(s)[i] == Quote ::
              i > 0 && EscapeEach(s)[i - 1] == Backslash
  {
    if s != [] {
      EscapeEachQuotes(s[1..]);
      var head, tail := EscapeChar(s[0]), EscapeEach(s[1..]);
      assert EscapeEach(s) == head + tail;
      forall i | 0 <= i < |head + tail| && (head + tail)[i] == Quote
        ensures i > 0 && (head + tail)[i - 1] == Backslash
      {
        if i >= |head| {
          var j := i - |head|;
          assert tail[j] == Quote;
          if j == 0 {
            assert false;
          }
        }
      }
    }
  }

  /** In the output every single quote is immediately preceded by a backslash. */
  lemma EscapeQuotesPreceded(s: string)
    ensures forall i | 0 <= i < |Escape(s)| && Escape(s)[i] == Quote ::
              i > 0 && Escape(s)[i - 1] == Backslash
  {
    EscapeIsPerChar(s);
    EscapeEachQuotes(s);
  }
}
