/**
 * The two regular expressions of the core, executed as `RegExp.prototype.exec`
 * does on one line: the leftmost start position that admits a match wins, and
 * at that position the backtracking order of the greedy quantifiers decides
 * which match is reported.
 *
 *   DEFAULT_IFACE_NAME_RE = /\bdev\s+([^\s]+)\b/
 *   MAC_RE                = /\blink\/[^\s]*\s((?:[0-9a-fA-F]{2}:){5}[0-9a-fA-F]{2})\b/
 *
 * Each pattern is stated declaratively (IsDevMatch, IsMacMatch: every way the
 * pattern can match) and computed by a search whose contract ties it to the
 * declarative form.
 */
module Patterns {
  import opened Wrappers
  import opened JsText

  /** A match that starts at `start` and whose capture group is s[capStart..capEnd]. */
  datatype Span = Span(start: nat, capStart: nat, capEnd: nat)

  // ---------------------------------------------------------------------------
  // DEFAULT_IFACE_NAME_RE

  /** `\bdev\s+([^\s]+)\b` matches s at m: a boundary, "dev", one or more
      whitespace characters, then one or more non-whitespace characters (the
      capture) followed by a boundary. */
  predicate IsDevMatch(s: string, m: Span) {
    && m.start + 3 < m.capStart < m.capEnd <= |s|
    && IsBoundary(s, m.start)
    && s[m.start..m.start + 3] == "dev"
    && (forall k | m.start + 3 <= k < m.capStart :: IsSpace(s[k]))
    && (forall k | m.capStart <= k < m.capEnd :: !IsSpace(s[k]))
    && IsBoundary(s, m.capEnd)
  }

  /** The match exec reports: no match starts further left, and among the
      matches at its start the greedy `[^\s]+` keeps the longest capture. */
  ghost predicate IsFirstDevMatch(s: string, m: Span) {
    && IsDevMatch(s, m)
    && forall o | IsDevMatch(s, o) :: m.start <= o.start && (o.start == m.start ==> o.capEnd <= m.capEnd)
  }

  /** The last position j with lo < j <= hi at which `\b` holds (where the
      backtracking of a greedy quantifier over s[lo..hi] stops first). */
  function LastBoundary(s: string, lo: nat, hi: nat): (j: Option<nat>)
    requires lo <= hi <= |s|
    ensures j.Some? ==> lo < j.value <= hi && IsBoundary(s, j.value)
    ensures j.Some? ==> forall k | j.value < k <= hi :: !IsBoundary(s, k)
    ensures j.None? ==> forall k | lo < k <= hi :: !IsBoundary(s, k)
    decreases hi
  {
    if hi == lo then None
    else if IsBoundary(s, hi) then Some(hi)
    else LastBoundary(s, lo, hi - 1)
  }

  /** The attempt at position p: the whitespace run after "dev" must be taken
      whole, and the capture is the longest non-whitespace prefix ending on a
      boundary. */
  function DevMatchAt(s: string, p: nat): (m: Option<Span>)
    requires p <= |s|
    ensures m.Some? ==> m.value.start == p && IsDevMatch(s, m.value)
    ensures m.Some? ==> forall o | IsDevMatch(s, o) && o.start == p :: o.capEnd <= m.value.capEnd
    ensures m.None? ==> forall o | IsDevMatch(s, o) :: o.start != p
  {
    if p + 3 <= |s| && IsBoundary(s, p) && s[p..p + 3] == "dev" then
      var q := RunEnd(s, p + 3, true);
      var e := RunEnd(s, q, false);
      if q == p + 3 || e == q then None
      else
        match LastBoundary(s, q, e)
        case None => None
        case Some(j) => Some(Span(p, q, j))
    else None
  }

  /** Tries every start position from `from` on, leftmost first. */
  function FindDev(s: string, from: nat): (m: Option<Span>)
    requires from <= |s|
    ensures m.Some? ==> from <= m.value.start && IsDevMatch(s, m.value)
    ensures m.Some? ==> forall o | IsDevMatch(s, o) && from <= o.start ::
              m.value.start <= o.start && (o.start == m.value.start ==> o.capEnd <= m.value.capEnd)
    ensures m.None? ==> forall o | IsDevMatch(s, o) :: o.start < from
    decreases |s| - from
  {
    match DevMatchAt(s, from)
    case Some(m) => Some(m)
    case None => if from == |s| then None else FindDev(s, from + 1)
  }

  /** `DEFAULT_IFACE_NAME_RE.exec(line)`, reduced to `match[1]` or null: a
      non-empty name without whitespace; null exactly when the pattern matches
      nowhere in the line. */
  function DevCapture(line: string): (r: Option<string>)
    ensures r.None? <==> forall o :: !IsDevMatch(line, o)
    ensures r.Some? ==> |r.value| > 0 && forall i | 0 <= i < |r.value| :: !IsSpace(r.value[i])
  {
    match FindDev(line, 0)
    case None => None
    case Some(m) => Some(line[m.capStart..m.capEnd])
  }

  /** A name DevCapture returns is the capture of the match exec reports. */
  lemma DevCaptureIsFirstMatch(line: string)
    requires DevCapture(line).Some?
    ensures exists m :: IsFirstDevMatch(line, m) && DevCapture(line).value == line[m.capStart..m.capEnd]
  {
    var m := FindDev(line, 0).value;
    assert IsFirstDevMatch(line, m);
  }

  // ---------------------------------------------------------------------------
  // MAC_RE

  /** Six octets of exactly two hex digits, joined by ':' (case as given). */
  predicate IsMacText(t: string) {
    |t| == 17 && forall i | 0 <= i < 17 :: if i % 3 == 2 then t[i] == ':' else IsHexDigit(t[i])
  }

  /** `\blink\/[^\s]*\s(<mac>)\b` matches s at m: a boundary, "link/", any
      non-whitespace characters, exactly one whitespace character, then the
      17-character MAC text (the capture) followed by a boundary. */
  predicate IsMacMatch(s: string, m: Span) {
    && m.start + 5 < m.capStart
    && m.capEnd == m.capStart + 17 <= |s|
    && IsBoundary(s, m.start)
    && s[m.start..m.start + 5] == "link/"
    && (forall k | m.start + 5 <= k < m.capStart - 1 :: !IsSpace(s[k]))
    && IsSpace(s[m.capStart - 1])
    && IsMacText(s[m.capStart..m.capEnd])
    && IsBoundary(s, m.capEnd)
  }

  /** The match exec reports: no match starts further left (at its start the
      pattern can match in only one way). */
  ghost predicate IsFirstMacMatch(s: string, m: Span) {
    && IsMacMatch(s, m)
    && forall o | IsMacMatch(s, o) :: m.start <= o.start && (o.start == m.start ==> o == m)
  }

  /** The attempt at position p: `[^\s]*` must take the whole non-whitespace
      run, so `\s` and the MAC text are at fixed places after it. */
  function MacMatchAt(s: string, p: nat): (m: Option<Span>)
    requires p <= |s|
    ensures m.Some? ==> m.value.start == p && IsMacMatch(s, m.value)
    ensures m.Some? ==> forall o | IsMacMatch(s, o) && o.start == p :: o == m.value
    ensures m.None? ==> forall o | IsMacMatch(s, o) :: o.start != p
  {
    if p + 5 <= |s| && IsBoundary(s, p) && s[p..p + 5] == "link/" then
      var e := RunEnd(s, p + 5, false);
      if e + 18 <= |s| && IsMacText(s[e + 1..e + 18]) && IsBoundary(s, e + 18) then
        Some(Span(p, e + 1, e + 18))
      else None
    else None
  }

  /** Tries every start position from `from` on, leftmost first. */
  function FindMac(s: string, from: nat): (m: Option<Span>)
    requires from <= |s|
    ensures m.Some? ==> from <= m.value.start && IsMacMatch(s, m.value)
    ensures m.Some? ==> forall o | IsMacMatch(s, o) && from <= o.start ::
              m.value.start <= o.start && (o.start == m.value.start ==> o == m.value)
    ensures m.None? ==> forall o | IsMacMatch(s, o) :: o.start < from
    decreases |s| - from
  {
    match MacMatchAt(s, from)
    case Some(m) => Some(m)
    case None => if from == |s| then None else FindMac(s, from + 1)
  }

  /** `MAC_RE.exec(line)`, reduced to `match[1]` or null: always six
      colon-separated hex octets; null exactly when the pattern matches
      nowhere in the line. */
  function MacCapture(line: string): (r: Option<string>)
    ensures r.None? <==> forall o :: !IsMacMatch(line, o)
    ensures r.Some? ==> IsMacText(r.value)
  {
    match FindMac(line, 0)
    case None => None
    case Some(m) => Some(line[m.capStart..m.capEnd])
  }

  /** A MAC that MacCapture returns is the capture of the match exec reports. */
  lemma MacCaptureIsFirstMatch(line: string)
    requires MacCapture(line).Some?
    ensures exists m :: IsFirstMacMatch(line, m) && MacCapture(line).value == line[m.capStart..m.capEnd]
  {
    var m := FindMac(line, 0).value;
    assert IsFirstMacMatch(line, m);
  }
}
