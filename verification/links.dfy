/**
 * The last stage of `guessMac`: the `ip -o link show` command, optionally
 * scoped to the preferred interface and wrapped for `sh -c`, and the parse of
 * its output with MAC_RE.
 */
module LinkScan {
  import opened Wrappers
  import opened JsText
  import opened Scan
  import opened Patterns
  import opened ShellEscape

  /** Lists every link but the loopback one. */
  const AllLinksCommand: string := "ip -o link show | grep -v link\\/loopback"

  const NotFoundMessage: string := "MAC address not found"

  /** The errors `guessMac` can hand to its callback. */
  datatype GuessError =
    | ExecFailed(reason: string)  // the error `exec` reported for the fallback command
    | NotFound                    // no line of its output holds a MAC
  {
    function Message(): string {
      match this
      case ExecFailed(reason) => reason
      case NotFound => NotFoundMessage
    }
  }

  /** The command before wrapping: all links when there is no preferred
      interface, otherwise that interface's link with all links as the
      alternative when it fails. The name is embedded as it is. */
  function InnerCommand(hint: Option<string>): (cmd: string)
    ensures hint.None? ==> cmd == AllLinksCommand
    ensures hint.Some? ==>
              var prefix := "(ip -o link show dev " + hint.value;
              var suffix := " | grep -v link\\/loopback) || (" + AllLinksCommand + ")";
              cmd == prefix + suffix
  {
    match hint
    case None => AllLinksCommand
    case Some(name) => "(ip -o link show dev " + name + " | grep -v link\\/loopback) || (" + AllLinksCommand + ")"
  }

  /** The command that is run: `sh -c '…'` around the escaped inner command.
      What lies between the quotes decodes back to exactly the inner command,
      and every quote in it is preceded by a backslash. */
  function LinkCommand(hint: Option<string>): (cmd: string)
    ensures |cmd| >= 8 && cmd[..7] == "sh -c '" && cmd[|cmd| - 1] == Quote
    ensures Unescape(cmd[7..|cmd| - 1]) == Some(InnerCommand(hint))
    ensures forall i | 7 <= i < |cmd| - 1 && cmd[i] == Quote :: i > 7 && cmd[i - 1] == Backslash
  {
    WrappedEscape(InnerCommand(hint));
    "sh -c '" + Escape(InnerCommand(hint)) + "'"
  }

  lemma WrappedEscape(inner: string)
    ensures var cmd := "sh -c '" + Escape(inner) + "'";
      && |cmd| >= 8 && cmd[..7] == "sh -c '" && cmd[|cmd| - 1] == Quote
      && Unescape(cmd[7..|cmd| - 1]) == Some(inner)
      && forall i | 7 <= i < |cmd| - 1 && cmd[i] == Quote :: i > 7 && cmd[i - 1] == Backslash
  {
    var body := Escape(inner);
    EscapeRoundTrip(inner);
    EscapeQuotesPreceded(inner);
    var cmd := "sh -c '" + body + "'";
    assert cmd[7..|cmd| - 1] == body;
    assert forall i | 7 <= i < |cmd| - 1 :: cmd[i] == body[i - 7];
  }

  /** The command string built step by step, as the source does. */
  method BuildLinkCommand(hint: Option<string>) returns (cmd: string)
    ensures cmd == LinkCommand(hint)
  {
    var fallbackCmd := AllLinksCommand;
    cmd := fallbackCmd;
    if hint.Some? {
      cmd := "(ip -o link show dev " + hint.value + " | grep -v link\\/loopback) || (" + fallbackCmd + ")";
    }
    cmd := "sh -c '" + Escape(cmd) + "'";
  }

  /** What the link-output parse hands on: the MAC of the first line that
      holds one, or the "MAC address not found" error. */
  function LinkResult(stdout: string): (r: Result<string, GuessError>)
    ensures r.Ok? ==> IsMacText(r.value)
    ensures r.Err? ==> r.error == NotFound && forall i | 0 <= i < |SplitLines(stdout)| :: MacCapture(SplitLines(stdout)[i]).None?
    ensures r.Ok? ==> exists i | 0 <= i < |SplitLines(stdout)| ::
              MacCapture(SplitLines(stdout)[i]) == Some(r.value)
              && forall k | 0 <= k < i :: MacCapture(SplitLines(stdout)[k]).None?
  {
    match FirstSome(SplitLines(stdout), MacCapture)
    case Some(mac) => Ok(mac)
    case None => Err(NotFound)
  }

  /** The line loop over the command's output. */
  method ParseLinkOutput(stdout: string) returns (r: Result<string, GuessError>)
    ensures r == LinkResult(stdout)
  {
    var lines := SplitLines(stdout);
    var i := 0;
    while i < |lines|
      invariant 0 <= i <= |lines|
      invariant forall k | 0 <= k < i :: MacCapture(lines[k]).None?
    {
      var mac := MacCapture(lines[i]);
      if mac.Some? {
        FirstSomeAt(lines, MacCapture, i);
        return Ok(mac.value);
      }
      i := i + 1;
    }
    return Err(NotFound);
  }

  /** "link/" starts at position k of s. */
  predicate LinkAt(s: string, k: int) {
    0 <= k && k + 5 <= |s| && s[k..k + 5] == "link/"
  }

  /** `pre` holds no occurrence of "link/". */
  predicate NoLinkIn(pre: string) {
    forall k | 0 <= k < |pre| :: !LinkAt(pre, k)
  }

  /** Text before `link/` that holds no `link/` of its own and ends in a
      non-word character (or is empty), as the `<index>: <name>: <flags> …`
      head of an `ip -o link show` line does. */
  predicate IsLinePrefix(pre: string) {
    NoLinkIn(pre) && (pre == [] || !IsWordChar(pre[|pre| - 1]))
  }

  /** No match of MAC_RE starts inside a prefix line[..p] that holds no
      `link/`, when line[p] is `l`: a start within the last four characters
      of the prefix would need `l` where "link/" has `i`, `n`, `k` or `/`. */
  lemma NoMacMatchInPrefix(line: string, p: nat)
    requires p < |line| && line[p] == 'l'
    requires NoLinkIn(line[..p])
    ensures forall o | IsMacMatch(line, o) :: p <= o.start
  {
    forall j | 0 <= j < p ensures !LinkAt(line, j) {
      if j + 5 <= p {
        assert !LinkAt(line[..p], j);
        assert line[j..j + 5] == line[..p][j..j + 5];
      } else if j + 5 <= |line| {
        assert line[j..j + 5][p - j] == line[p];
      }
    }
    forall o | IsMacMatch(line, o) ensures p <= o.start {
      assert LinkAt(line, o.start);
    }
  }

  /** The match that starts furthest left is the one MacCapture reports. */
  lemma LeftmostMacMatch(line: string, w: Span)
    requires IsMacMatch(line, w)
    requires forall o | IsMacMatch(line, o) :: w.start <= o.start
    ensures MacCapture(line) == Some(line[w.capStart..w.capEnd])
  {
    var m := FindMac(line, 0).value;
    assert m == w;
  }

  /** `link/<type>`, one space and a MAC, after any prefix ending in a
      non-word character, is a match of MAC_RE that starts after the prefix. */
  lemma {:induction false} LinkLineMatch(pre: string, linkType: string, mac: string, rest: string)
    requires pre == [] || !IsWordChar(pre[|pre| - 1])
    requires forall k | 0 <= k < |linkType| :: !IsSpace(linkType[k])
    requires IsMacText(mac)
    requires rest == [] || !IsWordChar(rest[0])
    ensures IsMacMatch(pre + "link/" + linkType + " " + mac + rest, Span(|pre|, |pre| + 6 + |linkType|, |pre| + 23 + |linkType|))
    ensures (pre + "link/" + linkType + " " + mac + rest)[|pre| + 6 + |linkType|..|pre| + 23 + |linkType|] == mac
  {
    var head := pre + "link/" + linkType + " ";
    var line := head + mac + rest;
    var p := |pre|;
    var n := |linkType|;
    assert |head| == p + 6 + n;
    assert line[p..p + 5] == "link/";
    assert forall k | p + 5 <= k < p + 5 + n :: line[k] == linkType[k - p - 5];
    assert line[p + 5 + n] == ' ';
    assert line[|head|..|head| + 17] == mac;
    if p > 0 {
      assert line[p - 1] == pre[p - 1];
    }
    if rest != [] {
      assert line[|head| + 17] == rest[0];
    }
    assert IsHexDigit(mac[16]);
  }

  /** A line holding a prefix, `link/<type>`, one space and a MAC, followed
      by a non-word character or nothing, yields that MAC with its case kept. */
  lemma LinkLineMac(pre: string, linkType: string, mac: string, rest: string)
    requires IsLinePrefix(pre)
    requires forall k | 0 <= k < |linkType| :: !IsSpace(linkType[k])
    requires IsMacText(mac)
    requires rest == [] || !IsWordChar(rest[0])
    ensures MacCapture(pre + "link/" + linkType + " " + mac + rest) == Some(mac)
  {
    var line := pre + "link/" + linkType + " " + mac + rest;
    var p := |pre|;
    var n := |linkType|;
    LinkLineMatch(pre, linkType, mac, rest);
    assert line[..p] == pre;
    NoMacMatchInPrefix(line, p);
    LeftmostMacMatch(line, Span(p, p + 6 + n, p + 23 + n));
  }

  /** Such a line holds no newline. */
  lemma LinkLineHasNoNewline(pre: string, linkType: string, mac: string, rest: string)
    requires '\n' !in pre
    requires forall k | 0 <= k < |linkType| :: !IsSpace(linkType[k])
    requires IsMacText(mac)
    requires '\n' !in rest
    ensures '\n' !in pre + "link/" + linkType + " " + mac + rest
  {
    assert forall k | 0 <= k < |linkType| :: linkType[k] != '\n';
    assert forall k | 0 <= k < |mac| :: mac[k] != '\n';
    assert '\n' !in "link/" && '\n' !in " ";
  }

  /** An output that is one such line yields its MAC. */
  lemma LinkLineOutput(pre: string, linkType: string, mac: string, rest: string)
    requires IsLinePrefix(pre) && '\n' !in pre
    requires forall k | 0 <= k < |linkType| :: !IsSpace(linkType[k])
    requires IsMacText(mac)
    requires rest == [] || !IsWordChar(rest[0])
    requires '\n' !in rest
    ensures LinkResult(pre + "link/" + linkType + " " + mac + rest) == Ok(mac)
  {
    LinkLineHasNoNewline(pre, linkType, mac, rest);
    LinkLineMac(pre, linkType, mac, rest);
    OneLineOutput(pre + "link/" + linkType + " " + mac + rest, mac);
  }

  /** The head of an `ip -o link show` line for an Ethernet link, up to the
      backslash and the spaces that stand for the folded line break. */
  const EthernetHead: string :=
    "2: eth0: " + "<BROADCAST,MULTICAST,UP,LOWER_UP>" + " mtu 1500 qdisc pfifo_fast state UP"
    + " mode DEFAULT group default qlen 1000" + "\\    "

  /** A whole `ip -o link show` line for an Ethernet link. */
  const EthernetLine: string := EthernetHead + "link/" + "ether" + " " + "00:11:22:33:44:55" + " brd ff:ff:ff:ff:ff:ff"

  /** An output in which no line matches MAC_RE yields the not-found error. */
  lemma NoMacLine(stdout: string)
    requires forall i | 0 <= i < |SplitLines(stdout)| :: forall m :: !IsMacMatch(SplitLines(stdout)[i], m)
    ensures LinkResult(stdout) == Err(NotFound)
  {
    var lines := SplitLines(stdout);
    forall i | 0 <= i < |lines| ensures MacCapture(lines[i]).None? {
    }
  }

  /** An output of one line (no newline) yields that line's MAC. */
  lemma OneLineOutput(line: string, mac: string)
    requires '\n' !in line && MacCapture(line) == Some(mac)
    ensures LinkResult(line) == Ok(mac)
  {
    SplitLinesUnique(line, [line]);
    FirstSomeAt([line], MacCapture, 0);
  }

  /** A string without `/` holds no `link/`. */
  lemma NoSlashNoLink(pre: string)
    requires '/' !in pre
    ensures NoLinkIn(pre)
  {
    forall k | 0 <= k < |pre| ensures !LinkAt(pre, k) {
      if k + 5 <= |pre| {
        assert pre[k..k + 5][4] == pre[k + 4];
      }
    }
  }

  /** The head of the Ethernet line is a prefix as LinkLineMac needs it. */
  lemma EthernetHeadIsPrefix()
    ensures IsLinePrefix(EthernetHead)
  {
    assert '/' !in "2: eth0: " && '/' !in "<BROADCAST,MULTICAST,UP,LOWER_UP>";
    assert '/' !in " mtu 1500 qdisc pfifo_fast state UP" && '/' !in " mode DEFAULT group default qlen 1000";
    assert '/' !in "\\    ";
    NoSlashNoLink(EthernetHead);
    assert EthernetHead[|EthernetHead| - 1] == ' ';
  }

  /** On that line the reported MAC is the address after `link/ether`, not
      the broadcast address after it, and not anything in the head. */
  lemma EthernetLineMac()
    ensures MacCapture(EthernetLine) == Some("00:11:22:33:44:55")
  {
    EthernetHeadIsPrefix();
    assert IsMacText("00:11:22:33:44:55");
    LinkLineMac(EthernetHead, "ether", "00:11:22:33:44:55", " brd ff:ff:ff:ff:ff:ff");
  }
}
