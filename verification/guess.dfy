/**
 * `guessMac` and the exported entry point: the table stage with the
 * preferred-interface hint first, then, only when the table yields nothing,
 * the link-listing command and the parse of its output. The callback
 * waterfall is written as plain sequential steps.
 */
module GuessMac {
  import opened Wrappers
  import opened JsText
  import opened Scan
  import opened Patterns
  import opened Exec
  import opened Interfaces
  import opened LinkScan

  /** The result `guessMac` hands to its callback, given the hint, the
      interface table and what running a command yields. A MAC from the
      table is the MAC of a non-internal address; a MAC from the fallback is
      six hex octets; an error is only possible when no address in the table
      qualifies, and is then exactly the fallback's failure. */
  function Pipeline(hint: Option<string>, table: Table, run: Runner): (r: Result<string, GuessError>)
    ensures AnyQualifies(table) ==> r.Ok? && exists i, j | 0 <= i < |table| && 0 <= j < |table[i].addresses| ::
              Qualifies(table[i].addresses[j]) && table[i].addresses[j].mac == Some(r.value)
    ensures !AnyQualifies(table) ==> r == match run(LinkCommand(hint))
                                          case Failed(reason) => Err(ExecFailed(reason))
                                          case Completed(stdout) => LinkResult(stdout)
    ensures !AnyQualifies(table) && r.Ok? ==> IsMacText(r.value)
  {
    match TableMac(hint, table)
    case Some(mac) => Ok(mac)
    case None =>
      match run(LinkCommand(hint))
      case Failed(reason) => Err(ExecFailed(reason))
      case Completed(stdout) => LinkResult(stdout)
  }

  /** `guessMac(guessDefaultFunc, callback)` once the hint is known. */
  method GuessMac(hint: Option<string>, table: Table, run: Runner) returns (r: Result<string, GuessError>)
    ensures r == Pipeline(hint, table, run)
  {
    if hint.Some? {
      var addresses := Lookup(table, hint.value);
      if addresses.Some? {
        var mac := ScanAddresses(addresses.value);
        if mac.Some? {
          return Ok(mac.value);
        }
      }
    }
    var mac := ScanTable(table);
    if mac.Some? {
      return Ok(mac.value);
    }
    var cmd := BuildLinkCommand(hint);
    match run(cmd) {
      case Failed(reason) =>
        r := Err(ExecFailed(reason));
      case Completed(stdout) =>
        r := ParseLinkOutput(stdout);
    }
  }

  /** The exported function: `guessMac` with `guessWiredInterface` supplying
      the hint, so the first interface whose name starts with "eth" is the
      preferred one. The interface table is read twice, once for the hint and
      once for the table stage, and the two reads may differ. */
  method GuessMacExported(hintTable: Table, table: Table, run: Runner) returns (r: Result<string, GuessError>)
    ensures r == Pipeline(FirstSome(hintTable, EthName), table, run)
  {
    var hint := GuessWiredInterface(hintTable);
    r := GuessMac(hint, table, run);
  }

  /** When the hint names an interface that has a qualifying address, the
      result is the MAC of the first such address of that interface, even if
      an interface earlier in the table also qualifies. */
  lemma PreferredInterfaceWins(name: string, table: Table, run: Runner, i: nat)
    requires Lookup(table, name).Some?
    requires var addresses := Lookup(table, name).value;
      i < |addresses| && Qualifies(addresses[i]) && forall k | 0 <= k < i :: !Qualifies(addresses[k])
    ensures Pipeline(Some(name), table, run) == Ok(Lookup(table, name).value[i].mac.value)
  {
    var addresses := Lookup(table, name).value;
    FirstSomeAt(addresses, QualifyingMac, i);
  }

  /** When the hint does not lead to a MAC (no hint, no such interface, or
      no qualifying address on it), the result is the MAC of the first
      qualifying address in table order, interfaces first, then addresses. */
  lemma FirstInTableOrder(hint: Option<string>, table: Table, run: Runner, i: nat, j: nat)
    requires hint.None? || Lookup(table, hint.value).None?
      || forall a | a in Lookup(table, hint.value).value :: !Qualifies(a)
    requires i < |table| && j < |table[i].addresses| && Qualifies(table[i].addresses[j])
    requires forall k, l | 0 <= k < i && 0 <= l < |table[k].addresses| :: !Qualifies(table[k].addresses[l])
    requires forall l | 0 <= l < j :: !Qualifies(table[i].addresses[l])
    ensures Pipeline(hint, table, run) == Ok(table[i].addresses[j].mac.value)
  {
    if hint.Some? && Lookup(table, hint.value).Some? {
      var addresses := Lookup(table, hint.value).value;
      assert forall k | 0 <= k < |addresses| :: QualifyingMac(addresses[k]).None? by {
        forall k | 0 <= k < |addresses| ensures QualifyingMac(addresses[k]).None? {
          assert addresses[k] in addresses;
        }
      }
    }
    FirstSomeAt(table[i].addresses, QualifyingMac, j);
    forall k | 0 <= k < i ensures InterfaceMac(table[k]).None? {
      assert forall l | 0 <= l < |table[k].addresses| :: QualifyingMac(table[k].addresses[l]).None?;
    }
    FirstSomeAt(table, InterfaceMac, i);
  }

  /** When some address in the table qualifies, the fallback command is never
      consulted: the result does not depend on what running it would yield. */
  lemma TableHitSkipsFallback(hint: Option<string>, table: Table, run1: Runner, run2: Runner)
    requires AnyQualifies(table)
    ensures Pipeline(hint, table, run1) == Pipeline(hint, table, run2)
  {
  }

  /** With nothing in the table, a failure to run the fallback command is the
      result. */
  lemma ExecFailureIsResult(hint: Option<string>, table: Table, run: Runner)
    requires !AnyQualifies(table) && run(LinkCommand(hint)).Failed?
    ensures Pipeline(hint, table, run) == Err(ExecFailed(run(LinkCommand(hint)).reason))
  {
  }

  /** With nothing in the table and no line of the fallback output matching
      MAC_RE, the result is the "MAC address not found" error. */
  lemma NoMacLineIsNotFound(hint: Option<string>, table: Table, run: Runner)
    requires !AnyQualifies(table) && run(LinkCommand(hint)).Completed?
    requires var lines := SplitLines(run(LinkCommand(hint)).stdout);
      forall i | 0 <= i < |lines| :: forall m :: !IsMacMatch(lines[i], m)
    ensures Pipeline(hint, table, run) == Err(NotFound)
    ensures Pipeline(hint, table, run).error.Message() == "MAC address not found"
  {
    var stdout := run(LinkCommand(hint)).stdout;
    assert Pipeline(hint, table, run) == LinkResult(stdout);
    NoMacLine(stdout);
  }

  /** With nothing in the table and a one-line fallback output of the form
      `<head>link/<type> <mac>…`, the head as LinkLineMac allows it, the
      result is that MAC, case preserved. */
  lemma FallbackLinkLine(hint: Option<string>, table: Table, run: Runner, pre: string, linkType: string, mac: string, rest: string)
    requires !AnyQualifies(table)
    requires IsLinePrefix(pre) && '\n' !in pre
    requires forall k | 0 <= k < |linkType| :: !IsSpace(linkType[k])
    requires IsMacText(mac)
    requires rest == [] || !IsWordChar(rest[0])
    requires '\n' !in rest
    requires run(LinkCommand(hint)) == Completed(pre + "link/" + linkType + " " + mac + rest)
    ensures Pipeline(hint, table, run) == Ok(mac)
  {
    var line := pre + "link/" + linkType + " " + mac + rest;
    LinkLineOutput(pre, linkType, mac, rest);
    assert Pipeline(hint, table, run) == LinkResult(line);
  }
}
