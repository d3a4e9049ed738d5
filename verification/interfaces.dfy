/**
 * The OS interface table and the scans over it: the preferred-interface
 * hint of `guessWiredInterface` and the two early-return loops of the table
 * stage of `guessMac`.
 *
 * The table is an explicit ordered sequence (the order of `for … in` over the
 * object that `os.networkInterfaces()` returns).
 */
module Interfaces {
  import opened Wrappers
  import opened Scan

  /** One entry of an interface's address list. `mac` is None when the entry's
      `mac` property is not a string. */
  datatype Address = Address(mac: Option<string>, internal: bool)

  datatype Interface = Interface(name: string, addresses: seq<Address>)

  type Table = seq<Interface>

  /** An address qualifies when it is not internal and its MAC is a string (possibly empty). */
  predicate Qualifies(a: Address) {
    !a.internal && a.mac.Some?
  }

  /** The MAC an address contributes to the scan, if it qualifies. */
  function QualifyingMac(a: Address): (r: Option<string>)
    ensures r.Some? <==> Qualifies(a)
    ensures r.Some? ==> a.mac == r
  {
    if a.internal then None else a.mac
  }

  /** The MAC of the first qualifying address of an interface. */
  function InterfaceMac(iface: Interface): Option<string> {
    FirstSome(iface.addresses, QualifyingMac)
  }

  /** `name.startsWith("eth")` */
  predicate StartsWithEth(name: string) {
    |name| >= 3 && name[..3] == "eth"
  }

  /** The interface's name when it starts with "eth". */
  function EthName(iface: Interface): Option<string> {
    if StartsWithEth(iface.name) then Some(iface.name) else None
  }

  /** `ifaces[name]`: the address list of the entry with that name, or
      undefined when no entry has it. */
  function Lookup(table: Table, name: string): (r: Option<seq<Address>>)
    ensures r.None? <==> forall i | 0 <= i < |table| :: table[i].name != name
    ensures r.Some? ==> exists i | 0 <= i < |table| :: table[i].name == name && table[i].addresses == r.value
  {
    if table == [] then None
    else if table[0].name == name then Some(table[0].addresses)
    else
      var r := Lookup(table[1..], name);
      assert forall i | 1 <= i < |table| :: table[1..][i - 1] == table[i];
      r
  }

  /** Whether any address anywhere in the table qualifies. */
  ghost predicate AnyQualifies(table: Table) {
    exists i, j | 0 <= i < |table| && 0 <= j < |table[i].addresses| :: Qualifies(table[i].addresses[j])
  }

  /** `guessWiredInterface`: the first name in table order that starts with
      "eth", or null when there is none. */
  method GuessWiredInterface(table: Table) returns (name: Option<string>)
    ensures name == FirstSome(table, EthName)
    ensures name.Some? ==> exists i | 0 <= i < |table| ::
              table[i].name == name.value && StartsWithEth(name.value)
              && forall k | 0 <= k < i :: !StartsWithEth(table[k].name)
    ensures name.None? <==> forall i | 0 <= i < |table| :: !StartsWithEth(table[i].name)
  {
    var i := 0;
    while i < |table|
      invariant 0 <= i <= |table|
      invariant forall k | 0 <= k < i :: EthName(table[k]).None?
    {
      if StartsWithEth(table[i].name) {
        FirstSomeAt(table, EthName, i);
        return Some(table[i].name);
      }
      i := i + 1;
    }
    return None;
  }

  /** The inner loop over one address list: the MAC of its first address that
      is not internal and has a string MAC. */
  method ScanAddresses(addresses: seq<Address>) returns (mac: Option<string>)
    ensures mac == FirstSome(addresses, QualifyingMac)
    ensures mac.Some? ==> exists i | 0 <= i < |addresses| ::
              Qualifies(addresses[i]) && addresses[i].mac == mac
              && forall k | 0 <= k < i :: !Qualifies(addresses[k])
    ensures mac.None? <==> forall i | 0 <= i < |addresses| :: !Qualifies(addresses[i])
  {
    var i := 0;
    while i < |addresses|
      invariant 0 <= i <= |addresses|
      invariant forall k | 0 <= k < i :: !Qualifies(addresses[k])
    {
      var address := addresses[i];
      if !address.internal && address.mac.Some? {
        FirstSomeAt(addresses, QualifyingMac, i);
        return address.mac;
      }
      i := i + 1;
    }
    return None;
  }

  /** The scan of every interface in table order, addresses in list order. */
  method ScanTable(table: Table) returns (mac: Option<string>)
    ensures mac == FirstSome(table, InterfaceMac)
    ensures mac.None? <==> !AnyQualifies(table)
  {
    var i := 0;
    while i < |table|
      invariant 0 <= i <= |table|
      invariant forall k | 0 <= k < i :: InterfaceMac(table[k]).None?
    {
      mac := ScanAddresses(table[i].addresses);
      if mac.Some? {
        FirstSomeAt(table, InterfaceMac, i);
        return mac;
      }
      i := i + 1;
    }
    NoneQualifies(table);
    return None;
  }

  /** The table scan finds nothing exactly when no address qualifies. */
  lemma NoneQualifies(table: Table)
    ensures FirstSome(table, InterfaceMac).None? <==> !AnyQualifies(table)
  {
    if AnyQualifies(table) {
      var i, j :| 0 <= i < |table| && 0 <= j < |table[i].addresses| && Qualifies(table[i].addresses[j]);
      assert QualifyingMac(table[i].addresses[j]).Some?;
      assert InterfaceMac(table[i]).Some?;
    }
  }

  /** The table stage of `guessMac`: the preferred interface's first
      qualifying MAC when the hint names an entry that has one, otherwise the
      first qualifying MAC in table order. Whatever it returns is the MAC of a
      qualifying address of the table, and it returns nothing exactly when no
      address in the table qualifies. */
  function TableMac(hint: Option<string>, table: Table): (r: Option<string>)
    ensures r.Some? ==> exists i, j | 0 <= i < |table| && 0 <= j < |table[i].addresses| ::
              Qualifies(table[i].addresses[j]) && table[i].addresses[j].mac == r
    ensures r.None? <==> !AnyQualifies(table)
  {
    var preferred :=
      if hint.Some? && Lookup(table, hint.value).Some? then FirstSome(Lookup(table, hint.value).value, QualifyingMac)
      else None;
    if preferred.Some? then preferred
    else
      NoneQualifies(table);
      FirstSome(table, InterfaceMac)
  }
}
