# guessmac in Dafny

A model of `guessmac.js`, the helper that guesses the host's "primary" MAC
address. It works in three steps:

1. It picks a preferred interface. The exported function uses
   `guessWiredInterface`: the first interface whose name starts with `eth`.
   `guessDefaultRouteIface` is the alternative. It takes the name after
   `dev` on the default-route listing.
2. It scans the OS interface table. The preferred interface's addresses come
   first, then every interface in table order. The first address that is not
   internal and has a string MAC wins.
3. Only when the table has no such address, it runs
   `sh -c '<escaped ip -o link show …>'` and parses the output with `MAC_RE`.

The model is split into these modules:

- `JsText` (text.dfy): the JavaScript semantics the core relies on. These are
  `\s`, `\w` and `\b` in a non-Unicode regular expression, and
  `split('\n')`, proved to be the unique newline-free split.
- `ShellEscape` (escape.dfy): `shellEscape` as its two global replacements,
  with an un-escaping function that is its exact inverse.
- `Patterns` (patterns.dfy): `DEFAULT_IFACE_NAME_RE` and `MAC_RE`. Each is a
  declarative predicate that describes every way the pattern can match. A
  leftmost-first search is proved to return the match that
  `RegExp.prototype.exec` reports, including the backtracking order of the
  greedy quantifiers.
- `Scan` (scan.dfy): "the first element whose lookup succeeds". This is the
  shape of every early-return `for` loop in the file.
- `Interfaces` (interfaces.dfy): the interface table, `guessWiredInterface`
  and the two table scans.
- `DefaultRoute` (route.dfy): `guessDefaultRouteIface`.
- `LinkScan` (links.dfy): building the fallback command and parsing the link
  listing.
- `GuessMac` (guess.dfy): the whole of `guessMac` and the exported entry
  point. The callback waterfall becomes sequential code.

The loops of the source are methods with `while` loops. Each is proved equal
to a specification function, and the properties are proved about those
functions. Inputs the code gets from outside are parameters:

- the interface table: an ordered sequence of interfaces;
- the platform string;
- running a command: a function from the command string to either the
  captured standard output or an error.

Behaviour of the code worth noting:

- In `guessDefaultRouteIface`, an error from running the route listing is
  passed on to the callback by the waterfall. It is not downgraded to "no
  interface".
- The exported entry point gets its hint from `guessWiredInterface`, not from
  the default-route lookup.
- An address with an empty-string MAC qualifies, because the code only checks
  that `mac` is a string.
- For the fallback, any error `exec` reports is the result. That includes a
  non-zero exit status.
- `os.networkInterfaces()` is read twice: once by `guessWiredInterface` and
  again by `guessMac`. The two reads may differ, so the entry point takes two
  tables.

## Model

| member | source | states |
|---|---|---|
| JsText.SplitLines | guessmac.js:32 | `split('\n')` gives at least one piece, no piece holds a newline, and the pieces joined with newlines give back the input |
| JsText.SplitLinesUnique | guessmac.js:90 | any list of newline-free pieces that joins back to s is exactly `split('\n')` of s |
| ShellEscape.ReplaceAll | guessmac.js:14 | definition of `str.replace(/c/g, rep)` for a one-character pattern; properties in ShellEscape.EscapeIsPerChar |
| ShellEscape.Escape | guessmac.js:13-15 | definition of `shellEscape`: the two replacements in source order; properties in the rows below |
| ShellEscape.EscapeIsPerChar | guessmac.js:13-15 | the two chained replacements escape each character on its own: `\` becomes `\\`, `'` becomes `\'`, all else is kept, in order |
| ShellEscape.EscapeRoundTrip | guessmac.js:13-15 | un-escaping the output left to right (`\\`→`\`, `\'`→`'`) gives back the input |
| ShellEscape.UnescapeIffEscape | guessmac.js:14 | a string un-escapes to s exactly when it is the escape of s, so the escape is injective and un-escaping is its inverse |
| ShellEscape.EscapeLength | guessmac.js:14 | the output is longer than the input by the number of backslashes plus the number of single quotes |
| ShellEscape.EscapeIdentity | guessmac.js:14 | a string with no backslash and no single quote is returned unchanged |
| ShellEscape.EscapeQuotesPreceded | guessmac.js:14 | every single quote in the output is immediately preceded by a backslash |
| JsText.IsSpace | guessmac.js:10-11 | definition of `\s`: the ECMAScript WhiteSpace and LineTerminator code points; used by both patterns |
| JsText.IsWordChar | guessmac.js:10-11 | definition of `\w`: ASCII letters, digits and `_` |
| JsText.IsBoundary | guessmac.js:10-11 | definition of `\b`: a word character on exactly one side, positions outside the string counting as non-word |
| Patterns.IsDevMatch | guessmac.js:11 | definition: every way `\bdev\s+([^\s]+)\b` can match a line; the search is proved against it in Patterns.DevMatchAt and Patterns.FindDev |
| Patterns.DevMatchAt | guessmac.js:11 | at one start position: returns a match of `\bdev\s+([^\s]+)\b` when one exists, and it is the one with the longest capture, which greedy backtracking tries first |
| Patterns.FindDev | guessmac.js:11 | returns the leftmost match and, among the matches at that start, the one with the longest capture; returns none when no match starts at or after `from` |
| Patterns.DevCapture | guessmac.js:34-36 | `exec(line)[1]` is null exactly when the pattern matches nowhere in the line; otherwise it is non-empty and has no whitespace |
| Patterns.DevCaptureIsFirstMatch | guessmac.js:11 | the returned name is the capture of the match exec reports: leftmost, then longest |
| Patterns.IsMacText | guessmac.js:10 | definition of `(?:[0-9a-fA-F]{2}:){5}[0-9a-fA-F]{2}`: 17 characters, `:` at every third place, hex digits elsewhere |
| Patterns.IsMacMatch | guessmac.js:10 | definition: every way `MAC_RE` can match a line; the search is proved against it in Patterns.MacMatchAt and Patterns.FindMac |
| Patterns.MacMatchAt | guessmac.js:10 | at one start position: returns the only match of `\blink\/[^\s]*\s(<mac>)\b` there, or none when the pattern cannot match there |
| Patterns.FindMac | guessmac.js:10 | returns the leftmost match, which is the only match at its start; returns none when no match starts at or after `from` |
| Patterns.MacCapture | guessmac.js:92-94 | `exec(line)[1]` is null exactly when the pattern matches nowhere in the line; otherwise it is six two-hex-digit octets joined by `:` |
| Patterns.MacCaptureIsFirstMatch | guessmac.js:10 | the returned MAC is the capture of the leftmost match, after `link/`, non-space characters and exactly one whitespace character, with its case kept |
| Scan.FirstSome | guessmac.js:33-39 | the early-return scan: it returns nothing exactly when no element hits; otherwise it returns the hit of an element that no earlier element precedes with a hit of its own |
| Interfaces.QualifyingMac | guessmac.js:62 | an address contributes its MAC exactly when `internal === false` and `mac` is a string (the empty string included) |
| Interfaces.Lookup | guessmac.js:58-59 | `ifaces[name]` is undefined exactly when no entry has that name; otherwise it is that entry's address list |
| Interfaces.StartsWithEth | guessmac.js:46 | definition of `ifaceName.startsWith("eth")`; properties in Interfaces.GuessWiredInterface |
| Interfaces.GuessWiredInterface | guessmac.js:44-51 | returns the first name in table order that starts with `eth`, and null exactly when no name does |
| Interfaces.ScanAddresses | guessmac.js:60-65 | returns the MAC of the first non-internal address with a string MAC in list order, and nothing exactly when there is no such address |
| Interfaces.ScanTable | guessmac.js:67-75 | returns the first qualifying MAC, interfaces in table order and addresses in list order; returns nothing exactly when no address in the table qualifies |
| Interfaces.NoneQualifies | guessmac.js:67-75 | the whole-table scan finds nothing exactly when no address anywhere qualifies |
| Interfaces.TableMac | guessmac.js:56-75 | the table stage returns the MAC of a qualifying address of the table, and nothing exactly when no address qualifies |
| DefaultRoute.ParseRouteOutput | guessmac.js:31-39 | the line loop returns the capture from the first line of the output where the route pattern matches |
| DefaultRoute.RouteNameShape | guessmac.js:35-36 | a name from the route listing is non-empty and holds no whitespace |
| DefaultRoute.NoRouteNameIffNoMatch | guessmac.js:39 | the result is null exactly when the pattern matches on no line |
| DefaultRoute.GuessDefaultRouteIface | guessmac.js:17-42 | on any platform other than "linux" the result is no name; on "linux" an error from the route listing is passed on, and otherwise the result is the first-line capture of its output |
| LinkScan.InnerCommand | guessmac.js:78-82 | with no preferred name the command is exactly `ip -o link show \| grep -v link\/loopback`; with a name it is the listing scoped to `dev <name>`, with the unscoped listing as its `\|\|` alternative |
| LinkScan.LinkCommand | guessmac.js:83 | the command is `sh -c '` + … + `'`, the text between the quotes un-escapes to exactly the inner command, and every quote inside is preceded by a backslash |
| LinkScan.WrappedEscape | guessmac.js:83 | wrapping any escaped string in `sh -c '…'` keeps the prefix, the closing quote and the un-escaping back to the original |
| LinkScan.BuildLinkCommand | guessmac.js:78-83 | building the command by reassigning `cmd` step by step yields the command above |
| LinkScan.LinkResult | guessmac.js:89-97 | the parse returns a MAC of six hex octets taken from the first line where `MAC_RE` matches; otherwise it fails with the not-found error, and then no line matches |
| LinkScan.ParseLinkOutput | guessmac.js:89-97 | the line loop over the output computes that result |
| LinkScan.NoMacLine | guessmac.js:97 | when no line matches `MAC_RE` the result is the not-found error |
| LinkScan.OneLineOutput | guessmac.js:90-95 | an output with no newline yields the MAC of its one line |
| LinkScan.NoMacMatchInPrefix | guessmac.js:10 | no match of `MAC_RE` starts inside text that holds no `link/` and is followed by `l` |
| LinkScan.LeftmostMacMatch | guessmac.js:92-94 | a match that no other match starts before is the one whose capture exec reports |
| LinkScan.LinkLineMatch | guessmac.js:10 | `link/<type> <mac>` after a head ending in a non-word character is a match of `MAC_RE` starting after the head, and its capture is the MAC |
| LinkScan.LinkLineMac | guessmac.js:10 | a line `<head>link/<type> <mac>…` yields exactly that MAC. Here the head holds no `link/` and ends in a non-word character or is empty, as the `<index>: <name>: <flags> …\` head of an `ip -o` line does; the type has no whitespace; the MAC is followed by a non-word character or nothing |
| LinkScan.LinkLineOutput | guessmac.js:89-97 | an output that is one such line, head included, yields its MAC |
| LinkScan.EthernetLineMac | guessmac.js:10 | on the whole `ip -o link show` line `2: eth0: <BROADCAST,MULTICAST,UP,LOWER_UP> mtu 1500 … qlen 1000\    link/ether 00:11:22:33:44:55 brd ff:ff:ff:ff:ff:ff` the MAC is `00:11:22:33:44:55`, not the broadcast address |
| GuessMac.Pipeline | guessmac.js:53-102 | with some qualifying address in the table, the result is the MAC of one; with none, the result is the fallback's (the error from `exec`, or the parse result) and any MAC is six hex octets |
| GuessMac.GuessMac | guessmac.js:53-102 | the sequential composition of the scans, the command build, the run and the parse computes the pipeline result |
| GuessMac.GuessMacExported | guessmac.js:104 | the exported function is `guessMac` with the hint from `guessWiredInterface`; the hint comes from one read of the interface table and the table stage uses a second read, which may differ |
| GuessMac.PreferredInterfaceWins | guessmac.js:58-65 | when the hint names an interface with a qualifying address, the result is the MAC of its first such address, even if an earlier interface qualifies |
| GuessMac.FirstInTableOrder | guessmac.js:67-75 | when the hint yields nothing, the result is the MAC of the first qualifying address, interfaces in table order and addresses in list order |
| GuessMac.TableHitSkipsFallback | guessmac.js:56-76 | when any address qualifies, the result does not depend on what running the fallback command would yield |
| GuessMac.ExecFailureIsResult | guessmac.js:84-88 | with nothing in the table, an error from running the fallback command is the result |
| GuessMac.NoMacLineIsNotFound | guessmac.js:97 | with nothing in the table and no matching line, the result is the error whose message is "MAC address not found" |
| GuessMac.FallbackLinkLine | guessmac.js:89-97 | with nothing in the table and a one-line fallback output `<head>link/<type> <mac>…` as above, the result is that MAC with its case kept |

## Left out

- `child_process.exec`, its 5000 ms timeouts and the `|| true` of the route command are not modelled. Running a command is a parameter that yields the output or an error, so a timeout is one such error.
- The `async.waterfall` / `async.apply` wiring is not modelled. It becomes sequential calls. `guessMac` is modelled once its hint is known. Only the hint source the exported function uses (`guessWiredInterface`) is wired in, and it cannot fail.
- `os.networkInterfaces()` and `process.platform` are not modelled. They are parameters: an ordered table and a platform string.
- The order of `for … in` over the table object is not modelled: the table's order is given explicitly. V8 puts integer-like keys first; that is not reproduced.
- Interfaces.Lookup: duplicate names cannot occur in a JavaScript object, so the model takes the first entry with the name. Prototype properties such as `constructor` are not modelled as table keys.
- Interfaces.QualifyingMac: a `mac` that is not a string is one value (None). `internal` is a boolean, so `=== false` is `!internal`. String objects, which `_.isString` also accepts, are not distinguished.
- No claim is made that the quoting is safe against shell injection. POSIX `sh` does not treat `\'` as an escape inside single quotes, so only the string transformation is stated.
- `underscore` and `util.format` are not modelled as library calls. They become a "value is a string" check and string concatenation.
- Strings are sequences of Unicode scalar values, not UTF-16 code units. Every character that `\s`, `\w`, `\b` and the hex class test lies in the Basic Multilingual Plane, so the patterns behave the same.
- `stdout.toString()` is not modelled: standard output is already a string.
