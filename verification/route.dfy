/**
 * `guessDefaultRouteIface`: on Linux, the name after `dev` on the first line
 * of the default-route listing that mentions one; elsewhere, no name.
 */
module DefaultRoute {
  import opened Wrappers
  import opened JsText
  import opened Scan
  import opened Patterns
  import opened Exec

  const RouteCommand: string := "ip route list | grep ^default || true"

  /** The line loop over the route listing. */
  method ParseRouteOutput(stdout: string) returns (name: Option<string>)
    ensures name == FirstSome(SplitLines(stdout), DevCapture)
  {
    var lines := SplitLines(stdout);
    var i := 0;
    while i < |lines|
      invariant 0 <= i <= |lines|
      invariant forall k | 0 <= k < i :: DevCapture(lines[k]).None?
    {
      var name := DevCapture(lines[i]);
      if name.Some? {
        FirstSomeAt(lines, DevCapture, i);
        return name;
      }
      i := i + 1;
    }
    return None;
  }

  /** A name from the route listing is non-empty and holds no whitespace. */
  lemma RouteNameShape(stdout: string)
    ensures var name := FirstSome(SplitLines(stdout), DevCapture);
      name.Some? ==> |name.value| > 0 && forall i | 0 <= i < |name.value| :: !IsSpace(name.value[i])
  {
    var lines := SplitLines(stdout);
    if FirstSome(lines, DevCapture).Some? {
      var i :| 0 <= i < |lines| && DevCapture(lines[i]) == FirstSome(lines, DevCapture);
    }
  }

  /** The route listing yields no name exactly when DEFAULT_IFACE_NAME_RE
      matches on none of its lines. */
  lemma NoRouteNameIffNoMatch(stdout: string)
    ensures var lines := SplitLines(stdout);
      FirstSome(lines, DevCapture).None? <==> forall i, o | 0 <= i < |lines| :: !IsDevMatch(lines[i], o)
  {
    var lines := SplitLines(stdout);
    forall i | 0 <= i < |lines|
      ensures DevCapture(lines[i]).None? <==> forall o :: !IsDevMatch(lines[i], o)
    {
    }
  }

  /** The whole function: on "linux" the route listing is run and an error
      from it is passed on to the callback; on any other platform the
      listing is taken to be empty, which yields no name. */
  method GuessDefaultRouteIface(platform: string, run: Runner) returns (r: Result<Option<string>, string>)
    ensures platform != "linux" ==> r == Ok(None)
    ensures platform == "linux" && run(RouteCommand).Failed? ==> r == Err(run(RouteCommand).reason)
    ensures platform == "linux" && run(RouteCommand).Completed? ==>
              r == Ok(FirstSome(SplitLines(run(RouteCommand).stdout), DevCapture))
  {
    var stdout: string;
    if platform == "linux" {
      match run(RouteCommand) {
        case Failed(reason) => return Err(reason);
        case Completed(out) => stdout := out;
      }
    } else {
      stdout := "";
    }
    var name := ParseRouteOutput(stdout);
    return Ok(name);
  }
}
