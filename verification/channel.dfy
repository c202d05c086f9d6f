/**
 * Arguments of a Flutter method call as the Android side reads them with
 * `call.argument<T>(key)`. A value of another type than the one asked for
 * reads as absent.
 */
module Channel {
  import opened Wrappers
  import Cookies

  /** A method-call argument, as the platform channel delivers it. */
  datatype Arg = StrArg(s: string) | ListArg(l: seq<string>) | MapArg(m: Cookies.Pairs) | BoolArg(b: bool) | IntArg(i: int)

  type Args = map<string, Arg>

  /** `call.argument<String>(key)`: null when absent or not a string. */
  function ArgString(args: Args, key: string): (r: Option<string>)
    ensures r.Some? <==> key in args && args[key].StrArg?
  {
    if key in args && args[key].StrArg? then Some(args[key].s) else None
  }

  function ArgList(args: Args, key: string): Option<seq<string>> {
    if key in args && args[key].ListArg? then Some(args[key].l) else None
  }

  function ArgMap(args: Args, key: string): Option<Cookies.Pairs> {
    if key in args && args[key].MapArg? then Some(args[key].m) else None
  }

  function ArgBool(args: Args, key: string): Option<bool> {
    if key in args && args[key].BoolArg? then Some(args[key].b) else None
  }

  function ArgInt(args: Args, key: string): Option<int> {
    if key in args && args[key].IntArg? then Some(args[key].i) else None
  }
}
