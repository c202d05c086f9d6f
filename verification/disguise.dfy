/**
 * The app's disguise switch (`MainActivity`, once under the `id.nhasix.app`
 * package and once under `com.example.nhasixapp`): launcher aliases are
 * enabled and disabled through the package manager, and the current mode is
 * read back from their states. The package manager is a map from component
 * name to its explicit setting; a component never set reads as DEFAULT. Each
 * `setComponentEnabledSetting` or `getComponentEnabledSetting` that throws
 * is caught and skipped, which the `fails` oracles model.
 */
module Disguise {
  import opened Wrappers
  import opened Channel

  const ChannelName: string := "app_disguise"
  const IdPrefix: string := "id.nhasix.app"
  const ExamplePrefix: string := "com.example.nhasixapp"

  /** `PackageManager.COMPONENT_ENABLED_STATE_*`. */
  const StateDefault: int := 0
  const StateEnabled: int := 1
  const StateDisabled: int := 2

  const DefaultMode: string := "default"

  datatype Alias = Calculator | Notes | Weather

  /** The order in which both functions walk the aliases. */
  const Aliases: seq<Alias> := [Calculator, Notes, Weather]

  function AliasClass(a: Alias): string {
    match a
    case Calculator => "CalculatorActivity"
    case Notes => "NotesActivity"
    case Weather => "WeatherActivity"
  }

  function AliasMode(a: Alias): string {
    match a
    case Calculator => "calculator"
    case Notes => "notes"
    case Weather => "weather"
  }

  /** The `when (mode)` of `setAppDisguise`: the alias a mode selects, if any. */
  function ModeAlias(mode: string): (r: Option<Alias>)
    ensures r.None? ==> forall a: Alias :: AliasMode(a) != mode
    ensures r.Some? ==> AliasMode(r.value) == mode
  {
    if mode == "calculator" then Some(Calculator)
    else if mode == "notes" then Some(Notes)
    else if mode == "weather" then Some(Weather)
    else None
  }

  /** `ComponentName(packageName, "<prefix>.<class>")`, by its class name. */
  function Component(prefix: string, cls: string): string {
    prefix + "." + cls
  }

  function AliasComponent(prefix: string, a: Alias): string {
    Component(prefix, AliasClass(a))
  }

  function MainComponent(prefix: string): string {
    Component(prefix, "MainActivity")
  }

  /** Explicit component settings; absent components are in their manifest default. */
  type PackageSettings = map<string, int>

  function StateOf(pm: PackageSettings, c: string): int {
    if c in pm then pm[c] else StateDefault
  }

  /**
   * One `setComponentEnabledSetting(c, s)` inside its own `try`; `fails` says
   * which calls throw, each call on its own.
   */
  function SetState(pm: PackageSettings, c: string, s: int, fails: (string, int) -> bool): (r: PackageSettings)
    ensures forall q :: q != c ==> StateOf(r, q) == StateOf(pm, q)
    ensures !fails(c, s) ==> StateOf(r, c) == s
    ensures fails(c, s) ==> r == pm
  {
    if fails(c, s) then pm else pm[c := s]
  }

  /** No `setComponentEnabledSetting` call of `setAppDisguise` throws. */
  predicate SetsSucceed(prefix: string, fails: (string, int) -> bool) {
    && (forall a: Alias :: !fails(AliasComponent(prefix, a), StateDisabled) && !fails(AliasComponent(prefix, a), StateEnabled))
    && !fails(MainComponent(prefix), StateDisabled) && !fails(MainComponent(prefix), StateEnabled)
  }

  /** The first loop of `setAppDisguise`: disable the aliases from index `k` on. */
  function DisableAliases(prefix: string, pm: PackageSettings, k: nat, fails: (string, int) -> bool): (r: PackageSettings)
    requires k <= |Aliases|
    decreases |Aliases| - k
    ensures forall q :: (forall j :: k <= j < |Aliases| ==> q != AliasComponent(prefix, Aliases[j])) ==> StateOf(r, q) == StateOf(pm, q)
  {
    if k == |Aliases| then pm
    else DisableAliases(prefix, SetState(pm, AliasComponent(prefix, Aliases[k]), StateDisabled, fails), k + 1, fails)
  }

  /** `setAppDisguise(mode)`. */
  function SetAppDisguise(prefix: string, pm: PackageSettings, mode: string, fails: (string, int) -> bool): (r: PackageSettings)
  {
    var cleared := DisableAliases(prefix, pm, 0, fails);
    match ModeAlias(mode)
    case Some(a) =>
      SetState(SetState(cleared, MainComponent(prefix), StateDisabled, fails), AliasComponent(prefix, a), StateEnabled, fails)
    case None => SetState(cleared, MainComponent(prefix), StateEnabled, fails)
  }

  /**
   * Each call succeeds or throws on its own: when the selected alias's disable
   * throws but its enable does not, the alias still ends ENABLED.
   */
  lemma EnableSurvivesFailedDisable(prefix: string, pm: PackageSettings, a: Alias, fails: (string, int) -> bool)
    requires fails(AliasComponent(prefix, a), StateDisabled) && !fails(AliasComponent(prefix, a), StateEnabled)
    ensures StateOf(SetAppDisguise(prefix, pm, AliasMode(a), fails), AliasComponent(prefix, a)) == StateEnabled
  {
    assert ModeAlias(AliasMode(a)) == Some(a);
  }

  /** The alias loop of `getCurrentDisguise`, from index `k`: the first alias read as ENABLED names the mode. */
  function FirstEnabled(prefix: string, pm: PackageSettings, k: nat, readFails: string -> bool): (mode: string)
    requires k <= |Aliases|
    decreases |Aliases| - k
    ensures mode == DefaultMode || exists j :: k <= j < |Aliases| && mode == AliasMode(Aliases[j])
  {
    if k == |Aliases| then DefaultMode
    else
      var c := AliasComponent(prefix, Aliases[k]);
      if !readFails(c) && StateOf(pm, c) == StateEnabled then AliasMode(Aliases[k])
      else FirstEnabled(prefix, pm, k + 1, readFails)
  }

  /** `getCurrentDisguise` under `id.nhasix.app`. */
  function GetCurrentDisguise(prefix: string, pm: PackageSettings, readFails: string -> bool): string {
    FirstEnabled(prefix, pm, 0, readFails)
  }

  /** `getCurrentDisguise` under `com.example.nhasixapp`: after the aliases it also reads the main activity. */
  function GetCurrentDisguiseCheckingMain(prefix: string, pm: PackageSettings, readFails: string -> bool): string {
    var m := FirstEnabled(prefix, pm, 0, readFails);
    if m != DefaultMode then m
    else if !readFails(MainComponent(prefix)) && StateOf(pm, MainComponent(prefix)) == StateEnabled then DefaultMode
    else DefaultMode
  }

  datatype Reply = Success(text: string) | Error(code: string) | NotImplemented

  datatype Outcome = Outcome(settings: PackageSettings, reply: Reply)

  /** The `app_disguise` handler; `checksMain` selects the `com.example.nhasixapp` reading of the mode. */
  function HandleCall(prefix: string, checksMain: bool, pm: PackageSettings, name: string, args: Args,
                      fails: (string, int) -> bool, readFails: string -> bool): (out: Outcome)
    ensures name !in {"setDisguiseMode", "getCurrentDisguiseMode"} ==> out == Outcome(pm, NotImplemented)
    ensures name == "setDisguiseMode" && ArgString(args, "mode").None? ==> out == Outcome(pm, Error("INVALID_MODE"))
    ensures name == "getCurrentDisguiseMode" ==> out.settings == pm && out.reply.Success?
  {
    if name == "setDisguiseMode" then
      match ArgString(args, "mode")
      case None => Outcome(pm, Error("INVALID_MODE"))
      case Some(mode) => Outcome(SetAppDisguise(prefix, pm, mode, fails), Success("Mode set to: " + mode))
    else if name == "getCurrentDisguiseMode" then
      Outcome(pm, Success(if checksMain then GetCurrentDisguiseCheckingMain(prefix, pm, readFails)
                          else GetCurrentDisguise(prefix, pm, readFails)))
    else Outcome(pm, NotImplemented)
  }

  // ---------------------------------------------------------------------
  // properties

  /** The four components of one package are distinct. */
  lemma ComponentsDistinct(prefix: string, a: Alias, b: Alias)
    ensures AliasComponent(prefix, a) == AliasComponent(prefix, b) <==> a == b
    ensures AliasComponent(prefix, a) != MainComponent(prefix)
  {
    var n := |prefix| + 1;
    assert AliasComponent(prefix, a)[n..] == AliasClass(a);
    assert AliasComponent(prefix, b)[n..] == AliasClass(b);
    assert MainComponent(prefix)[n..] == "MainActivity";
  }

  /** With no failing call, the first loop leaves every alias DISABLED. */
  lemma {:induction false} DisableAliasesAll(prefix: string, pm: PackageSettings, k: nat, fails: (string, int) -> bool)
    requires k <= |Aliases|
    requires SetsSucceed(prefix, fails)
    decreases |Aliases| - k
    ensures forall j :: k <= j < |Aliases| ==> StateOf(DisableAliases(prefix, pm, k, fails), AliasComponent(prefix, Aliases[j])) == StateDisabled
  {
    if k < |Aliases| {
      var c := AliasComponent(prefix, Aliases[k]);
      var pm' := SetState(pm, c, StateDisabled, fails);
      DisableAliasesAll(prefix, pm', k + 1, fails);
      forall j | k < j < |Aliases| ensures c != AliasComponent(prefix, Aliases[j]) {
        ComponentsDistinct(prefix, Aliases[k], Aliases[j]);
      }
    }
  }

  /** With no failing call, the selected alias alone is ENABLED and main is ENABLED exactly in the default mode; nothing else changes. */
  lemma SetAppDisguiseStates(prefix: string, pm: PackageSettings, mode: string, fails: (string, int) -> bool)
    requires SetsSucceed(prefix, fails)
    ensures var r := SetAppDisguise(prefix, pm, mode, fails);
      && (forall a: Alias :: StateOf(r, AliasComponent(prefix, a)) == (if ModeAlias(mode) == Some(a) then StateEnabled else StateDisabled))
      && StateOf(r, MainComponent(prefix)) == (if ModeAlias(mode).Some? then StateDisabled else StateEnabled)
      && (forall q :: q != MainComponent(prefix) && (forall a: Alias :: q != AliasComponent(prefix, a)) ==> StateOf(r, q) == StateOf(pm, q))
  {
    var cleared := DisableAliases(prefix, pm, 0, fails);
    DisableAliasesAll(prefix, pm, 0, fails);
    forall a: Alias ensures StateOf(cleared, AliasComponent(prefix, a)) == StateDisabled {
      var j := if a == Calculator then 0 else if a == Notes then 1 else 2;
      assert Aliases[j] == a;
    }
    forall a: Alias ensures AliasComponent(prefix, a) != MainComponent(prefix) {
      ComponentsDistinct(prefix, a, a);
    }
    forall a: Alias, b: Alias | a != b ensures AliasComponent(prefix, a) != AliasComponent(prefix, b) {
      ComponentsDistinct(prefix, a, b);
    }
    forall q | (forall a: Alias :: q != AliasComponent(prefix, a)) ensures StateOf(cleared, q) == StateOf(pm, q) {
      forall j | 0 <= j < |Aliases| ensures q != AliasComponent(prefix, Aliases[j]) {
      }
    }
  }

  /** With no failing call, at most one alias is ENABLED after any mode is set. */
  lemma AtMostOneAlias(prefix: string, pm: PackageSettings, mode: string, fails: (string, int) -> bool, a: Alias, b: Alias)
    requires SetsSucceed(prefix, fails)
    requires StateOf(SetAppDisguise(prefix, pm, mode, fails), AliasComponent(prefix, a)) == StateEnabled
    requires StateOf(SetAppDisguise(prefix, pm, mode, fails), AliasComponent(prefix, b)) == StateEnabled
    ensures a == b
  {
    SetAppDisguiseStates(prefix, pm, mode, fails);
  }

  /** The first loop of the reader returns the mode of the first alias it reads as ENABLED. */
  lemma FirstEnabledPicks(prefix: string, pm: PackageSettings, readFails: string -> bool, a: Alias)
    requires forall b: Alias :: !readFails(AliasComponent(prefix, b))
    requires StateOf(pm, AliasComponent(prefix, a)) == StateEnabled
    requires forall b: Alias :: b != a ==> StateOf(pm, AliasComponent(prefix, b)) != StateEnabled
    ensures GetCurrentDisguise(prefix, pm, readFails) == AliasMode(a)
  {
  }

  /** No alias read as ENABLED reads as the default mode. */
  lemma NoneEnabledIsDefault(prefix: string, pm: PackageSettings, readFails: string -> bool)
    requires forall b: Alias :: StateOf(pm, AliasComponent(prefix, b)) != StateEnabled
    ensures GetCurrentDisguise(prefix, pm, readFails) == DefaultMode
  {
  }

  /** Reading back after setting gives the mode for the three disguises and "default" for anything else. */
  lemma SetGetRoundTrip(prefix: string, pm: PackageSettings, mode: string, fails: (string, int) -> bool, readFails: string -> bool)
    requires SetsSucceed(prefix, fails) && forall a: Alias :: !readFails(AliasComponent(prefix, a))
    ensures GetCurrentDisguise(prefix, SetAppDisguise(prefix, pm, mode, fails), readFails)
      == (if ModeAlias(mode).Some? then mode else DefaultMode)
  {
    var r := SetAppDisguise(prefix, pm, mode, fails);
    SetAppDisguiseStates(prefix, pm, mode, fails);
    match ModeAlias(mode)
    case Some(a) => FirstEnabledPicks(prefix, r, readFails, a);
    case None => NoneEnabledIsDefault(prefix, r, readFails);
  }

  /** The extra main-activity check under `com.example.nhasixapp` never changes the answer. */
  lemma MainCheckIrrelevant(prefix: string, pm: PackageSettings, readFails: string -> bool)
    ensures GetCurrentDisguiseCheckingMain(prefix, pm, readFails) == GetCurrentDisguise(prefix, pm, readFails)
  {
  }

  /** Both handlers answer a set with the mode and a get with what was set, for either package. */
  lemma HandlerRoundTrip(prefix: string, checksMain: bool, pm: PackageSettings, mode: string, args: Args,
                         fails: (string, int) -> bool, readFails: string -> bool)
    requires ArgString(args, "mode") == Some(mode)
    requires SetsSucceed(prefix, fails) && forall a: Alias :: !readFails(AliasComponent(prefix, a))
    ensures var setCall := HandleCall(prefix, checksMain, pm, "setDisguiseMode", args, fails, readFails);
      && setCall.reply == Success("Mode set to: " + mode)
      && HandleCall(prefix, checksMain, setCall.settings, "getCurrentDisguiseMode", args, fails, readFails).reply
           == Success(if ModeAlias(mode).Some? then mode else DefaultMode)
  {
    var setCall := HandleCall(prefix, checksMain, pm, "setDisguiseMode", args, fails, readFails);
    SetGetRoundTrip(prefix, pm, mode, fails, readFails);
    MainCheckIrrelevant(prefix, setCall.settings, readFails);
  }
}
