/**
 * Start-up configuration of the backup scheduler: the loaded `schedule.default`
 * and `database` values, their normalisation into an ordered list of timer
 * registrations, and the fatal configuration errors in the order the script
 * raises them.
 *
 * `cron.validate` is a foreign library call; it is the parameter `isValid`.
 */
module Config {
  import opened Wrappers

  /**
   * One element of the `database` list as the YAML loader yields it. A key
   * that is absent is `None`; JavaScript falsiness still applies to the
   * values that are present (an empty schedule string, a history of 0).
   */
  datatype Entry = Entry(name: string, schedule: Option<string>, history: Option<int>)

  /** The `database` key: falsy (absent, null, false, 0, ""), an array, or a bare object. */
  datatype DatabaseField =
    | Falsy
    | List(entries: seq<Entry>)
    | Single(entry: Entry)

  /** The `databasehost` mapping: where the remote instances live and the credentials for them. */
  datatype DatabaseHost = DatabaseHost(host: string, username: string, password: string)

  /** The loaded configuration; `defaultSchedule` is `None` when `schedule.default` is absent. */
  datatype Config = Config(defaultSchedule: Option<string>, database: DatabaseField, databaseHost: DatabaseHost)

  /** The three errors the script throws while reading its configuration. */
  datatype ConfigError =
    | DefaultScheduleInvalid
    | NoDatabases
    | ScheduleInvalid(database: string)

  /** One `cron.schedule` call: the expression and the arguments bound to the backup task. */
  datatype Registration = Registration(schedule: string, database: string, history: int)

  /** What start-up leaves behind: the registrations made, in order, and the error thrown, if any. */
  datatype Startup = Startup(registered: seq<Registration>, error: Option<ConfigError>)

  /** The text of the `Error` each configuration error is thrown with. */
  function Message(e: ConfigError): string {
    match e
    case DefaultScheduleInvalid => "Default schedule not valid."
    case NoDatabases => "No databases defined in config"
    case ScheduleInvalid(name) => "Schedule not valid for database " + name
  }

  /** `cron.validate` applied to a possibly absent value: the library rejects anything that is not a string. */
  predicate CronValid(schedule: Option<string>, isValid: string -> bool) {
    schedule.Some? && isValid(schedule.value)
  }

  /** The normalised database list (app.js:21): none for a falsy value, an array as it is, a bare object as a list of one. */
  function DatabaseList(d: DatabaseField): seq<Entry> {
    match d
    case Falsy => []
    case List(entries) => entries
    case Single(entry) => [entry]
  }

  /** The schedule an entry runs on (app.js:27): an absent or empty schedule inherits the default. */
  function EffectiveSchedule(e: Entry, default: string): string {
    if e.schedule.Some? && e.schedule.value != "" then e.schedule.value else default
  }

  /** The history an entry keeps (app.js:28): an absent history is 0; any other number, negative ones too, is kept. */
  function EffectiveHistory(e: Entry): int {
    if e.history.Some? && e.history.value != 0 then e.history.value else 0
  }

  /** The registration the loop makes for `e` once its schedule has passed validation. */
  function Bind(e: Entry, default: string): Registration {
    Registration(EffectiveSchedule(e, default), e.name, EffectiveHistory(e))
  }

  /** The registrations for every entry of `list`, in list order. */
  function Binds(list: seq<Entry>, default: string): (rs: seq<Registration>)
    ensures |rs| == |list|
  {
    seq(|list|, i requires 0 <= i < |list| => Bind(list[i], default))
  }

  /**
   * The `forEach` over the database list: each entry is validated and then
   * registered; the first entry whose effective schedule is invalid throws,
   * after every earlier entry has been registered.
   */
  function RegisterEach(list: seq<Entry>, default: string, isValid: string -> bool): (r: Startup)
    decreases |list|
  {
    if list == [] then Startup([], None)
    else if !isValid(EffectiveSchedule(list[0], default)) then
      Startup([], Some(ScheduleInvalid(list[0].name)))
    else
      var rest := RegisterEach(list[1..], default, isValid);
      Startup([Bind(list[0], default)] + rest.registered, rest.error)
  }

  /** The whole of start-up: the default is checked, then the list is normalised and checked, then the loop runs. */
  function Load(cfg: Config, isValid: string -> bool): Startup {
    if !CronValid(cfg.defaultSchedule, isValid) then Startup([], Some(DefaultScheduleInvalid))
    else
      var list := DatabaseList(cfg.database);
      if |list| == 0 then Startup([], Some(NoDatabases))
      else RegisterEach(list, cfg.defaultSchedule.value, isValid)
  }

  /** The three error messages are distinct, and the third names its database, so a message identifies its error. */
  lemma MessageIdentifiesError(e1: ConfigError, e2: ConfigError)
    requires Message(e1) == Message(e2)
    ensures e1 == e2
  {
    if e1.ScheduleInvalid? && e2.ScheduleInvalid? {
      var prefix := "Schedule not valid for database ";
      assert e1.database == (prefix + e1.database)[|prefix|..];
      assert e2.database == (prefix + e2.database)[|prefix|..];
    }
  }

  /** Both falsy forms of a schedule inherit the default; a non-empty schedule is kept as written. */
  lemma ScheduleInheritance(e: Entry, default: string)
    ensures e.schedule == None || e.schedule == Some("") ==> EffectiveSchedule(e, default) == default
    ensures e.schedule.Some? && e.schedule.value != "" ==> EffectiveSchedule(e, default) == e.schedule.value
  {
  }

  /** An absent history and a history of 0 both give 0; every other value, negative included, is kept. */
  lemma HistoryDefault(e: Entry)
    ensures EffectiveHistory(e) == e.history.GetOr(0)
    ensures e.history.Some? && e.history.value < 0 ==> EffectiveHistory(e) < 0
  {
  }

  /**
   * `RegisterEach` registers exactly the entries before the first invalid one,
   * in order and each with its effective schedule, name and history; it fails
   * precisely when some entry is invalid, naming the first such entry.
   */
  lemma {:induction false} RegisterEachFirstInvalid(list: seq<Entry>, default: string, isValid: string -> bool)
    ensures var r := RegisterEach(list, default, isValid);
      var k := |r.registered|;
      && k <= |list|
      && r.registered == Binds(list[..k], default)
      && (forall i :: 0 <= i < k ==> isValid(EffectiveSchedule(list[i], default)))
      && (r.error == None <==> k == |list|)
      && (k < |list| ==> !isValid(EffectiveSchedule(list[k], default)) && r.error == Some(ScheduleInvalid(list[k].name)))
    decreases |list|
  {
    if list != [] && isValid(EffectiveSchedule(list[0], default)) {
      var rest := RegisterEach(list[1..], default, isValid);
      RegisterEachFirstInvalid(list[1..], default, isValid);
      var k := |rest.registered|;
      assert list[1..][..k] == list[1..k + 1];
      assert list[..k + 1] == [list[0]] + list[1..k + 1];
      forall i | 0 <= i < k + 1
        ensures isValid(EffectiveSchedule(list[i], default))
      {
        if i > 0 { assert list[i] == list[1..][i - 1]; }
      }
    }
  }

  /** Registering a list whose first `i` entries are valid registers those `i` and then carries on with the rest. */
  lemma {:induction false} RegisterEachSplit(list: seq<Entry>, i: nat, default: string, isValid: string -> bool)
    requires i <= |list|
    requires forall j :: 0 <= j < i ==> isValid(EffectiveSchedule(list[j], default))
    ensures var r := RegisterEach(list, default, isValid);
      var tail := RegisterEach(list[i..], default, isValid);
      r.registered == Binds(list[..i], default) + tail.registered && r.error == tail.error
    decreases i
  {
    if i > 0 {
      assert isValid(EffectiveSchedule(list[0], default));
      forall j | 0 <= j < i - 1
        ensures isValid(EffectiveSchedule(list[1..][j], default))
      {
        assert list[1..][j] == list[j + 1];
      }
      RegisterEachSplit(list[1..], i - 1, default, isValid);
      assert list[1..][i - 1..] == list[i..];
      assert Binds(list[..i], default) == [Bind(list[0], default)] + Binds(list[1..][..i - 1], default);
    }
  }

  /** An invalid default is thrown before the database list is looked at: no registration, whatever the list. */
  lemma DefaultCheckedFirst(cfg: Config, isValid: string -> bool)
    requires !CronValid(cfg.defaultSchedule, isValid)
    ensures Load(cfg, isValid) == Startup([], Some(DefaultScheduleInvalid))
    ensures forall d :: Load(cfg.(database := d), isValid) == Load(cfg, isValid)
  {
  }

  /** With a valid default, a falsy `database` or an empty array is rejected before any entry is registered. */
  lemma EmptyListRejected(cfg: Config, isValid: string -> bool)
    requires CronValid(cfg.defaultSchedule, isValid)
    ensures DatabaseList(cfg.database) == [] <==> Load(cfg, isValid) == Startup([], Some(NoDatabases))
  {
    if DatabaseList(cfg.database) != [] {
      var list := DatabaseList(cfg.database);
      RegisterEachFirstInvalid(list, cfg.defaultSchedule.value, isValid);
    }
  }

  /** A bare database object and the same object wrapped in a one-element array start up identically. */
  lemma SingleSameAsSingleton(cfg: Config, e: Entry, isValid: string -> bool)
    ensures Load(cfg.(database := Single(e)), isValid) == Load(cfg.(database := List([e])), isValid)
  {
  }

  /**
   * Start-up either registers every listed entry, in order, and throws
   * nothing, or throws the first error in the fixed order: invalid default,
   * then no databases, then the first entry with an invalid schedule, with
   * every entry before that one already registered.
   */
  lemma {:induction false} LoadOutcome(cfg: Config, isValid: string -> bool)
    ensures var r := Load(cfg, isValid);
      var list := DatabaseList(cfg.database);
      && (!CronValid(cfg.defaultSchedule, isValid) ==> r == Startup([], Some(DefaultScheduleInvalid)))
      && (CronValid(cfg.defaultSchedule, isValid) && list == [] ==> r == Startup([], Some(NoDatabases)))
      && (CronValid(cfg.defaultSchedule, isValid) && list != [] ==>
            var k := |r.registered|;
            && k <= |list|
            && r.registered == Binds(list[..k], cfg.defaultSchedule.value)
            && (forall i :: 0 <= i < k ==> isValid(EffectiveSchedule(list[i], cfg.defaultSchedule.value)))
            && (r.error == None <==> k == |list|)
            && (k < |list| ==> r.error == Some(ScheduleInvalid(list[k].name))
                               && !isValid(EffectiveSchedule(list[k], cfg.defaultSchedule.value))))
      && (r.error == None ==> |r.registered| == |list| > 0)
  {
    if CronValid(cfg.defaultSchedule, isValid) && DatabaseList(cfg.database) != [] {
      RegisterEachFirstInvalid(DatabaseList(cfg.database), cfg.defaultSchedule.value, isValid);
    }
  }
}
