/**
 * The timer registry that start-up fills: `cron.schedule` records a
 * registration, and the top-level loop registers entry after entry until one
 * fails validation.
 */
module Scheduler {
  import opened Wrappers
  import opened Config

  /** node-cron's process-wide set of scheduled tasks, seen as the sequence of calls made to it. */
  class CronRegistry {
    var tasks: seq<Registration>

    constructor ()
      ensures tasks == []
    {
      tasks := [];
    }

    /** One registration (app.js:33): a timer on the schedule, bound to the database and its history. */
    method Schedule(r: Registration)
      modifies this
      ensures tasks == old(tasks) + [r]
    {
      tasks := tasks + [r];
    }
  }

  /**
   * Lines 15-34 of the script: validate the default, normalise the database
   * list, then register each entry after validating its effective schedule.
   * A thrown error is returned; the registrations made before it stay.
   */
  method Configure(cfg: Config, isValid: string -> bool, cron: CronRegistry) returns (err: Option<ConfigError>)
    modifies cron
    ensures cron.tasks == old(cron.tasks) + Load(cfg, isValid).registered
    ensures err == Load(cfg, isValid).error
  {
    if !CronValid(cfg.defaultSchedule, isValid) {
      return Some(DefaultScheduleInvalid);
    }
    var default := cfg.defaultSchedule.value;
    var list := DatabaseList(cfg.database);
    if |list| == 0 {
      return Some(NoDatabases);
    }
    var i := 0;
    while i < |list|
      invariant 0 <= i <= |list|
      invariant cron.tasks == old(cron.tasks) + Binds(list[..i], default)
      invariant forall j :: 0 <= j < i ==> isValid(EffectiveSchedule(list[j], default))
    {
      var entry := list[i];
      var schedule := EffectiveSchedule(entry, default);
      var history := EffectiveHistory(entry);
      if !isValid(schedule) {
        RegisterEachSplit(list, i, default, isValid);
        return Some(ScheduleInvalid(entry.name));
      }
      cron.Schedule(Registration(schedule, entry.name, history));
      assert Binds(list[..i + 1], default) == Binds(list[..i], default) + [Bind(entry, default)];
      i := i + 1;
    }
    RegisterEachSplit(list, i, default, isValid);
    assert list[..i] == list;
    return None;
  }
}
