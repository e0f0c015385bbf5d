/** A managed client's send cadence (crates/irtt-client/src/managed/schedule.rs, and the one caller
    that turns it into sends, managed/task/pacing.rs). */
module Schedule {
  import opened Prelude

  type Instant = nat

  const NANOS_PER_SECOND: nat := 1_000_000_000

  datatype ScheduleError = DurationUnschedulable | IntervalZero | DurationOverflow

  /** A duration's whole seconds fit in 64 bits. */
  function DurationFromNanos(nanos: nat): Result<nat, ScheduleError> {
    if nanos / NANOS_PER_SECOND > 0xFFFF_FFFF_FFFF_FFFF then Err(DurationOverflow) else Ok(nanos)
  }

  /** `Instant::checked_add`, where `latest` is the platform's last instant. */
  function Add(at: Instant, duration: nat, latest: Instant): Result<Instant, ScheduleError> {
    if at + duration > latest then Err(DurationOverflow) else Ok(at + duration)
  }

  /** The slot to use at `now`, counted from the deadline, and the slot after it. The 128-bit
      products cannot overflow before the conversion to a duration does. */
  function AdvanceCadence(deadline: Instant, interval: nat, now: Instant, latest: Instant)
    : Result<(Instant, Instant), ScheduleError>
  {
    if interval == 0 then Err(IntervalZero)
    else
      var elapsedSlots := if now < deadline then 0 else (now - deadline) / interval;
      var scheduledOffset :- DurationFromNanos(interval * elapsedSlots);
      var nextOffset :- DurationFromNanos(interval * (elapsedSlots + 1));
      var scheduledAt :- Add(deadline, scheduledOffset, latest);
      var nextAt :- Add(deadline, nextOffset, latest);
      Ok((scheduledAt, nextAt))
  }

  /** `at` is a whole number of intervals after `start`. */
  predicate OnGrid(start: Instant, interval: nat, at: Instant)
    requires interval > 0
  {
    start <= at && (at - start) % interval == 0
  }

  lemma OnGridExactly(start: Instant, interval: nat, at: Instant)
    requires interval > 0
    ensures OnGrid(start, interval, at) <==> exists k: nat :: at == start + Times(k, interval)
  {
    if OnGrid(start, interval, at) {
      assert at == start + Times((at - start) / interval, interval);
    }
    if k: nat :| at == start + Times(k, interval) {
      ModuloUnique(at - start, interval, k, 0);
    }
  }

  function Times(k: nat, interval: nat): nat {
    k * interval
  }

  lemma GridStep(start: Instant, interval: nat, at: Instant, steps: nat)
    requires interval > 0 && OnGrid(start, interval, at)
    ensures OnGrid(start, interval, at + interval * steps)
  {
    var k := (at - start) / interval;
    assert at + interval * steps - start == interval * (k + steps) by {
      assert at - start == interval * k;
    }
    ModuloUnique(at + interval * steps - start, interval, k + steps, 0);
  }

  lemma GridGap(start: Instant, interval: nat, a: Instant, b: Instant)
    requires interval > 0 && OnGrid(start, interval, a) && OnGrid(start, interval, b) && a < b
    ensures a + interval <= b
  {
    var j, k := (a - start) / interval, (b - start) / interval;
    assert a - start == interval * j && b - start == interval * k;
    if j < k {
      Farther(interval, j, k);
    } else if k < j {
      Farther(interval, k, j);
    }
  }

  lemma Elapsed(deadline: Instant, interval: nat, now: Instant) returns (slots: nat)
    requires interval > 0
    ensures slots == if now < deadline then 0 else (now - deadline) / interval
    ensures interval * (slots + 1) == interval * slots + interval
    ensures now < deadline + interval * slots + interval
    ensures deadline + interval * slots <= Max(now, deadline)
  {
    slots := if now < deadline then 0 else (now - deadline) / interval;
    if now >= deadline {
      assert now - deadline == interval * slots + (now - deadline) % interval;
    }
  }

  /** The slot is on the deadline's grid; when one has passed it is the last that has, otherwise
      it is the deadline; the next slot is the first one after it, and always still to come. It
      fails exactly for a zero interval or a next slot that cannot be represented. */
  lemma CadenceExactly(deadline: Instant, interval: nat, now: Instant, latest: Instant)
    ensures var result := AdvanceCadence(deadline, interval, now, latest);
            && (result == Err(IntervalZero) <==> interval == 0)
            && (result.Ok? ==>
                  && var (slot, next) := result.value;
                  && OnGrid(deadline, interval, slot) && next == slot + interval && now < next <= latest
                  && DurationFromNanos(next - deadline).Ok?
                  && (if now < deadline then slot == deadline else slot <= now)
                  && forall other: Instant :: OnGrid(deadline, interval, other) && other <= now ==> other <= slot)
            && (result.Err? && interval > 0 ==>
                  forall next: Instant :: OnGrid(deadline, interval, next) && now < next && deadline < next ==>
                    next > latest || DurationFromNanos(next - deadline).Err?)
  {
    if interval > 0 {
      var slots := Elapsed(deadline, interval, now);
      var slot := deadline + interval * slots;
      assert OnGrid(deadline, interval, deadline);
      GridStep(deadline, interval, deadline, slots);
      forall other: Instant | OnGrid(deadline, interval, other) && other <= now ensures other <= slot {
        if slot < other {
          GridGap(deadline, interval, slot, other);
        }
      }
      forall next: Instant | OnGrid(deadline, interval, next) && now < next && deadline < next
        ensures slot + interval <= next
      {
        GridGap(deadline, interval, slot, next);
      }
    }
  }

  // ---------- the schedule ----------

  datatype Plan = Plan(endAt: Option<Instant>, interval: nat, nextSendAt: Option<Instant>, latest: Instant) {

    predicate Ended(now: Instant) {
      endAt.Some? && now >= endAt.value
    }

    function Permit(now: Instant): Plan {
      if nextSendAt.Some? && Ended(now) then this.(nextSendAt := None) else this
    }

    function Preflight(scheduledAt: Instant, permissionAt: Instant): Result<Commit, ScheduleError> {
      var (slot, next) :- AdvanceCadence(scheduledAt, interval, permissionAt, latest);
      Ok(Commit(slot, if Ended(next) then None else Some(next)))
    }

    function SkipMissed(now: Instant): Result<Plan, ScheduleError> {
      if nextSendAt.None? || nextSendAt.value > now then Ok(this)
      else
        var commit :- Preflight(nextSendAt.value, now);
        Ok(this.(nextSendAt := commit.nextSendAt))
    }
  }

  datatype Commit = Commit(scheduledAt: Instant, nextSendAt: Option<Instant>)

  /** A slot that was used, and the instant its send was permitted. */
  datatype Slot = Slot(at: Instant, permittedAt: Instant)

  datatype Submission = Submission(plan: Plan, sent: Option<Slot>, error: Option<ScheduleError>)

  /** One send opportunity at `now`: permission, the due check, preflight, the socket's answer,
      and for an accepted send the commit and the slots that passed by `after`. */
  function Submit(plan: Plan, now: Instant, accepted: bool, after: Instant): Submission {
    var permitted := plan.Permit(now);
    if permitted.nextSendAt.None? || permitted.nextSendAt.value > now then Submission(permitted, None, None)
    else
      var preflight := permitted.Preflight(permitted.nextSendAt.value, now);
      if preflight.Err? then Submission(permitted, None, Some(preflight.error))
      else if !accepted then Submission(permitted, None, None)
      else
        var committed := permitted.(nextSendAt := preflight.value.nextSendAt);
        var skipped := committed.SkipMissed(after);
        var sent := Some(Slot(preflight.value.scheduledAt, now));
        if skipped.Err? then Submission(committed, sent, Some(skipped.error))
        else Submission(skipped.value, sent, None)
  }

  class ProbeSchedule {
    const endAt: Option<Instant>
    const interval: nat
    const latest: Instant
    var nextSendAt: Option<Instant>

    function Current(): Plan
      reads this
    {
      Plan.Plan(endAt, interval, nextSendAt, latest)
    }

    constructor (startAt: Instant, endAt: Option<Instant>, interval: nat, latest: Instant)
      ensures Current() == Plan.Plan(endAt, interval, Some(startAt), latest)
    {
      this.endAt, this.interval, this.latest, nextSendAt := endAt, interval, latest, Some(startAt);
    }

    static method New(startAt: Instant, duration: Option<nat>, interval: nat, latest: Instant)
      returns (r: Result<ProbeSchedule, ScheduleError>)
      ensures r.Err? <==> duration.Some? && startAt + duration.value > latest
      ensures r.Err? ==> r.error == DurationUnschedulable
      ensures r.Ok? ==> fresh(r.value)
      ensures r.Ok? ==> r.value.Current() == Started(startAt, duration, interval, latest)
    {
      var endAt := None;
      if duration.Some? {
        var end := Add(startAt, duration.value, latest);
        if end.Err? {
          return Err(DurationUnschedulable);
        }
        endAt := Some(end.value);
      }
      var schedule := new ProbeSchedule(startAt, endAt, interval, latest);
      r := Ok(schedule);
    }

    method PermitProbeAt(now: Instant) returns (permitted: bool)
      modifies this
      ensures Current() == old(Current()).Permit(now)
      ensures permitted <==> nextSendAt.Some?
    {
      if nextSendAt.None? {
        return false;
      }
      if endAt.Some? && now >= endAt.value {
        nextSendAt := None;
        return false;
      }
      return true;
    }

    method CommitSlot(commit: Commit)
      modifies this
      ensures Current() == old(Current()).(nextSendAt := commit.nextSendAt)
    {
      nextSendAt := commit.nextSendAt;
    }

    method SkipMissedSlotsAt(now: Instant) returns (r: Result<(), ScheduleError>)
      modifies this
      ensures var skipped := old(Current()).SkipMissed(now);
              if skipped.Err? then Current() == old(Current()) && r == Err(skipped.error)
              else Current() == skipped.value && r == Ok(())
    {
      if nextSendAt.Some? && nextSendAt.value <= now {
        var commit :- Current().Preflight(nextSendAt.value, now);
        CommitSlot(commit);
      }
      return Ok(());
    }

    /** The deadline of a schedule that can still send. */
    function EndDeadline(): (r: Option<Instant>)
      reads this
      ensures r.Some? <==> endAt.Some? && nextSendAt.Some?
    {
      if nextSendAt.None? then None else endAt
    }

    method SubmitOne(now: Instant, accepted: bool, after: Instant)
      returns (sent: Option<Slot>, error: Option<ScheduleError>)
      modifies this
      ensures Submission(Current(), sent, error) == Submit(old(Current()), now, accepted, after)
    {
      sent, error := None, None;
      var permitted := PermitProbeAt(now);
      if !permitted || nextSendAt.value > now {
        return;
      }
      var commit := Current().Preflight(nextSendAt.value, now);
      if commit.Err? {
        error := Some(commit.error);
      } else if accepted {
        sent := Some(Slot(commit.value.scheduledAt, now));
        CommitSlot(commit.value);
        var skipped := SkipMissedSlotsAt(after);
        error := if skipped.Err? then Some(skipped.error) else None;
      }
    }
  }

  // ---------- every run stays on the grid ----------

  function Started(startAt: Instant, duration: Option<nat>, interval: nat, latest: Instant): Plan {
    Plan.Plan(if duration.Some? then Some(startAt + duration.value) else None, interval, Some(startAt), latest)
  }

  datatype Opportunity = Opportunity(now: Instant, accepted: bool, after: Instant)

  /** The slots used over a run of send opportunities. */
  function Used(plan: Plan, run: seq<Opportunity>): seq<Slot>
    decreases |run|
  {
    if run == [] then []
    else
      var step := Submit(plan, run[0].now, run[0].accepted, run[0].after);
      (if step.sent.Some? then [step.sent.value] else []) + Used(step.plan, run[1..])
  }

  /** The next slot, if any, is on the grid and before the end. */
  predicate Keeps(plan: Plan, start: Instant)
    requires plan.interval > 0
  {
    plan.nextSendAt.Some? ==> OnGrid(start, plan.interval, plan.nextSendAt.value) && !plan.Ended(plan.nextSendAt.value)
  }

  lemma PreflightKeeps(plan: Plan, start: Instant, now: Instant)
    requires plan.interval > 0 && Keeps(plan, start) && plan.nextSendAt.Some? && plan.nextSendAt.value <= now
    ensures var preflight := plan.Preflight(plan.nextSendAt.value, now);
            preflight.Ok? ==>
              && OnGrid(start, plan.interval, preflight.value.scheduledAt)
              && plan.nextSendAt.value <= preflight.value.scheduledAt <= now
              && now < preflight.value.scheduledAt + plan.interval
              && Keeps(plan.(nextSendAt := preflight.value.nextSendAt), start)
              && (preflight.value.nextSendAt.Some? ==>
                    preflight.value.nextSendAt.value == preflight.value.scheduledAt + plan.interval)
  {
    var deadline, interval := plan.nextSendAt.value, plan.interval;
    var slots := Elapsed(deadline, interval, now);
    GridStep(start, interval, deadline, slots);
    GridStep(start, interval, deadline, slots + 1);
    assert interval * slots >= 0;
  }

  lemma SubmitKeeps(plan: Plan, start: Instant, o: Opportunity)
    requires plan.interval > 0 && Keeps(plan, start)
    ensures var step := Submit(plan, o.now, o.accepted, o.after);
            && step.plan.interval == plan.interval && step.plan.endAt == plan.endAt && Keeps(step.plan, start)
            && (step.plan.nextSendAt.Some? ==> plan.nextSendAt.Some?
                                               && plan.nextSendAt.value <= step.plan.nextSendAt.value)
            && (step.sent.Some? ==>
                  && var slot := step.sent.value;
                  && slot.permittedAt == o.now && plan.nextSendAt.Some? && plan.nextSendAt.value <= slot.at
                  && Proper(plan, start, slot)
                  && (step.plan.nextSendAt.Some? ==> slot.at + plan.interval <= step.plan.nextSendAt.value))
  {
    var permitted := plan.Permit(o.now);
    if permitted.nextSendAt.Some? && permitted.nextSendAt.value <= o.now {
      PreflightKeeps(permitted, start, o.now);
      var preflight := permitted.Preflight(permitted.nextSendAt.value, o.now);
      if preflight.Ok? {
        var committed := permitted.(nextSendAt := preflight.value.nextSendAt);
        if committed.nextSendAt.Some? && committed.nextSendAt.value <= o.after {
          PreflightKeeps(committed, start, o.after);
        }
      }
    }
  }

  /** A slot on the grid and before the end, used while it was the last one to have passed. */
  predicate Proper(plan: Plan, start: Instant, slot: Slot)
    requires plan.interval > 0
  {
    && OnGrid(start, plan.interval, slot.at) && !plan.Ended(slot.at)
    && slot.at <= slot.permittedAt < slot.at + plan.interval
  }

  predicate Spaced(used: seq<Slot>, interval: nat) {
    forall i, j :: 0 <= i < j < |used| ==> used[i].at + interval <= used[j].at
  }

  lemma SpacedNext(slot: Slot, rest: seq<Slot>, interval: nat)
    requires Spaced(rest, interval)
    requires rest != [] ==> slot.at + interval <= rest[0].at
    ensures Spaced([slot] + rest, interval)
  {
    var used := [slot] + rest;
    forall i, j | 0 <= i < j < |used| ensures used[i].at + interval <= used[j].at {
      assert used[j] == rest[j - 1] && rest[0].at <= rest[j - 1].at;
      assert i > 0 ==> used[i] == rest[i - 1];
    }
  }

  lemma {:induction false} UsedFrom(plan: Plan, start: Instant, run: seq<Opportunity>)
    requires plan.interval > 0 && Keeps(plan, start)
    ensures var used := Used(plan, run);
            && (used != [] ==> plan.nextSendAt.Some? && plan.nextSendAt.value <= used[0].at)
            && (forall slot :: slot in used ==> Proper(plan, start, slot))
            && Spaced(used, plan.interval)
    decreases |run|
  {
    hide OnGrid, Submit, Keeps, Spaced;
    if run == [] {
      NoneSpaced(plan.interval);
    } else {
      SubmitKeeps(plan, start, run[0]);
      var step := Submit(plan, run[0].now, run[0].accepted, run[0].after);
      UsedFrom(step.plan, start, run[1..]);
      var rest := Used(step.plan, run[1..]);
      assert forall slot :: slot in rest ==> Proper(plan, start, slot);
      hide Proper;
      if step.sent.Some? {
        SpacedNext(step.sent.value, rest, plan.interval);
      } else {
        assert Used(plan, run) == rest;
      }
    }
  }

  lemma NoneSpaced(interval: nat)
    ensures Spaced([], interval)
  {
  }

  /** Over any run of send opportunities, each accepted, refused or blocked, every used slot is the
      start plus a whole number of intervals, strictly later than the ones before, before the end,
      and the last slot to have passed when its send was permitted. */
  lemma SlotsStayOnTheGrid(start: Instant, duration: Option<nat>, interval: nat, latest: Instant, run: seq<Opportunity>)
    requires interval > 0 && duration != Some(0)
    ensures var used := Used(Started(start, duration, interval, latest), run);
            && (forall i :: 0 <= i < |used| ==>
                  && OnGrid(start, interval, used[i].at)
                  && used[i].at <= used[i].permittedAt < used[i].at + interval
                  && (duration.Some? ==> used[i].at < start + duration.value))
            && Spaced(used, interval)
  {
    var plan := Started(start, duration, interval, latest);
    assert Keeps(plan, start);
    hide Used, OnGrid, Keeps;
    UsedFrom(plan, start, run);
    var used := Used(plan, run);
    forall i | 0 <= i < |used| ensures Proper(plan, start, used[i]) {
      assert used[i] in used;
    }
  }

  /** A slot is never used twice, so a finite schedule uses at most the duration divided by the
      interval, rounded up. */
  lemma FiniteSchedulesAreBounded(start: Instant, duration: nat, interval: nat, latest: Instant, run: seq<Opportunity>)
    requires interval > 0 && duration > 0
    ensures |Used(Started(start, Some(duration), interval, latest), run)| <= (duration + interval - 1) / interval
  {
    SlotsStayOnTheGrid(start, Some(duration), interval, latest, run);
    hide Used, OnGrid;
    var used := Used(Started(start, Some(duration), interval, latest), run);
    if used == [] {
      assert (duration + interval - 1) / interval >= 0;
    } else {
      Spread(used, start, interval);
      assert used[|used| - 1].at < start + duration;
      AtMostCeiling(|used|, interval, duration);
    }
  }

  lemma {:induction false} Spread(used: seq<Slot>, start: Instant, interval: nat)
    requires used != [] && start <= used[0].at
    requires Spaced(used, interval)
    ensures start + interval * (|used| - 1) <= used[|used| - 1].at
  {
    if |used| > 1 {
      Spread(used[..|used| - 1], start, interval);
    }
  }

  lemma AtMostCeiling(n: nat, interval: nat, duration: nat)
    requires n > 0 && interval > 0 && interval * (n - 1) < duration
    ensures n <= (duration + interval - 1) / interval
  {
    var most := (duration + interval - 1) / interval;
    assert duration + interval - 1 == interval * most + (duration + interval - 1) % interval;
    if most < n - 1 {
      Farther(interval, most, n - 1);
    }
  }
}
