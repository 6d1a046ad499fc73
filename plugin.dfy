/** The quota engine and reset schedule of VolunteerPunish.java: the quota check and the
    counter increment for either kind, the lifting step of unban/unmute, and the arithmetic
    of the daily reset timer. The plugin is always enabled once loaded, so the
    `isPluginEnabled` guards never fire and are not modelled. */
module Plugin {
  import opened Text
  import opened Punishments
  import opened Volunteers
  import opened Context
  import opened Storage

  // ---------------------------------------------------------------------------
  // Quota check and increment

  /** The quota rule for one row: its group is configured and the counter of that kind is
      strictly below the group's quota of that kind. */
  predicate QuotaAllows(v: Volunteer, groups: map<string, GroupConfig>, k: Kind) {
    v.groupName in groups && Used(v, k) < QuotaOf(groups[v.groupName], k)
  }

  /** Some row carrying volunteer id `id` passes the quota rule. */
  ghost predicate SomeRowAllows(vols: map<Uuid, Volunteer>, id: string, groups: map<string, GroupConfig>, k: Kind) {
    exists u :: u in vols && vols[u].volunteerId == id && QuotaAllows(vols[u], groups, k)
  }

  /** checkBanQuota (k = Ban) and checkMuteQuota (k = Mute): look the volunteer up by id; no
      row, or a group missing from the configuration, is a refusal. A positive answer always
      comes from a row that passes the rule; with unique ids it is exactly that row's rule. */
  method CheckQuota(db: DatabaseManager, id: string, k: Kind, groups: map<string, GroupConfig>, fault: bool)
    returns (b: bool)
    requires db.Valid()
    ensures b ==> SomeRowAllows(db.volunteers, id, groups, k)
    ensures !fault && IdsUnique(db.volunteers) && SomeRowAllows(db.volunteers, id, groups, k) ==> b
    ensures fault ==> !b
  {
    var found := db.GetVolunteerByVolunteerId(id, fault);
    if found.None? {
      return false;
    }
    var v := found.value;
    if v.groupName !in groups {
      return false;
    }
    b := Used(v, k) < QuotaOf(groups[v.groupName], k);
  }

  /** The row of some volunteer with id `id` was bumped for kind `k`, and nothing else moved. */
  ghost predicate ChargedOne(before: map<Uuid, Volunteer>, after: map<Uuid, Volunteer>, id: string, k: Kind) {
    exists u :: u in before && before[u].volunteerId == id && after == before[u := Bump(before[u], k)]
  }

  /** incrementBanCount (k = Ban) and incrementMuteCount (k = Mute): read the row by id, add
      one to the counter of that kind, write the row back. An unknown id, or a failed read or
      write, leaves the table as it was. */
  method IncrementCount(db: DatabaseManager, id: string, k: Kind, readFault: bool, writeFault: bool)
    requires db.Valid()
    modifies db
    ensures db.Valid()
    ensures db.punishments == old(db.punishments) && db.nextId == old(db.nextId)
    ensures readFault || writeFault || !HasVolunteerId(old(db.volunteers), id) ==>
      db.volunteers == old(db.volunteers)
    ensures !readFault && !writeFault && HasVolunteerId(old(db.volunteers), id) ==>
      ChargedOne(old(db.volunteers), db.volunteers, id, k)
  {
    var found := db.GetVolunteerByVolunteerId(id, readFault);
    if found.None? {
      return;
    }
    var v := found.value;
    db.SaveVolunteer(Bump(v, k), writeFault);
  }

  /** With unique volunteer ids the charged row is the one row of that id: its counter of
      that kind rises by one, its other counter, group and id stay, and every other row and
      the uniqueness of ids are kept. */
  lemma ChargedOneUnique(before: map<Uuid, Volunteer>, after: map<Uuid, Volunteer>, id: string, k: Kind, u: Uuid)
    requires IdsUnique(before)
    requires u in before && before[u].volunteerId == id
    requires ChargedOne(before, after, id, k)
    ensures after == before[u := Bump(before[u], k)]
    ensures Used(after[u], k) == Used(before[u], k) + 1
    ensures forall other: Kind :: other != k ==> Used(after[u], other) == Used(before[u], other)
    ensures after[u].groupName == before[u].groupName && after[u].volunteerId == id
    ensures IdsUnique(after)
  {
    var w :| w in before && before[w].volunteerId == id && after == before[w := Bump(before[w], k)];
    assert w == u;
  }

  /** The schema does not make volunteer ids unique. When two rows share an id, the increment
      may charge either of them, so the row the quota check read need not be the row charged. */
  lemma SharedIdChargesEitherRow(vols: map<Uuid, Volunteer>, id: string, k: Kind, u1: Uuid, u2: Uuid)
    requires u1 in vols && u2 in vols && u1 != u2
    requires vols[u1].volunteerId == id && vols[u2].volunteerId == id
    ensures ChargedOne(vols, vols[u1 := Bump(vols[u1], k)], id, k)
    ensures ChargedOne(vols, vols[u2 := Bump(vols[u2], k)], id, k)
    ensures vols[u1 := Bump(vols[u1], k)] != vols[u2 := Bump(vols[u2], k)]
  {
    var a := vols[u1 := Bump(vols[u1], k)];
    assert a[u2] == vols[u2];
    assert a[u2] != Bump(vols[u2], k);
  }

  // ---------------------------------------------------------------------------
  // The daily bound

  function Max(a: int, b: int): int {
    if a < b then b else a
  }

  /** One issuance attempt seen from the issuer's row: the counter is charged only when the
      quota check passes. */
  function Attempt(v: Volunteer, groups: map<string, GroupConfig>, k: Kind): (w: Volunteer)
    ensures QuotaAllows(v, groups, k) ==> w == Bump(v, k)
    ensures !QuotaAllows(v, groups, k) ==> w == v
  {
    if QuotaAllows(v, groups, k) then Bump(v, k) else v
  }

  /** A day's attempts, of either kind, in order. */
  function AttemptAll(v: Volunteer, groups: map<string, GroupConfig>, ks: seq<Kind>): (w: Volunteer)
    ensures w.groupName == v.groupName && w.uuid == v.uuid && w.volunteerId == v.volunteerId
    decreases |ks|
  {
    if ks == [] then v else AttemptAll(Attempt(v, groups, ks[0]), groups, ks[1..])
  }

  /** The most a counter can reach by attempts: the configured quota, or the counter itself if
      it is already higher or the group is not configured. */
  function Ceiling(v: Volunteer, groups: map<string, GroupConfig>, k: Kind): int {
    if v.groupName in groups then Max(Used(v, k), QuotaOf(groups[v.groupName], k)) else Used(v, k)
  }

  /** One issuance seen from the issuer's row `u`, with unique ids: the table is either left
      alone, or charged once on that id after the quota rule passed for it. Either way the
      row takes one `Attempt` step or none, so each command keeps the daily bound. */
  lemma IssueStepWithinQuota(before: map<Uuid, Volunteer>, after: map<Uuid, Volunteer>, u: Uuid,
                             groups: map<string, GroupConfig>, k: Kind)
    requires IdsUnique(before) && u in before
    requires || after == before
             || (&& ChargedOne(before, after, before[u].volunteerId, k)
                 && SomeRowAllows(before, before[u].volunteerId, groups, k))
    ensures u in after
    ensures after[u] == before[u] || after[u] == Attempt(before[u], groups, k)
    ensures Used(before[u], k) <= Used(after[u], k) <= Ceiling(before[u], groups, k)
  {
    if after != before {
      ChargedOneUnique(before, after, before[u].volunteerId, k, u);
      var w :| w in before && before[w].volunteerId == before[u].volunteerId && QuotaAllows(before[w], groups, k);
      assert w == u;
    }
  }

  /** However many attempts are made between two resets, no counter climbs past its quota:
      starting from a reset (counter 0) a volunteer gets at most `quota` grants of each kind. */
  lemma {:induction false} AttemptsStayWithinQuota(v: Volunteer, groups: map<string, GroupConfig>, ks: seq<Kind>, k: Kind)
    ensures Used(v, k) <= Used(AttemptAll(v, groups, ks), k) <= Ceiling(v, groups, k)
    decreases |ks|
  {
    if ks != [] {
      var w := Attempt(v, groups, ks[0]);
      AttemptsStayWithinQuota(w, groups, ks[1..], k);
      assert Ceiling(w, groups, k) == Ceiling(v, groups, k);
    }
  }

  // ---------------------------------------------------------------------------
  // Lifting

  /** unbanPlayer (k = Ban) and unmutePlayer (k = Mute): every active record of that target
      and kind is deactivated, so none is enforced at any later instant. */
  method UnpunishPlayer(db: DatabaseManager, t: Uuid, k: Kind, fault: bool)
    requires db.Valid()
    modifies db
    ensures db.Valid()
    ensures db.punishments == if fault then old(db.punishments) else Deactivated(old(db.punishments), t, k)
    ensures !fault ==> forall now :: !HasEnforced(db.punishments, t, k, now)
    ensures db.volunteers == old(db.volunteers)
  {
    db.DeactivatePunishments(t, k, fault);
  }

  // ---------------------------------------------------------------------------
  // The daily reset timer

  const NANOS_PER_SECOND: int := 1_000_000_000
  const SECONDS_PER_DAY: int := 86400
  const NANOS_PER_DAY: int := 86400 * 1_000_000_000
  /** Server ticks per second. */
  const TICKS_PER_SECOND: int := 20
  /** `24 * 60 * 60 * 20L`: one day in ticks. */
  const RESET_PERIOD_TICKS: int := 24 * 60 * 60 * 20

  /** `ZoneId.of(name)`, falling back to UTC when the configured name is not a zone id. */
  function ResolveTimezone(name: string, zones: set<string>): (r: string)
    ensures name in zones ==> r == name
    ensures name !in zones ==> r == "UTC"
  {
    if name in zones then name else "UTC"
  }

  /** `!now.isBefore(LocalTime.MIDNIGHT)` for a time of day given in nanoseconds. */
  predicate NotBeforeMidnight(nanoOfDay: int) {
    !(nanoOfDay < 0)
  }

  /** The next reset date: tomorrow, whatever the time of day, because no time of day is
      before 00:00. */
  function NextResetDate(today: int, nanoOfDay: int): (d: int)
    requires 0 <= nanoOfDay < NANOS_PER_DAY
    ensures d == today + 1
  {
    if NotBeforeMidnight(nanoOfDay) then today + 1 else today
  }

  /** calculateNextResetDelay as written. `Duration.between(LocalTime, LocalDateTime)` turns the
      end into the LocalTime 00:00, so the result is 00:00 minus the current time of day,
      rounded down to whole seconds: never positive. */
  function ResetDelayAsWritten(nanoOfDay: int): (d: int)
    requires 0 <= nanoOfDay < NANOS_PER_DAY
    ensures -SECONDS_PER_DAY <= d <= 0
  {
    (0 - nanoOfDay) / NANOS_PER_SECOND
  }

  /** calculateNextResetDelay as documented: the whole seconds until the next local midnight.
      Waiting that many seconds lands at most one second before midnight and never past it. */
  function ResetDelay(nanoOfDay: int): (d: int)
    requires 0 <= nanoOfDay < NANOS_PER_DAY
    ensures 0 <= d <= SECONDS_PER_DAY
    ensures nanoOfDay + d * NANOS_PER_SECOND <= NANOS_PER_DAY < nanoOfDay + (d + 1) * NANOS_PER_SECOND
  {
    (NANOS_PER_DAY - nanoOfDay) / NANOS_PER_SECOND
  }

  /** The written delay is exactly one day short of the documented one. */
  lemma ResetDelayOneDayShort(nanoOfDay: int)
    requires 0 <= nanoOfDay < NANOS_PER_DAY
    ensures ResetDelayAsWritten(nanoOfDay) == ResetDelay(nanoOfDay) - SECONDS_PER_DAY
  {
    var q := (0 - nanoOfDay) / NANOS_PER_SECOND;
    var m := (0 - nanoOfDay) % NANOS_PER_SECOND;
    assert 0 - nanoOfDay == q * NANOS_PER_SECOND + m && 0 <= m < NANOS_PER_SECOND;
    assert NANOS_PER_DAY - nanoOfDay == (q + SECONDS_PER_DAY) * NANOS_PER_SECOND + m;
  }

  /** At one in the morning the written delay is -3600 seconds where 82800 is meant. */
  lemma ResetDelayAtOneAm()
    ensures ResetDelayAsWritten(3600 * NANOS_PER_SECOND) == -3600
    ensures ResetDelay(3600 * NANOS_PER_SECOND) == 82800
  {
  }

  /** A repeating timer: first delay and period, in ticks. */
  datatype Schedule = Schedule(delayTicks: int, periodTicks: int)

  /** The tick, counted from startup, at which the timer runs for the `j`-th time (from 0).
      The scheduler treats a negative first delay as 0. */
  function RunTick(s: Schedule, j: nat): int {
    Max(0, s.delayTicks) + j * s.periodTicks
  }

  /** startQuotaResetTask: no timer when daily reset is disabled; otherwise a timer whose
      first run comes after the reset delay and which then repeats once a day. */
  function StartQuotaResetTask(enabled: bool, delaySeconds: int): (r: Option<Schedule>)
    ensures r.Some? <==> enabled
    ensures r.Some? ==> r.value.periodTicks == RESET_PERIOD_TICKS
    ensures r.Some? && delaySeconds >= 0 ==> RunTick(r.value, 0) == delaySeconds * TICKS_PER_SECOND
  {
    if enabled then Some(Schedule(delaySeconds * 20, 24 * 60 * 60 * 20)) else None
  }

  /** With the documented delay every reset runs in the last second before a local midnight:
      the `j`-th one just before the end of day `j` counted from startup. */
  lemma {:induction false} ResetsRunAtMidnight(nanoOfDay: int, j: nat)
    requires 0 <= nanoOfDay < NANOS_PER_DAY
    ensures var s := StartQuotaResetTask(true, ResetDelay(nanoOfDay)).value;
      var at := nanoOfDay + RunTick(s, j) / TICKS_PER_SECOND * NANOS_PER_SECOND;
      (j + 1) * NANOS_PER_DAY - NANOS_PER_SECOND < at <= (j + 1) * NANOS_PER_DAY
  {
    var d := ResetDelay(nanoOfDay);
    var s := StartQuotaResetTask(true, d).value;
    assert RunTick(s, j) == (d + j * SECONDS_PER_DAY) * TICKS_PER_SECOND;
    assert RunTick(s, j) / TICKS_PER_SECOND == d + j * SECONDS_PER_DAY;
  }

  /** With the written delay the first reset runs at startup and the later ones at the same
      time of day as startup, not at midnight. */
  lemma ResetsRunAtStartupTime(nanoOfDay: int, j: nat)
    requires 0 <= nanoOfDay < NANOS_PER_DAY
    ensures RunTick(StartQuotaResetTask(true, ResetDelayAsWritten(nanoOfDay)).value, j) == j * RESET_PERIOD_TICKS
  {
  }
}
