/** command/VpCommand.java: the `/vp ban|mute <player> <duration> [reason...]` issuance
    protocol, the `/vp unban|unmute <player>` lifting protocol, duration parsing, and tab
    completion of the `/vp` command. */
module VpCommands {
  import opened Text
  import opened Punishments
  import opened Volunteers
  import opened Context
  import opened Storage
  import opened Plugin
  import GroupCommands

  /** The duration word that stands for a permanent punishment, in any letter case. */
  const PERMANENT_WORD: string := "permanent"
  /** The sub-commands offered for the first argument, in this order. */
  const SUBCOMMANDS: seq<string> :=
    ["ban", "mute", "unban", "unmute", "history", "setid", "removeid", "group", "reload", "help"]
  /** The sub-commands whose second argument is a player name. */
  const PLAYER_SUBCOMMANDS: set<string> := {"ban", "mute", "unban", "unmute", "history", "setid", "removeid"}
  /** The durations offered when the issuer's group configures none. */
  const DEFAULT_DURATIONS: seq<string> := ["60", "300", "600", "3600", "86400", "604800", "permanent"]

  // ---------------------------------------------------------------------------
  // Arguments

  datatype DurationError = NotANumber | NotPositive
  datatype DurationResult = Seconds(value: int) | Rejected(error: DurationError)

  /** The duration argument: the permanent word in any case is 0; otherwise a 64-bit integer
      that must be positive. */
  function ParseDuration(token: string): (r: DurationResult)
    ensures r == Seconds(0) <==> EqualsIgnoreCase(token, PERMANENT_WORD)
    ensures r.Seconds? ==> 0 <= r.value <= LONG_MAX
    ensures r.Seconds? && r.value > 0 ==> ParseLong(token) == Some(r.value)
    ensures r == Rejected(NotANumber) <==> !EqualsIgnoreCase(token, PERMANENT_WORD) && ParseLong(token).None?
    ensures r == Rejected(NotPositive) <==>
      !EqualsIgnoreCase(token, PERMANENT_WORD) && ParseLong(token).Some? && ParseLong(token).value <= 0
  {
    if EqualsIgnoreCase(token, PERMANENT_WORD) then Seconds(0)
    else match ParseLong(token)
      case None => Rejected(NotANumber)
      case Some(n) => if n <= 0 then Rejected(NotPositive) else Seconds(n)
  }

  /** A printed number is never the permanent word, so it parses as itself when positive and
      is refused as not positive otherwise. */
  lemma ParseDurationOfNumber(n: int)
    requires LONG_MIN <= n <= LONG_MAX
    ensures ParseDuration(IntToString(n)) == if n > 0 then Seconds(n) else Rejected(NotPositive)
  {
    var s := IntToString(n);
    ParseLongIntToString(n);
    assert s[0] == '-' || IsDigit(s[0]);
    assert !EqualsIgnoreCase(s, PERMANENT_WORD) by {
      if |s| == |PERMANENT_WORD| {
        assert LowerChar(s[0]) != LowerChar(PERMANENT_WORD[0]);
      }
    }
  }

  /** The reason: the arguments after the duration joined with single spaces, or none. */
  function ReasonOf(args: seq<string>): (r: Option<string>)
    ensures r.None? <==> |args| <= 3
  {
    if |args| > 3 then Some(Join(args[3..], " ")) else None
  }

  /** Arguments come from a command line split at spaces, so they hold no space, and splitting
      the stored reason at spaces gives back the words typed. */
  lemma ReasonWords(args: seq<string>)
    requires |args| > 3
    requires forall i :: 3 <= i < |args| ==> ' ' !in args[i]
    ensures SplitOn(ReasonOf(args).value, ' ') == args[3..]
  {
    var ws := args[3..];
    forall i | 0 <= i < |ws|
      ensures ' ' !in ws[i]
    {
      assert ws[i] == args[i + 3];
    }
    SplitOnJoin(ws, ' ');
  }

  // ---------------------------------------------------------------------------
  // Expiry

  /** The expiry a new record is given: `duration` seconds after `now`, or none (permanent)
      when the duration is 0. */
  function ExpiryFor(now: int, duration: int): (r: Option<int>)
    ensures r.None? <==> duration <= 0
    ensures r.Some? ==> r.value > now
  {
    if duration > 0 then Some(now + duration * 1000) else None
  }

  const TWO_TO_64: int := 0x1_0000_0000_0000_0000

  /** Java `long` arithmetic: the result wraps around into the 64-bit range. */
  function Wrap64(x: int): (r: int)
    ensures LONG_MIN <= r <= LONG_MAX
    ensures (r - x) % TWO_TO_64 == 0
  {
    (x - LONG_MIN) % TWO_TO_64 + LONG_MIN
  }

  lemma Wrap64InRange(x: int)
    requires LONG_MIN <= x <= LONG_MAX
    ensures Wrap64(x) == x
  {
  }

  /** The expiry as the source computes it: `System.currentTimeMillis() + duration * 1000`
      in 64-bit arithmetic. */
  function ExpiryAsWritten(now: int, duration: int): (r: Option<int>)
    ensures r.None? <==> duration <= 0
  {
    if duration > 0 then Some(Wrap64(now + Wrap64(duration * 1000))) else None
  }

  /** While the product and the sum fit in a long, the written expiry is the intended one. */
  lemma ExpiryAsWrittenAgrees(now: int, duration: int)
    requires 0 <= now && 0 < duration
    requires now + duration * 1000 <= LONG_MAX
    ensures ExpiryAsWritten(now, duration) == ExpiryFor(now, duration)
  {
    Wrap64InRange(duration * 1000);
    Wrap64InRange(now + duration * 1000);
  }

  /** A duration of 10^16 seconds is accepted by the parser, but `duration * 1000` wraps
      around: here the written expiry lies before the issue time, so the record is never
      enforced while the issuer's quota is still charged. */
  lemma ExpiryOverflowExample()
    ensures ParseDuration(IntToString(10_000_000_000_000_000)) == Seconds(10_000_000_000_000_000)
    ensures ExpiryAsWritten(1_700_000_000_000, 10_000_000_000_000_000) == Some(-8_446_742_373_709_551_616)
    ensures ExpiryFor(1_700_000_000_000, 10_000_000_000_000_000) == Some(10_000_001_700_000_000_000)
  {
    ParseDurationOfNumber(10_000_000_000_000_000);
    WrappedProduct();
  }

  /** The wrapped value of `10^16 * 1000` and of the sum that follows it. */
  lemma WrappedProduct()
    ensures Wrap64(10_000_000_000_000_000 * 1000) == -8_446_744_073_709_551_616
    ensures Wrap64(1_700_000_000_000 + -8_446_744_073_709_551_616) == -8_446_742_373_709_551_616
  {
    var x := 10_000_000_000_000_000_000;
    assert x - LONG_MIN == TWO_TO_64 + 776_627_963_145_224_192;
    Wrap64InRange(1_700_000_000_000 + -8_446_744_073_709_551_616);
  }

  // ---------------------------------------------------------------------------
  // Issuance

  datatype IssueOutcome =
    | IssueUsage
    | IssuePlayersOnly
    | IssueNotVolunteer
    | BadDuration(error: DurationError)
    | UnknownTarget
    | AlreadyPunished
    | QuotaExhausted
    | Issued(record: Punishment)

  /** The decision handleBanCommand (k = Ban) and handleMuteCommand (k = Mute) reach on the
      tables as they were, the checks taken in the source's order; `quotaOk` is the answer of
      the quota check. */
  function IssueDecision(vols: map<Uuid, Volunteer>, ps: seq<Punishment>, dir: Players, sender: Sender,
                         args: seq<string>, k: Kind, now: int, quotaOk: bool): IssueOutcome
  {
    if |args| < 3 then IssueUsage
    else if sender.player.None? then IssuePlayersOnly
    else if sender.player.value !in vols then IssueNotVolunteer
    else
      var issuer := vols[sender.player.value].volunteerId;
      var d := ParseDuration(args[2]);
      if d.Rejected? then BadDuration(d.error)
      else match FindPlayer(dir, args[1])
        case None => UnknownTarget
        case Some(t) =>
          if HasEnforced(ps, t, k, now) then AlreadyPunished
          else if !quotaOk then QuotaExhausted
          else Issued(NewPunishment(t, issuer, k, d.value, ReasonOf(args), now, ExpiryAsWritten(now, d.value)))
  }

  /** What an issued record is: an active record of the requested kind against the named
      player, signed with the sender's volunteer id, issued now; permanent exactly when the
      permanent word was given; and it was issued only to a player not already punished. */
  lemma IssuedRecord(vols: map<Uuid, Volunteer>, ps: seq<Punishment>, dir: Players, sender: Sender,
                     args: seq<string>, k: Kind, now: int, quotaOk: bool)
    requires IssueDecision(vols, ps, dir, sender, args, k, now, quotaOk).Issued?
    ensures var p := IssueDecision(vols, ps, dir, sender, args, k, now, quotaOk).record;
      && quotaOk && |args| >= 3 && sender.player.Some? && sender.player.value in vols
      && FindPlayer(dir, args[1]) == Some(p.targetUuid)
      && p.volunteerId == vols[sender.player.value].volunteerId
      && p.kind == k && p.active && p.issuedAt == now && p.reason == ReasonOf(args)
      && ParseDuration(args[2]) == Seconds(p.duration)
      && (IsPermanent(p) <==> EqualsIgnoreCase(args[2], PERMANENT_WORD))
      && !HasEnforced(ps, p.targetUuid, k, now)
  {
  }

  /** The issue time and the intended expiry both fit in a Java `long`, so the written
      expiry is the intended one. */
  predicate FitsInLong(now: int, duration: int) {
    0 <= now && now + duration * 1000 <= LONG_MAX
  }

  /** When nothing overflows, a timed record is enforced from its issue until `duration`
      seconds later and not after; a permanent one is enforced at every instant while
      active. */
  lemma IssuedRecordLifetime(vols: map<Uuid, Volunteer>, ps: seq<Punishment>, dir: Players, sender: Sender,
                             args: seq<string>, k: Kind, now: int, quotaOk: bool, at: int)
    requires IssueDecision(vols, ps, dir, sender, args, k, now, quotaOk).Issued?
    requires FitsInLong(now, IssueDecision(vols, ps, dir, sender, args, k, now, quotaOk).record.duration)
    ensures var p := IssueDecision(vols, ps, dir, sender, args, k, now, quotaOk).record;
      IsEnforced(p, at) <==> IsPermanent(p) || at < now + p.duration * 1000
  {
    var p := IssueDecision(vols, ps, dir, sender, args, k, now, quotaOk).record;
    if p.duration > 0 {
      ExpiryAsWrittenAgrees(now, p.duration);
    }
  }

  /** When the intended expiry does not fit in a `long`, the written one wraps around and
      lies at or before the largest `long`: the record stops being enforced before its
      intended end. */
  lemma IssuedOverflowCutShort(vols: map<Uuid, Volunteer>, ps: seq<Punishment>, dir: Players, sender: Sender,
                               args: seq<string>, k: Kind, now: int, quotaOk: bool)
    requires IssueDecision(vols, ps, dir, sender, args, k, now, quotaOk).Issued?
    requires 0 <= now <= LONG_MAX
    requires !FitsInLong(now, IssueDecision(vols, ps, dir, sender, args, k, now, quotaOk).record.duration)
    ensures var p := IssueDecision(vols, ps, dir, sender, args, k, now, quotaOk).record;
      && !IsPermanent(p)
      && p.expiresAt.value < now + p.duration * 1000
      && !IsEnforced(p, now + p.duration * 1000 - 1)
      && !IsEnforced(p, LONG_MAX)
  {
  }

  /** Once the record is stored, its target counts as punished of that kind at the issue
      time, provided nothing overflows. */
  lemma IssuedTargetIsPunished(vols: map<Uuid, Volunteer>, ps: seq<Punishment>, dir: Players, sender: Sender,
                               args: seq<string>, k: Kind, now: int, quotaOk: bool, id: int)
    requires IssueDecision(vols, ps, dir, sender, args, k, now, quotaOk).Issued?
    requires FitsInLong(now, IssueDecision(vols, ps, dir, sender, args, k, now, quotaOk).record.duration)
    ensures var p := IssueDecision(vols, ps, dir, sender, args, k, now, quotaOk).record;
      HasEnforced(ps + [p.(id := id)], p.targetUuid, k, now)
  {
    var p := IssueDecision(vols, ps, dir, sender, args, k, now, quotaOk).record;
    if p.duration > 0 {
      ExpiryAsWrittenAgrees(now, p.duration);
    }
    HasEnforcedAppend(ps, p.(id := id), p.targetUuid, k, now);
  }

  /** The sender is a volunteer and some row carrying its volunteer id passes the quota rule. */
  ghost predicate QuotaOpen(vols: map<Uuid, Volunteer>, sender: Sender, groups: map<string, GroupConfig>, k: Kind) {
    sender.player.Some? && sender.player.value in vols
    && SomeRowAllows(vols, vols[sender.player.value].volunteerId, groups, k)
  }

  /** handleBanCommand / handleMuteCommand. Every refusal leaves both tables unchanged. On
      success the record is saved, then the issuer's counter of that kind is charged, then the
      punishment is enforced. A failing save is swallowed, so the counter is charged even
      when no record was stored. */
  method IssueCommand(db: DatabaseManager, groups: map<string, GroupConfig>, dir: Players, sender: Sender,
                      args: seq<string>, k: Kind, now: int, saveFault: bool)
    returns (out: IssueOutcome)
    requires db.Valid()
    modifies db
    ensures db.Valid()
    ensures out.Issued? ==> out == IssueDecision(old(db.volunteers), old(db.punishments), dir, sender, args, k, now, true)
    ensures !out.Issued? ==> out == IssueDecision(old(db.volunteers), old(db.punishments), dir, sender, args, k, now, false)
    ensures out.Issued? ==> QuotaOpen(old(db.volunteers), sender, groups, k)
    ensures IdsUnique(old(db.volunteers)) ==>
      out == IssueDecision(old(db.volunteers), old(db.punishments), dir, sender, args, k, now,
                           QuotaOpen(old(db.volunteers), sender, groups, k))
    ensures !out.Issued? ==>
      db.volunteers == old(db.volunteers) && db.punishments == old(db.punishments) && db.nextId == old(db.nextId)
    ensures out.Issued? ==>
      db.punishments == old(db.punishments) + (if saveFault then [] else [out.record.(id := old(db.nextId))])
    ensures out.Issued? ==> ChargedOne(old(db.volunteers), db.volunteers, out.record.volunteerId, k)
    ensures (IdsUnique(old(db.volunteers)) && sender.player.Some? && sender.player.value in old(db.volunteers)) ==>
      var u := sender.player.value;
      && u in db.volunteers
      && Used(old(db.volunteers)[u], k) <= Used(db.volunteers[u], k) <= Ceiling(old(db.volunteers)[u], groups, k)
  {
    ghost var vols0 := db.volunteers;
    ghost var ps0 := db.punishments;
    if |args| < 3 {
      return IssueUsage;
    }
    var targetName := args[1];
    var reason := ReasonOf(args);
    if sender.player.None? {
      return IssuePlayersOnly;
    }
    var me := db.GetVolunteerByUuid(sender.player.value, false);
    if me.None? {
      return IssueNotVolunteer;
    }
    var issuer := me.value.volunteerId;
    var d := ParseDuration(args[2]);
    if d.Rejected? {
      return BadDuration(d.error);
    }
    var duration := d.value;
    var target := FindPlayer(dir, targetName);
    if target.None? {
      return UnknownTarget;
    }
    var t := target.value;
    var punished := db.IsRestricted(t, k, now, false);
    if punished {
      return AlreadyPunished;
    }
    var hasQuota := CheckQuota(db, issuer, k, groups, false);
    if !hasQuota {
      assert IdsUnique(vols0) ==> !QuotaOpen(vols0, sender, groups, k);
      return QuotaExhausted;
    }
    var record := NewPunishment(t, issuer, k, duration, reason, now, ExpiryAsWritten(now, duration));
    db.SavePunishment(record, saveFault);
    assert HasVolunteerId(db.volunteers, issuer) by {
      assert db.volunteers[sender.player.value].volunteerId == issuer;
    }
    IncrementCount(db, issuer, k, false, false);
    if IdsUnique(vols0) {
      IssueStepWithinQuota(vols0, db.volunteers, sender.player.value, groups, k);
    }
    out := Issued(record);
  }

  // ---------------------------------------------------------------------------
  // Lifting

  datatype LiftOutcome =
    | LiftUsage
    | LiftPlayersOnly
    | LiftNotVolunteer
    | LiftUnknownTarget
    | NotPunished
    | Lifted(marker: Punishment)

  /** The reason written on the marker record. */
  function LiftReason(k: Kind): string {
    match k
    case Ban => "手动解除封禁"
    case Mute => "手动解除禁言"
  }

  /** The decision handleUnbanCommand (k = Ban) and handleUnmuteCommand (k = Mute) reach: the
      marker is a record of duration 0 issued and expiring now. */
  function LiftDecision(vols: map<Uuid, Volunteer>, ps: seq<Punishment>, dir: Players, sender: Sender,
                        args: seq<string>, k: Kind, now: int): LiftOutcome
  {
    if |args| < 2 then LiftUsage
    else if sender.player.None? then LiftPlayersOnly
    else if sender.player.value !in vols then LiftNotVolunteer
    else match FindPlayer(dir, args[1])
      case None => LiftUnknownTarget
      case Some(t) =>
        if !HasEnforced(ps, t, k, now) then NotPunished
        else Lifted(NewPunishment(t, vols[sender.player.value].volunteerId, k, 0, Some(LiftReason(k)), now, Some(now)))
  }

  /** Only a player punished of that kind right now can be lifted, and the marker written then
      is not permanent and is never enforced from its issue time on. */
  lemma LiftMarker(vols: map<Uuid, Volunteer>, ps: seq<Punishment>, dir: Players, sender: Sender,
                   args: seq<string>, k: Kind, now: int, at: int)
    requires LiftDecision(vols, ps, dir, sender, args, k, now).Lifted?
    requires at >= now
    ensures var m := LiftDecision(vols, ps, dir, sender, args, k, now).marker;
      && FindPlayer(dir, args[1]) == Some(m.targetUuid) && HasEnforced(ps, m.targetUuid, k, now)
      && m.kind == k && m.duration == 0 && !IsPermanent(m) && !IsEnforced(m, at)
  {
    var m := LiftDecision(vols, ps, dir, sender, args, k, now).marker;
    ZeroLengthRecordNeverEnforced(m, at);
  }

  /** Lifting a target's punishments of one kind, marker included, leaves every other target
      and kind exactly as enforced as before at every instant. */
  lemma LiftLeavesOthers(ps: seq<Punishment>, m: Punishment, t: Uuid, k: Kind, t2: Uuid, k2: Kind, at: int)
    requires m.targetUuid == t && m.kind == k
    requires t2 != t || k2 != k
    ensures HasEnforced(Deactivated(ps + [m], t, k), t2, k2, at) == HasEnforced(ps, t2, k2, at)
  {
    DeactivatedKeepsOthers(ps + [m], t, k, t2, k2, at);
    HasEnforcedAppend(ps, m, t2, k2, at);
  }

  /** handleUnbanCommand / handleUnmuteCommand. Every refusal leaves both tables unchanged.
      Otherwise the marker is saved and then every active record of that target and kind, the
      marker among them, is deactivated. A failing save or deactivation is swallowed, and the
      lift is reported all the same. Quota counters are never touched: lifting a punishment
      does not give the issuer's quota back. */
  method LiftCommand(db: DatabaseManager, dir: Players, sender: Sender, args: seq<string>, k: Kind, now: int,
                     saveFault: bool, deactivateFault: bool)
    returns (out: LiftOutcome)
    requires db.Valid()
    modifies db
    ensures db.Valid()
    ensures out == LiftDecision(old(db.volunteers), old(db.punishments), dir, sender, args, k, now)
    ensures db.volunteers == old(db.volunteers)
    ensures !out.Lifted? ==> db.punishments == old(db.punishments) && db.nextId == old(db.nextId)
    ensures out.Lifted? ==>
      var saved := old(db.punishments) + (if saveFault then [] else [out.marker.(id := old(db.nextId))]);
      db.punishments == if deactivateFault then saved else Deactivated(saved, out.marker.targetUuid, k)
    ensures out.Lifted? && !deactivateFault ==> forall at :: !HasEnforced(db.punishments, out.marker.targetUuid, k, at)
    ensures out.Lifted? && deactivateFault ==> HasEnforced(db.punishments, out.marker.targetUuid, k, now)
  {
    if |args| < 2 {
      return LiftUsage;
    }
    if sender.player.None? {
      return LiftPlayersOnly;
    }
    var me := db.GetVolunteerByUuid(sender.player.value, false);
    if me.None? {
      return LiftNotVolunteer;
    }
    var target := FindPlayer(dir, args[1]);
    if target.None? {
      return LiftUnknownTarget;
    }
    var t := target.value;
    var punished := db.IsRestricted(t, k, now, false);
    if !punished {
      return NotPunished;
    }
    var marker := NewPunishment(t, me.value.volunteerId, k, 0, Some(LiftReason(k)), now, Some(now));
    db.SavePunishment(marker, saveFault);
    if deactivateFault && !saveFault {
      HasEnforcedAppend(old(db.punishments), marker.(id := old(db.nextId)), t, k, now);
    }
    UnpunishPlayer(db, t, k, deactivateFault);
    out := Lifted(marker);
  }

  // ---------------------------------------------------------------------------
  // Tab completion

  /** `String.valueOf` of each configured duration, in order. */
  function DurationLabels(ds: seq<int>): (r: seq<string>)
    ensures |r| == |ds|
    ensures forall i :: 0 <= i < |ds| ==> r[i] == IntToString(ds[i])
  {
    if ds == [] then [] else [IntToString(ds[0])] + DurationLabels(ds[1..])
  }

  /** The issuer row's configured duration labels for a kind, when its group is configured and
      lists at least one duration. */
  function ConfiguredDurations(v: Volunteer, groups: map<string, GroupConfig>, k: Kind): (r: Option<seq<string>>)
    ensures r.Some? <==> v.groupName in groups && |DurationsOf(groups[v.groupName], k)| > 0
    ensures r.Some? ==> r.value == DurationLabels(DurationsOf(groups[v.groupName], k))
  {
    if v.groupName in groups && |DurationsOf(groups[v.groupName], k)| > 0 then
      Some(DurationLabels(DurationsOf(groups[v.groupName], k)))
    else None
  }

  /** A list getDurationOptions may answer: the defaults, or the configured list of a row
      carrying the sender's volunteer id. */
  ghost predicate PossibleDurationOptions(vols: map<Uuid, Volunteer>, groups: map<string, GroupConfig>,
                                          sender: Sender, k: Kind, opts: seq<string>)
  {
    || opts == DEFAULT_DURATIONS
    || (&& sender.player.Some? && sender.player.value in vols
        && exists u :: u in vols && vols[u].volunteerId == vols[sender.player.value].volunteerId
                         && ConfiguredDurations(vols[u], groups, k) == Some(opts))
  }

  /** getDurationOptions: a volunteer whose group lists durations for that kind is offered
      those; everyone else, the console included, the defaults. */
  method DurationOptions(db: DatabaseManager, groups: map<string, GroupConfig>, sender: Sender, k: Kind)
    returns (r: seq<string>)
    requires db.Valid()
    ensures PossibleDurationOptions(db.volunteers, groups, sender, k, r)
    ensures sender.player.None? || sender.player.value !in db.volunteers ==> r == DEFAULT_DURATIONS
    ensures sender.player.Some? && sender.player.value in db.volunteers && IdsUnique(db.volunteers) ==>
      r == match ConfiguredDurations(db.volunteers[sender.player.value], groups, k)
           case Some(l) => l
           case None => DEFAULT_DURATIONS
  {
    r := DEFAULT_DURATIONS;
    if sender.player.None? {
      return;
    }
    var me := db.GetVolunteerByUuid(sender.player.value, false);
    if me.None? {
      return;
    }
    var row := db.GetVolunteerByVolunteerId(me.value.volunteerId, false);
    if row.None? {
      return;
    }
    var configured := ConfiguredDurations(row.value, groups, k);
    if configured.Some? {
      r := configured.value;
    }
  }

  /** A string of at most six decimal digits without sign parses as its value. */
  lemma ParseLongDigits(s: string)
    requires 0 < |s| <= 6 && AllDigits(s)
    ensures ParseLong(s) == Some(DigitsValue(s) as int)
  {
    DigitsValueBound(s);
    Pow10Monotone(|s|, 6);
    assert Pow10(1) == 10 && Pow10(2) == 100 && Pow10(3) == 1000;
    assert Pow10(4) == 10000 && Pow10(5) == 100000 && Pow10(6) == 1000000;
    assert s[0] != '-' && s[0] != '+';
  }

  lemma {:induction false} Pow10Monotone(a: nat, b: nat)
    requires a <= b
    ensures Pow10(a) <= Pow10(b)
  {
    if a < b {
      Pow10Monotone(a, b - 1);
    }
  }

  lemma {:induction false} DigitsValueBound(s: string)
    requires AllDigits(s)
    ensures DigitsValue(s) < Pow10(|s|)
  {
    if s != [] {
      DigitsValueBound(s[..|s| - 1]);
    }
  }

  function Pow10(n: nat): (r: nat)
    ensures r > 0
  {
    if n == 0 then 1 else 10 * Pow10(n - 1)
  }

  /** Every default option is accepted by the duration parser. */
  lemma DefaultOptionsAccepted(o: string)
    requires o in DEFAULT_DURATIONS
    ensures ParseDuration(o).Seconds?
  {
    if o != PERMANENT_WORD {
      assert AllDigits(o) && 0 < |o| <= 6;
      ParseLongDigits(o);
      assert DigitsValue(o) > 0 by {
        assert DigitValue(o[0]) > 0;
      }
    }
  }

  /** Every configured positive duration offered is accepted by the parser as that duration. */
  lemma ConfiguredOptionsAccepted(ds: seq<int>, i: int)
    requires 0 <= i < |ds| && 0 < ds[i] <= LONG_MAX
    ensures ParseDuration(DurationLabels(ds)[i]) == Seconds(ds[i])
  {
    ParseDurationOfNumber(ds[i]);
  }

  /** tabComplete of `/vp`: the sub-commands starting with the lower-cased first argument; then
      online player names for a player argument; the duration options starting with the
      lower-cased third argument for ban and mute; the group command's own completion for
      `group`; nothing otherwise. */
  method TabComplete(db: DatabaseManager, groups: map<string, GroupConfig>, sender: Sender, args: seq<string>)
    returns (r: Completion)
    requires db.Valid()
    ensures |args| == 1 ==> r == Options(FilterPrefix(SUBCOMMANDS, ToLower(args[0])))
    ensures |args| == 2 && ToLower(args[0]) in PLAYER_SUBCOMMANDS ==> r == OnlinePlayerNames
    ensures |args| == 3 && ToLower(args[0]) in {"ban", "mute"} ==>
      exists opts :: PossibleDurationOptions(db.volunteers, groups, sender, if ToLower(args[0]) == "ban" then Ban else Mute, opts)
                     && r == Options(FilterPrefix(opts, ToLower(args[2])))
    ensures (&& |args| == 3 && ToLower(args[0]) in {"ban", "mute"}
             && sender.player.Some? && sender.player.value in db.volunteers && IdsUnique(db.volunteers)) ==>
      var k := if ToLower(args[0]) == "ban" then Ban else Mute;
      var opts := match ConfiguredDurations(db.volunteers[sender.player.value], groups, k)
                  case Some(l) => l
                  case None => DEFAULT_DURATIONS;
      r == Options(FilterPrefix(opts, ToLower(args[2])))
    ensures |args| >= 2 && ToLower(args[0]) == "group" ==> r == Names(GroupCommands.TabComplete(sender, groups, args))
    ensures r.OnlinePlayerNames? ==> |args| == 2 && ToLower(args[0]) in PLAYER_SUBCOMMANDS
    ensures (|| |args| == 0
             || (&& |args| >= 2 && ToLower(args[0]) != "group"
                 && !(|args| == 2 && ToLower(args[0]) in PLAYER_SUBCOMMANDS)
                 && !(|args| == 3 && ToLower(args[0]) in {"ban", "mute"}))) ==> r == Options([])
  {
    if |args| == 1 {
      return Options(FilterPrefix(SUBCOMMANDS, ToLower(args[0])));
    }
    if |args| >= 2 {
      var sub := ToLower(args[0]);
      if sub in PLAYER_SUBCOMMANDS {
        if |args| == 2 {
          return OnlinePlayerNames;
        }
        if |args| == 3 && (sub == "ban" || sub == "mute") {
          var k := if sub == "ban" then Ban else Mute;
          var opts := DurationOptions(db, groups, sender, k);
          return Options(FilterPrefix(opts, ToLower(args[2])));
        }
        return Options([]);
      }
      if sub == "group" {
        return Names(GroupCommands.TabComplete(sender, groups, args));
      }
    }
    r := Options([]);
  }
}
