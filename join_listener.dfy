/** listener/PlayerJoinListener.java: when a player joins, its history is fetched newest
    first; the first enforced ban in it gets the player kicked, otherwise (when login
    notifications are on) the first enforced mute is announced to the player. Also the
    duration text and the placeholder substitution of notification templates. */
module JoinListener {
  import opened Text
  import opened Punishments
  import opened Context
  import opened Storage

  // ---------------------------------------------------------------------------
  // Durations as text

  datatype TimeUnit = UnitSecond | UnitMinute | UnitHour | UnitDay

  function UnitSeconds(u: TimeUnit): int {
    match u
    case UnitSecond => 1
    case UnitMinute => 60
    case UnitHour => 3600
    case UnitDay => 86400
  }

  function UnitSuffix(u: TimeUnit): string {
    match u
    case UnitSecond => "秒"
    case UnitMinute => "分钟"
    case UnitHour => "小时"
    case UnitDay => "天"
  }

  /** formatDuration: a number of seconds in the largest unit not above it, truncated. */
  function FormatDuration(seconds: int): (r: string)
    ensures |r| > 0 && r[|r| - 1] in {'秒', '钟', '时', '天'}
  {
    if seconds < 60 then IntToString(seconds) + "秒"
    else if seconds < 3600 then IntToString(seconds / 60) + "分钟"
    else if seconds < 86400 then IntToString(seconds / 3600) + "小时"
    else IntToString(seconds / 86400) + "天"
  }

  /** The unit formatDuration picks. */
  function DisplayedUnit(seconds: int): TimeUnit {
    if seconds < 60 then UnitSecond
    else if seconds < 3600 then UnitMinute
    else if seconds < 86400 then UnitHour
    else UnitDay
  }

  /** The text shows `n` whole units of the chosen unit: no more than the real duration and
      less than one unit short of it; minutes stay below an hour, hours below a day. */
  lemma FormatDurationTruncates(seconds: int)
    requires seconds >= 0
    ensures var u := DisplayedUnit(seconds);
      var n := seconds / UnitSeconds(u);
      && FormatDuration(seconds) == IntToString(n) + UnitSuffix(u)
      && n * UnitSeconds(u) <= seconds < (n + 1) * UnitSeconds(u)
      && (u == UnitMinute ==> 1 <= n < 60)
      && (u == UnitHour ==> 1 <= n < 24)
      && (u == UnitDay ==> 1 <= n)
  {
  }

  /** The duration shown for a record: "永久" (permanent) exactly when the duration is not
      positive, otherwise formatDuration. */
  function DurationText(duration: int): (r: string)
    ensures r == "永久" <==> duration <= 0
    ensures duration > 0 ==> r == FormatDuration(duration)
  {
    if duration > 0 then FormatDuration(duration) else "永久"
  }

  // ---------------------------------------------------------------------------
  // Notification templates

  /** The word shown for `{type}`. */
  function TypeWord(k: Kind): string {
    match k
    case Ban => "封禁"
    case Mute => "禁言"
  }

  /** The text shown for `{reason}`: the reason, or "未指定" (unspecified). */
  function ReasonOrUnspecified(reason: Option<string>): string {
    if reason.Some? then reason.value else "未指定"
  }

  /** The text shown for `{unban_time}`: "永久" for a permanent record, else the expiry
      rendered by the date format (`dateText`, which depends on the server's zone). */
  function UnbanTime(expiresAt: Option<int>, dateText: int -> string): string {
    if expiresAt.Some? then dateText(expiresAt.value) else "永久"
  }

  /** Each placeholder opens with `{`, has no other `{`, and no two share a second character. */
  predicate Placeholders(subs: seq<(string, string)>) {
    && (forall i :: 0 <= i < |subs| ==> |subs[i].0| >= 2 && subs[i].0[0] == '{' && '{' !in subs[i].0[1..])
    && (forall i, j :: 0 <= i < j < |subs| ==> subs[i].0[1] != subs[j].0[1])
  }

  /** A chain of `String.replace` calls, applied in order. */
  function ReplaceEach(s: string, subs: seq<(string, string)>): string
    requires forall i :: 0 <= i < |subs| ==> |subs[i].0| > 0
    decreases |subs|
  {
    if subs == [] then s else ReplaceEach(ReplaceAll(s, subs[0].0, subs[0].1), subs[1..])
  }

  lemma {:induction false} ReplaceEachPlain(s: string, subs: seq<(string, string)>)
    requires Placeholders(subs) && '{' !in s
    ensures ReplaceEach(s, subs) == s
  {
    if subs != [] {
      ReplaceAllUnchanged(s, subs[0].0, subs[0].1);
      ReplaceEachPlain(s, subs[1..]);
    }
  }

  /** A template holding one placeholder amid plain text becomes that text with the
      placeholder's value in its place, provided the value opens no placeholder itself. */
  lemma {:induction false} ReplaceEachOne(a: string, b: string, subs: seq<(string, string)>, i: int)
    requires Placeholders(subs) && 0 <= i < |subs|
    requires '{' !in a && '{' !in b && '{' !in subs[i].1
    ensures ReplaceEach(a + subs[i].0 + b, subs) == a + subs[i].1 + b
  {
    var t := subs[0].0;
    if i == 0 {
      ReplaceAllSplice(a, b, t, subs[0].1);
      ReplaceEachPlain(a + subs[0].1 + b, subs[1..]);
    } else {
      ReplaceAllMismatch(a, subs[i].0, b, t, subs[0].1);
      assert subs[1..][i - 1] == subs[i];
      ReplaceEachOne(a, b, subs[1..], i - 1);
    }
  }

  /** The substitutions of formatMessage, in the order they are applied. */
  function Substitutions(p: Punishment, dateText: int -> string): (subs: seq<(string, string)>)
    ensures |subs| == 5 && Placeholders(subs)
  {
    [("{volunteer_id}", p.volunteerId),
     ("{type}", TypeWord(p.kind)),
     ("{duration}", DurationText(p.duration)),
     ("{reason}", ReasonOrUnspecified(p.reason)),
     ("{unban_time}", UnbanTime(p.expiresAt, dateText))]
  }

  /** formatMessage: the placeholders replaced one after the other. A template without
      placeholders comes back unchanged. */
  function FormatMessage(template: string, p: Punishment, dateText: int -> string): (r: string)
    ensures '{' !in template ==> r == template
  {
    var subs := Substitutions(p, dateText);
    if '{' !in template then ReplaceEachPlain(template, subs); ReplaceEach(template, subs)
    else ReplaceEach(template, subs)
  }

  /** A `{reason}` placeholder shows the reason, or "未指定" when there is none. */
  lemma FormatMessageReason(a: string, b: string, p: Punishment, dateText: int -> string)
    requires '{' !in a && '{' !in b && '{' !in ReasonOrUnspecified(p.reason)
    ensures FormatMessage(a + "{reason}" + b, p, dateText) ==
      a + (if p.reason.Some? then p.reason.value else "未指定") + b
  {
    ReplaceEachOne(a, b, Substitutions(p, dateText), 3);
  }

  /** An `{unban_time}` placeholder shows "永久" for a permanent record. */
  lemma FormatMessagePermanentUnbanTime(a: string, b: string, p: Punishment, dateText: int -> string)
    requires '{' !in a && '{' !in b && IsPermanent(p)
    ensures FormatMessage(a + "{unban_time}" + b, p, dateText) == a + "永久" + b
  {
    ReplaceEachOne(a, b, Substitutions(p, dateText), 4);
  }

  /** A `{duration}` placeholder shows "永久" exactly when the duration is not positive. */
  lemma FormatMessageDuration(a: string, b: string, p: Punishment, dateText: int -> string)
    requires '{' !in a && '{' !in b && '{' !in DurationText(p.duration)
    ensures FormatMessage(a + "{duration}" + b, p, dateText) == a + DurationText(p.duration) + b
    ensures p.duration <= 0 ==> FormatMessage(a + "{duration}" + b, p, dateText) == a + "永久" + b
  {
    ReplaceEachOne(a, b, Substitutions(p, dateText), 2);
  }

  /** The template used when the configuration has none for the kind. */
  const DEFAULT_TEMPLATE: string := "&c你已被志愿者 #{volunteer_id} {type} {duration}，原因：{reason}"

  /** The template shown for a kind: the one configured under the lower-cased kind name, or
      the built-in default when there is none. */
  function TemplateFor(templates: map<string, string>, k: Kind): (t: string)
    ensures ToLower(KindName(k)) in templates ==> t == templates[ToLower(KindName(k))]
    ensures ToLower(KindName(k)) !in templates ==> t == DEFAULT_TEMPLATE
  {
    if ToLower(KindName(k)) in templates then templates[ToLower(KindName(k))]
    else DEFAULT_TEMPLATE
  }

  /** The colour-code prefix character of the server's chat formatting. */
  const COLOUR: string := "\U{00A7}"

  /** The kick text for a governing ban, colour codes still in place (red header, grey
      lines); the default reason here is "违反服务器规定". */
  function KickText(ban: Punishment): (r: string)
    ensures StartsWith(r, COLOUR + "c你已被封禁\n")
    ensures |r| >= |ban.volunteerId| && r[|r| - |ban.volunteerId|..] == ban.volunteerId
  {
    COLOUR + "c你已被封禁\n"
    + COLOUR + "7原因: " + (if ban.reason.Some? then ban.reason.value else "违反服务器规定") + "\n"
    + COLOUR + "7时长: " + DurationText(ban.duration) + "\n"
    + COLOUR + "7封禁者: " + ban.volunteerId
  }

  // ---------------------------------------------------------------------------
  // Selection of the governing record

  /** The loop's test: a record of kind `k` that is active and permanent or expiring after now. */
  predicate Selected(p: Punishment, k: Kind, now: int) {
    p.kind == k && IsEnforced(p, now)
  }

  /** The scan of onPlayerJoin: the first selected record of the list, stopping there. */
  method SelectGoverning(rs: seq<Punishment>, k: Kind, now: int) returns (r: Option<Punishment>)
    ensures r.None? <==> forall j :: 0 <= j < |rs| ==> !Selected(rs[j], k, now)
    ensures r.Some? ==> exists i :: 0 <= i < |rs| && rs[i] == r.value && Selected(rs[i], k, now)
                                    && forall j :: 0 <= j < i ==> !Selected(rs[j], k, now)
  {
    r := None;
    var i := 0;
    while i < |rs|
      invariant 0 <= i <= |rs|
      invariant forall j :: 0 <= j < i ==> !Selected(rs[j], k, now)
    {
      var p := rs[i];
      if p.kind == k && p.active {
        if p.expiresAt.None? || p.expiresAt.value > now {
          r := Some(p);
          return;
        }
      }
      i := i + 1;
    }
  }

  /** In a newest-first list, the first selected record is issued no earlier than any other
      selected record. */
  lemma FirstSelectedIsNewest(rs: seq<Punishment>, i: int, k: Kind, now: int)
    requires SortedByIssuedDesc(rs) && 0 <= i < |rs|
    requires forall j :: 0 <= j < i ==> !Selected(rs[j], k, now)
    ensures forall q :: q in rs && Selected(q, k, now) ==> q.issuedAt <= rs[i].issuedAt
  {
    forall q | q in rs && Selected(q, k, now)
      ensures q.issuedAt <= rs[i].issuedAt
    {
      var j :| 0 <= j < |rs| && rs[j] == q;
      assert j >= i;
    }
  }

  /** The history holds an enforced record of a kind exactly when the ledger does for that
      target: the join listener and isBanned / isMuted agree. */
  lemma HistorySelectsIffEnforced(ps: seq<Punishment>, t: Uuid, k: Kind, now: int)
    ensures (exists j :: 0 <= j < |History(ps, t)| && Selected(History(ps, t)[j], k, now))
            <==> HasEnforced(ps, t, k, now)
  {
    var h := History(ps, t);
    if HasEnforced(ps, t, k, now) {
      var i :| 0 <= i < |ps| && Matches(ps[i], t, k) && IsEnforced(ps[i], now);
      HistoryMembers(ps, t, ps[i]);
      var j :| 0 <= j < |h| && h[j] == ps[i];
      assert Selected(h[j], k, now);
    }
    if exists j :: 0 <= j < |h| && Selected(h[j], k, now) {
      var j :| 0 <= j < |h| && Selected(h[j], k, now);
      HistoryMembers(ps, t, h[j]);
      var i :| 0 <= i < |ps| && ps[i] == h[j];
      assert Matches(ps[i], t, k) && IsEnforced(ps[i], now);
    }
  }

  // ---------------------------------------------------------------------------
  // Joining

  datatype JoinAction =
    | Kick(ban: Punishment, message: string)
    | NotifyMute(mute: Punishment, message: string)
    | Admit

  /** The record governs: it is the joining player's, of that kind, enforced now, and issued
      no earlier than any other enforced record of that player and kind. */
  ghost predicate Governs(ps: seq<Punishment>, t: Uuid, k: Kind, now: int, p: Punishment) {
    && p in ps && Matches(p, t, k) && IsEnforced(p, now)
    && forall q :: q in ps && Matches(q, t, k) && IsEnforced(q, now) ==> q.issuedAt <= p.issuedAt
  }

  /** onPlayerJoin for player `t` at instant `now`, on the rows the history read delivers
      (all of them unless the read fails part way, see `Delivered`). The player is kicked
      exactly when a delivered row is an enforced ban, and then with the newest enforced ban
      of the whole ledger; failing that, and with login notifications on, the newest enforced
      mute is announced exactly when a delivered row is an enforced mute. On a complete read
      this is exactly isBanned, then isMuted; a read failing before the first row admits. */
  method OnPlayerJoin(db: DatabaseManager, cfg: Config, t: Uuid, now: int, dateText: int -> string, fault: Option<nat>)
    returns (action: JoinAction)
    requires db.Valid()
    ensures var rs := Delivered(db.punishments, t, fault);
      action.Kick? <==> exists j :: 0 <= j < |rs| && Selected(rs[j], Ban, now)
    ensures var rs := Delivered(db.punishments, t, fault);
      action.NotifyMute? <==>
        && (forall j :: 0 <= j < |rs| ==> !Selected(rs[j], Ban, now))
        && cfg.enableLoginNotification
        && exists j :: 0 <= j < |rs| && Selected(rs[j], Mute, now)
    ensures fault.None? ==> (action.Kick? <==> HasEnforced(db.punishments, t, Ban, now))
    ensures fault.None? ==> (action.NotifyMute? <==>
      !HasEnforced(db.punishments, t, Ban, now) && cfg.enableLoginNotification && HasEnforced(db.punishments, t, Mute, now))
    ensures fault == Some(0) ==> action == Admit
    ensures action.Kick? ==> Governs(db.punishments, t, Ban, now, action.ban) && action.message == KickText(action.ban)
    ensures action.NotifyMute? ==>
      && Governs(db.punishments, t, Mute, now, action.mute)
      && action.message == FormatMessage(TemplateFor(cfg.notificationTemplates, Mute), action.mute, dateText)
  {
    var rs := db.GetPunishmentsByTargetUuid(t, fault);
    if fault.None? {
      HistorySelectsIffEnforced(db.punishments, t, Ban, now);
      HistorySelectsIffEnforced(db.punishments, t, Mute, now);
    }
    var ban := SelectGoverning(rs, Ban, now);
    if ban.Some? {
      ProveGoverns(db.punishments, t, Ban, now, rs, ban.value);
      return Kick(ban.value, KickText(ban.value));
    }
    if cfg.enableLoginNotification {
      var mute := SelectGoverning(rs, Mute, now);
      if mute.Some? {
        ProveGoverns(db.punishments, t, Mute, now, rs, mute.value);
        var message := FormatMessage(TemplateFor(cfg.notificationTemplates, Mute), mute.value, dateText);
        return NotifyMute(mute.value, message);
      }
    }
    action := Admit;
  }

  /** The record the scan stops at, in the history or in any prefix of it, governs. */
  lemma ProveGoverns(ps: seq<Punishment>, t: Uuid, k: Kind, now: int, rs: seq<Punishment>, p: Punishment)
    requires |rs| <= |History(ps, t)| && rs == History(ps, t)[..|rs|]
    requires exists i :: 0 <= i < |rs| && rs[i] == p && Selected(rs[i], k, now)
                         && forall j :: 0 <= j < i ==> !Selected(rs[j], k, now)
    ensures Governs(ps, t, k, now, p)
  {
    var h := History(ps, t);
    var i :| 0 <= i < |rs| && rs[i] == p && Selected(rs[i], k, now)
             && forall j :: 0 <= j < i ==> !Selected(rs[j], k, now);
    assert h[i] == p;
    forall j | 0 <= j < i
      ensures !Selected(h[j], k, now)
    {
      assert h[j] == rs[j];
    }
    FirstSelectedIsNewest(h, i, k, now);
    HistoryMembers(ps, t, p);
    forall q | q in ps && Matches(q, t, k) && IsEnforced(q, now)
      ensures q.issuedAt <= p.issuedAt
    {
      HistoryMembers(ps, t, q);
    }
  }
}
