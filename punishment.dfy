/** The punishment record of model/Punishment.java. Callers build a record once through its
    setters and then treat it as a value, so it is a datatype here; a setter is a field
    update `p.(field := v)`, which changes that field and no other. */
module Punishments {
  import opened Text

  /** Account identity (a UUID as text). */
  type Uuid = string

  /** `Punishment.Type`: exactly BAN or MUTE. */
  datatype Kind = Ban | Mute

  /** `Type.name()`, the text stored in the `type` column. */
  function KindName(k: Kind): string {
    match k
    case Ban => "BAN"
    case Mute => "MUTE"
  }

  /** `Type.valueOf`, used when a row is read back; any other text is not a kind. */
  function KindOf(s: string): (r: Option<Kind>)
    ensures r.Some? ==> KindName(r.value) == s
  {
    if s == "BAN" then Some(Ban) else if s == "MUTE" then Some(Mute) else None
  }

  /** Storing a kind by name and reading it back gives the same kind. */
  lemma KindNameRoundTrip(k: Kind)
    ensures KindOf(KindName(k)) == Some(k)
  {
  }

  /** One punishment record. Times are milliseconds since the epoch; `duration` is in
      seconds; `expiresAt == None` is the Java `null` that marks a permanent record. */
  datatype Punishment = Punishment(
    id: int,
    targetUuid: Uuid,
    volunteerId: string,
    kind: Kind,
    duration: int,
    reason: Option<string>,
    issuedAt: int,
    expiresAt: Option<int>,
    active: bool)

  /** `new Punishment()` followed by the setters the commands call: the id stays 0 until
      storage assigns one, and the record starts out active. */
  function NewPunishment(target: Uuid, volunteerId: string, kind: Kind, duration: int,
                         reason: Option<string>, issuedAt: int, expiresAt: Option<int>): (p: Punishment)
    ensures p.active && p.id == 0
    ensures p.targetUuid == target && p.volunteerId == volunteerId && p.kind == kind
    ensures p.duration == duration && p.reason == reason
    ensures p.issuedAt == issuedAt && p.expiresAt == expiresAt
  {
    Punishment(0, target, volunteerId, kind, duration, reason, issuedAt, expiresAt, true)
  }

  /** Permanence is decided by the missing expiry, not by the duration. */
  predicate IsPermanent(p: Punishment) {
    p.expiresAt.None?
  }

  /** The "currently enforced" test shared by isBanned/isMuted and the join listener:
      active, and either permanent or expiring strictly after `now`. */
  predicate IsEnforced(p: Punishment, now: int) {
    p.active && (p.expiresAt.None? || p.expiresAt.value > now)
  }

  /** An active permanent record is enforced at every instant. */
  lemma PermanentEnforcedForever(p: Punishment, now: int)
    requires p.active && IsPermanent(p)
    ensures IsEnforced(p, now)
  {
  }

  /** A timed record stops being enforced once its expiry is reached, lifted or not. */
  lemma ExpiredNotEnforced(p: Punishment, now: int)
    requires p.expiresAt.Some? && now >= p.expiresAt.value
    ensures !IsEnforced(p, now)
  {
  }

  /** Duration 0 does not make a record permanent: a record whose expiry equals its issue
      time (the marker an unban or unmute writes) is never enforced from then on. */
  lemma ZeroLengthRecordNeverEnforced(p: Punishment, now: int)
    requires p.duration == 0 && p.expiresAt == Some(p.issuedAt) && now >= p.issuedAt
    ensures !IsPermanent(p) && !IsEnforced(p, now)
  {
  }
}
