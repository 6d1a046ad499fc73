/** The volunteer quota row of model/Volunteer.java, a datatype updated by copy. The
    auto-increment row number `id` plays no part in any decision and is not kept. */
module Volunteers {
  import opened Text
  import opened Punishments

  /** A volunteer: account, group, short volunteer id, the two daily counters and the time
      of the last reset (`None` is SQL NULL). Counters are unbounded integers. */
  datatype Volunteer = Volunteer(
    uuid: Uuid,
    groupName: string,
    volunteerId: string,
    dailyBanUsed: int,
    dailyMuteUsed: int,
    lastReset: Option<int>)

  /** The row SetIdCommand builds for a new volunteer: both counters 0, no reset time. */
  function NewVolunteer(uuid: Uuid, volunteerId: string, groupName: string): (v: Volunteer)
    ensures v.dailyBanUsed == 0 && v.dailyMuteUsed == 0 && v.lastReset.None?
    ensures v.uuid == uuid && v.volunteerId == volunteerId && v.groupName == groupName
  {
    Volunteer(uuid, groupName, volunteerId, 0, 0, None)
  }

  /** The counter of one kind: `getDailyBanUsed` or `getDailyMuteUsed`. */
  function Used(v: Volunteer, k: Kind): int {
    match k
    case Ban => v.dailyBanUsed
    case Mute => v.dailyMuteUsed
  }

  /** `setDailyBanUsed` or `setDailyMuteUsed`: any integer is accepted, without a bound. */
  function WithUsed(v: Volunteer, k: Kind, n: int): (w: Volunteer)
    ensures Used(w, k) == n
    ensures forall other: Kind :: other != k ==> Used(w, other) == Used(v, other)
    ensures w.uuid == v.uuid && w.groupName == v.groupName && w.volunteerId == v.volunteerId
    ensures w.lastReset == v.lastReset
  {
    match k
    case Ban => v.(dailyBanUsed := n)
    case Mute => v.(dailyMuteUsed := n)
  }

  /** The read-modify-write of incrementBanCount / incrementMuteCount on one row. */
  function Bump(v: Volunteer, k: Kind): (w: Volunteer)
    ensures Used(w, k) == Used(v, k) + 1
    ensures forall other: Kind :: other != k ==> Used(w, other) == Used(v, other)
    ensures w.uuid == v.uuid && w.groupName == v.groupName && w.volunteerId == v.volunteerId
    ensures w.lastReset == v.lastReset
  {
    WithUsed(v, k, Used(v, k) + 1)
  }
}
