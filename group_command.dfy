/** command/GroupCommand.java: `/vp group` shows the sender's own group and quota usage;
    `/vp group <volunteerId> <group>` moves a volunteer to another configured group. */
module GroupCommands {
  import opened Text
  import opened Punishments
  import opened Volunteers
  import opened Context
  import opened Storage

  const SET_GROUP_PERMISSION: string := "volunteerpunish.admin.setgroup"

  /** The figures shown for a configured group: used / quota for each kind. */
  datatype QuotaUsage = QuotaUsage(banUsed: int, banQuota: int, muteUsed: int, muteQuota: int)

  datatype GroupOutcome =
    | PlayersOnly
    | NotAVolunteer
    | ShowGroup(group: string, usage: Option<QuotaUsage>)
    | NoPermission
    | UnknownGroup
    | UnknownVolunteer
    | Reassigned(uuid: Uuid, oldGroup: string, newGroup: string)
    | GroupUsage

  /** The one-argument form: the sender's row by account, its group, and the counters against
      the quotas when that group is configured. */
  function QueryOwnGroup(vols: map<Uuid, Volunteer>, groups: map<string, GroupConfig>, u: Uuid): (out: GroupOutcome)
    ensures out.NotAVolunteer? <==> u !in vols
    ensures out.ShowGroup? <==> u in vols
    ensures out.ShowGroup? ==> out.group == vols[u].groupName
    ensures out.ShowGroup? ==> (out.usage.Some? <==> out.group in groups)
    ensures out.ShowGroup? && out.usage.Some? ==>
      && out.usage.value.banUsed == Used(vols[u], Ban)
      && out.usage.value.muteUsed == Used(vols[u], Mute)
      && out.usage.value.banQuota == QuotaOf(groups[out.group], Ban)
      && out.usage.value.muteQuota == QuotaOf(groups[out.group], Mute)
  {
    if u !in vols then NotAVolunteer
    else
      var v := vols[u];
      if v.groupName in groups then
        var g := groups[v.groupName];
        ShowGroup(v.groupName, Some(QuotaUsage(v.dailyBanUsed, g.banQuota, v.dailyMuteUsed, g.muteQuota)))
      else ShowGroup(v.groupName, None)
  }

  /** The row moved to group `g`: only the group changes. */
  ghost predicate MovedToGroup(before: map<Uuid, Volunteer>, after: map<Uuid, Volunteer>, u: Uuid, g: string) {
    u in before && after == before[u := before[u].(groupName := g)]
  }

  /** execute. A console sender is refused first. One argument queries; three arguments need
      the set-group permission, a configured group and a volunteer found by id (not by player
      name), and then move that volunteer; any other count prints usage. Only a reassignment
      writes, and it writes only the group of the row found. A failing save is swallowed: the
      row stays as it was and the reassignment is reported all the same. */
  method Execute(db: DatabaseManager, groups: map<string, GroupConfig>, sender: Sender, args: seq<string>,
                 writeFault: bool)
    returns (out: GroupOutcome)
    requires db.Valid()
    modifies db
    ensures db.Valid()
    ensures db.punishments == old(db.punishments) && db.nextId == old(db.nextId)
    ensures out.PlayersOnly? <==> sender.player.None?
    ensures sender.player.Some? && |args| == 1 ==>
      out == QueryOwnGroup(old(db.volunteers), groups, sender.player.value)
    ensures sender.player.Some? && |args| == 3 ==>
      && (out.NoPermission? <==> !sender.HasPermission(SET_GROUP_PERMISSION))
      && (out.UnknownGroup? <==> sender.HasPermission(SET_GROUP_PERMISSION) && args[2] !in groups)
      && (out.UnknownVolunteer? <==>
            sender.HasPermission(SET_GROUP_PERMISSION) && args[2] in groups
            && !HasVolunteerId(old(db.volunteers), args[1]))
    ensures out.GroupUsage? <==> sender.player.Some? && |args| != 1 && |args| != 3
    ensures out.NotAVolunteer? || out.ShowGroup? ==> sender.player.Some? && |args| == 1
    ensures (&& sender.player.Some? && |args| == 3 && sender.HasPermission(SET_GROUP_PERMISSION)
             && args[2] in groups && HasVolunteerId(old(db.volunteers), args[1])) ==> out.Reassigned?
    ensures out.Reassigned? ==>
      && |args| == 3 && out.newGroup == args[2] && out.newGroup in groups
      && out.uuid in old(db.volunteers)
      && old(db.volunteers)[out.uuid].volunteerId == args[1]
      && out.oldGroup == old(db.volunteers)[out.uuid].groupName
    ensures out.Reassigned? && !writeFault ==> MovedToGroup(old(db.volunteers), db.volunteers, out.uuid, args[2])
    ensures writeFault || !out.Reassigned? ==> db.volunteers == old(db.volunteers)
  {
    if sender.player.None? {
      return PlayersOnly;
    }
    if |args| == 1 {
      var found := db.GetVolunteerByUuid(sender.player.value, false);
      if found.None? {
        return NotAVolunteer;
      }
      var v := found.value;
      if v.groupName in groups {
        var g := groups[v.groupName];
        out := ShowGroup(v.groupName, Some(QuotaUsage(v.dailyBanUsed, g.banQuota, v.dailyMuteUsed, g.muteQuota)));
      } else {
        out := ShowGroup(v.groupName, None);
      }
      return;
    }
    if |args| == 3 {
      if !sender.HasPermission(SET_GROUP_PERMISSION) {
        return NoPermission;
      }
      var volunteerId := args[1];
      var newGroup := args[2];
      if newGroup !in groups {
        return UnknownGroup;
      }
      var found := db.GetVolunteerByVolunteerId(volunteerId, false);
      if found.None? {
        return UnknownVolunteer;
      }
      var v := found.value;
      db.SaveVolunteer(v.(groupName := newGroup), writeFault);
      return Reassigned(v.uuid, v.groupName, newGroup);
    }
    out := GroupUsage;
  }

  /** A reassignment keeps the row's account, id and both counters, keeps ids unique, and from
      then on the row is measured against the new group's quotas. */
  lemma MoveKeepsCounters(before: map<Uuid, Volunteer>, after: map<Uuid, Volunteer>, u: Uuid, g: string, k: Kind)
    requires MovedToGroup(before, after, u, g)
    ensures after.Keys == before.Keys
    ensures after[u].groupName == g && after[u].volunteerId == before[u].volunteerId
    ensures Used(after[u], k) == Used(before[u], k) && after[u].lastReset == before[u].lastReset
    ensures forall w :: w in before && w != u ==> after[w] == before[w]
    ensures IdsUnique(before) ==> IdsUnique(after)
    ensures KeyedByUuid(before) ==> KeyedByUuid(after)
  {
    if IdsUnique(before) {
      forall u1, u2 | u1 in after && u2 in after && after[u1].volunteerId == after[u2].volunteerId
        ensures u1 == u2
      {
        assert before[u1].volunteerId == after[u1].volunteerId;
        assert before[u2].volunteerId == after[u2].volunteerId;
      }
    }
  }

  /** tabComplete: with the set-group permission, nothing for the volunteer id and the
      configured group names that start with the lower-cased third argument; without it, or
      at any other position, nothing. */
  function TabComplete(sender: Sender, groups: map<string, GroupConfig>, args: seq<string>): (r: set<string>)
    ensures |args| == 3 && sender.HasPermission(SET_GROUP_PERMISSION) ==>
      forall g :: g in r <==> g in groups && StartsWith(g, ToLower(args[2]))
    ensures !(|args| == 3 && sender.HasPermission(SET_GROUP_PERMISSION)) ==> r == {}
  {
    if |args| == 2 && sender.HasPermission(SET_GROUP_PERMISSION) then {}
    else if |args| == 3 && sender.HasPermission(SET_GROUP_PERMISSION) then
      set g | g in groups && StartsWith(g, ToLower(args[2]))
    else {}
  }
}
