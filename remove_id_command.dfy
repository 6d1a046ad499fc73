/** command/RemoveIdCommand.java: `/vp removeid <player>` takes a player's volunteer row away. */
module RemoveIdCommands {
  import opened Text
  import opened Punishments
  import opened Volunteers
  import opened Context
  import opened Storage

  const REMOVE_ID_PERMISSION: string := "volunteerpunish.admin.removeid"

  datatype RemoveOutcome =
    | RemoveNoPermission
    | RemoveUsage
    | RemoveUnknownPlayer
    | NotVolunteer
    | Removed(uuid: Uuid)

  /** execute: permission, then at least two arguments, then a player who has joined before,
      then that player's row must exist. Only then is exactly that row deleted. The ledger is
      never touched, so records the volunteer issued stay. A failing delete is swallowed: the
      row stays and the removal is reported all the same. */
  method Execute(db: DatabaseManager, dir: Players, sender: Sender, args: seq<string>, writeFault: bool)
    returns (out: RemoveOutcome)
    requires db.Valid()
    modifies db
    ensures db.Valid()
    ensures db.punishments == old(db.punishments) && db.nextId == old(db.nextId)
    ensures out.RemoveNoPermission? <==> !sender.HasPermission(REMOVE_ID_PERMISSION)
    ensures out.RemoveUsage? <==> sender.HasPermission(REMOVE_ID_PERMISSION) && |args| < 2
    ensures out.RemoveUnknownPlayer? <==>
      sender.HasPermission(REMOVE_ID_PERMISSION) && |args| >= 2 && FindPlayer(dir, args[1]).None?
    ensures out.NotVolunteer? <==>
      && sender.HasPermission(REMOVE_ID_PERMISSION) && |args| >= 2 && FindPlayer(dir, args[1]).Some?
      && FindPlayer(dir, args[1]).value !in old(db.volunteers)
    ensures out.Removed? <==>
      && sender.HasPermission(REMOVE_ID_PERMISSION) && |args| >= 2 && FindPlayer(dir, args[1]).Some?
      && FindPlayer(dir, args[1]).value in old(db.volunteers)
    ensures out.Removed? ==>
      |args| >= 2 && FindPlayer(dir, args[1]) == Some(out.uuid) && out.uuid in old(db.volunteers)
    ensures out.Removed? && !writeFault ==> db.volunteers == old(db.volunteers) - {out.uuid}
    ensures writeFault || !out.Removed? ==> db.volunteers == old(db.volunteers)
  {
    if !sender.HasPermission(REMOVE_ID_PERMISSION) {
      return RemoveNoPermission;
    }
    if |args| < 2 {
      return RemoveUsage;
    }
    var target := FindPlayer(dir, args[1]);
    if target.None? {
      return RemoveUnknownPlayer;
    }
    var u := target.value;
    var found := db.GetVolunteerByUuid(u, false);
    if found.None? {
      return NotVolunteer;
    }
    db.RemoveVolunteer(u, writeFault);
    out := Removed(u);
  }

  /** With unique ids, the removed volunteer's id no longer resolves, so lookups by it (the
      quota check, the increment, the group command) find nothing, while every other id
      resolves as before. */
  lemma RemovedIdNoLongerResolves(vols: map<Uuid, Volunteer>, u: Uuid, id: string)
    requires IdsUnique(vols) && u in vols
    ensures !HasVolunteerId(vols - {u}, vols[u].volunteerId)
    ensures id != vols[u].volunteerId ==> (HasVolunteerId(vols - {u}, id) <==> HasVolunteerId(vols, id))
  {
    var r := vols - {u};
    if id != vols[u].volunteerId && HasVolunteerId(vols, id) {
      var w :| w in vols && vols[w].volunteerId == id;
      assert w in r;
    }
  }

  /** tabComplete: online player names for the player argument, nothing elsewhere. */
  function TabComplete(args: seq<string>): (r: Completion)
    ensures r.OnlinePlayerNames? <==> |args| == 2
    ensures |args| != 2 ==> r == Options([])
  {
    if |args| == 2 then OnlinePlayerNames else Options([])
  }
}
