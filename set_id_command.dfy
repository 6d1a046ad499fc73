/** command/SetIdCommand.java: `/vp setid <player> <id>` makes a player a volunteer with the
    given id, or gives an existing volunteer a new id. */
module SetIdCommands {
  import opened Text
  import opened Punishments
  import opened Volunteers
  import opened Context
  import opened Storage

  const SET_ID_PERMISSION: string := "volunteerpunish.admin.setid"
  /** The group a newly created volunteer is put in. */
  const DEFAULT_GROUP: string := "default"
  /** The ids offered by tab completion. */
  const EXAMPLE_IDS: seq<string> := ["01", "02", "03", "04", "05", "06", "07", "08", "09", "10"]

  datatype SetIdOutcome =
    | SetIdNoPermission
    | SetIdUsage
    | SetIdUnknownPlayer
    | Created(uuid: Uuid)
    | Renamed(uuid: Uuid, oldId: string)

  /** The table after setting account `u`'s volunteer id to `newId`: an existing row keeps
      its group, counters and reset time and only changes its id; without a row, a new one
      is added in the default group with both counters 0 and no reset time. Other rows stay.
      Nothing checks whether another row already carries `newId`. */
  function SetIdTable(vols: map<Uuid, Volunteer>, u: Uuid, newId: string): (r: map<Uuid, Volunteer>)
    ensures r.Keys == vols.Keys + {u}
    ensures r[u].volunteerId == newId && r[u].uuid == (if u in vols then vols[u].uuid else u)
    ensures u in vols ==> r[u] == vols[u].(volunteerId := newId)
    ensures u !in vols ==> r[u] == NewVolunteer(u, newId, DEFAULT_GROUP)
    ensures forall w :: w in vols && w != u ==> r[w] == vols[w]
  {
    if u in vols then vols[u := vols[u].(volunteerId := newId)]
    else vols[u := NewVolunteer(u, newId, DEFAULT_GROUP)]
  }

  /** Because the id is not checked, setting an id another volunteer already uses leaves two
      rows with that id. */
  lemma SetIdCanDuplicate(vols: map<Uuid, Volunteer>, u1: Uuid, u2: Uuid)
    requires u1 in vols && u1 != u2
    ensures !IdsUnique(SetIdTable(vols, u2, vols[u1].volunteerId))
  {
    var r := SetIdTable(vols, u2, vols[u1].volunteerId);
    assert r[u1].volunteerId == r[u2].volunteerId;
  }

  /** Setting an id no other row carries keeps ids unique and rows keyed by account. */
  lemma SetIdFreshKeepsUnique(vols: map<Uuid, Volunteer>, u: Uuid, newId: string)
    requires KeyedByUuid(vols) && IdsUnique(vols)
    requires forall w :: w in vols && w != u ==> vols[w].volunteerId != newId
    ensures KeyedByUuid(SetIdTable(vols, u, newId)) && IdsUnique(SetIdTable(vols, u, newId))
  {
    var r := SetIdTable(vols, u, newId);
    forall u1, u2 | u1 in r && u2 in r && r[u1].volunteerId == r[u2].volunteerId
      ensures u1 == u2
    {
      if u1 != u && u2 != u {
        assert r[u1] == vols[u1] && r[u2] == vols[u2];
      }
    }
  }

  /** execute: permission, then at least three arguments, then a player who has joined before.
      The row is read by account; when the read fails the row counts as missing, so the
      written row is a fresh one even if the account had a row, and that row's group and
      counters are overwritten. A failing save is swallowed: the table stays as it was and
      the creation or renaming is reported all the same. */
  method Execute(db: DatabaseManager, dir: Players, sender: Sender, args: seq<string>, readFault: bool,
                 writeFault: bool)
    returns (out: SetIdOutcome)
    requires db.Valid()
    modifies db
    ensures db.Valid()
    ensures db.punishments == old(db.punishments) && db.nextId == old(db.nextId)
    ensures out.SetIdNoPermission? <==> !sender.HasPermission(SET_ID_PERMISSION)
    ensures out.SetIdUsage? <==> sender.HasPermission(SET_ID_PERMISSION) && |args| < 3
    ensures out.SetIdUnknownPlayer? <==>
      sender.HasPermission(SET_ID_PERMISSION) && |args| >= 3 && FindPlayer(dir, args[1]).None?
    ensures (out.Created? || out.Renamed?) <==>
      sender.HasPermission(SET_ID_PERMISSION) && |args| >= 3 && FindPlayer(dir, args[1]).Some?
    ensures out.Created? ==>
      && |args| >= 3 && FindPlayer(dir, args[1]) == Some(out.uuid)
      && (readFault || out.uuid !in old(db.volunteers))
    ensures out.Created? && !writeFault ==>
      db.volunteers == old(db.volunteers)[out.uuid := NewVolunteer(out.uuid, args[2], DEFAULT_GROUP)]
    ensures out.Renamed? ==>
      && |args| >= 3 && FindPlayer(dir, args[1]) == Some(out.uuid)
      && !readFault && out.uuid in old(db.volunteers)
      && out.oldId == old(db.volunteers)[out.uuid].volunteerId
    ensures out.Renamed? && !writeFault ==> db.volunteers == SetIdTable(old(db.volunteers), out.uuid, args[2])
    ensures !readFault && !writeFault && (out.Created? || out.Renamed?) ==>
      db.volunteers == SetIdTable(old(db.volunteers), out.uuid, args[2])
    ensures writeFault || !(out.Created? || out.Renamed?) ==> db.volunteers == old(db.volunteers)
  {
    if !sender.HasPermission(SET_ID_PERMISSION) {
      return SetIdNoPermission;
    }
    if |args| < 3 {
      return SetIdUsage;
    }
    var newId := args[2];
    var target := FindPlayer(dir, args[1]);
    if target.None? {
      return SetIdUnknownPlayer;
    }
    var u := target.value;
    var found := db.GetVolunteerByUuid(u, readFault);
    if found.None? {
      db.SaveVolunteer(NewVolunteer(u, newId, DEFAULT_GROUP), writeFault);
      out := Created(u);
    } else {
      var v := found.value;
      db.SaveVolunteer(v.(volunteerId := newId), writeFault);
      out := Renamed(u, v.volunteerId);
    }
  }

  /** tabComplete: online player names for the player, the example ids starting with the
      lower-cased third argument (in list order) for the id, nothing elsewhere. */
  function TabComplete(args: seq<string>): (r: Completion)
    ensures r.OnlinePlayerNames? <==> |args| == 2
    ensures |args| == 3 ==> r.Options? && |r.items| <= |EXAMPLE_IDS|
    ensures |args| == 3 ==> forall x :: x in r.items <==> x in EXAMPLE_IDS && StartsWith(x, ToLower(args[2]))
    ensures |args| != 2 && |args| != 3 ==> r == Options([])
  {
    if |args| == 2 then OnlinePlayerNames
    else if |args| == 3 then Options(FilterPrefix(EXAMPLE_IDS, ToLower(args[2])))
    else Options([])
  }
}
