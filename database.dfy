/** The two tables of database/DatabaseManager.java and the meaning of each SQL statement the
    core issues against them. `volunteers` is keyed by account (the UNIQUE `uuid` column);
    `punishments` is the append-only ledger in insertion order. Every operation takes a
    `fault` flag standing for an SQLException: the source logs it and returns null, false,
    an empty list or nothing, so a fault never reaches the caller as an error. */
module Storage {
  import opened Text
  import opened Punishments
  import opened Volunteers

  // ---------------------------------------------------------------------------
  // The volunteers table

  /** Every row is stored under its own account: the key is the UNIQUE `uuid` column. */
  ghost predicate KeyedByUuid(vols: map<Uuid, Volunteer>) {
    forall u :: u in vols ==> vols[u].uuid == u
  }

  /** Some row carries volunteer id `id` (the column is not UNIQUE, so there may be several). */
  predicate HasVolunteerId(vols: map<Uuid, Volunteer>, id: string) {
    exists u :: u in vols && vols[u].volunteerId == id
  }

  /** No two rows share a volunteer id. The schema does not enforce this. */
  ghost predicate IdsUnique(vols: map<Uuid, Volunteer>) {
    forall u1, u2 :: u1 in vols && u2 in vols && vols[u1].volunteerId == vols[u2].volunteerId ==> u1 == u2
  }

  /** The UPDATE of resetDailyQuotas: every row gets both counters 0 and `lastReset = now`. */
  function ResetAll(vols: map<Uuid, Volunteer>, now: int): (r: map<Uuid, Volunteer>)
    ensures r.Keys == vols.Keys
    ensures forall u :: u in r ==>
      && r[u].dailyBanUsed == 0 && r[u].dailyMuteUsed == 0 && r[u].lastReset == Some(now)
      && r[u].uuid == vols[u].uuid && r[u].groupName == vols[u].groupName
      && r[u].volunteerId == vols[u].volunteerId
  {
    map u | u in vols :: vols[u].(dailyBanUsed := 0, dailyMuteUsed := 0, lastReset := Some(now))
  }

  // ---------------------------------------------------------------------------
  // The punishments table

  predicate Matches(p: Punishment, t: Uuid, k: Kind) {
    p.targetUuid == t && p.kind == k
  }

  /** The WHERE clause of isBanned (k = Ban) and isMuted (k = Mute): some record of that
      target and kind is active and has no expiry or expires strictly after `now`. */
  predicate HasEnforced(ps: seq<Punishment>, t: Uuid, k: Kind, now: int) {
    exists i :: 0 <= i < |ps| && Matches(ps[i], t, k) && IsEnforced(ps[i], now)
  }

  /** Appending a record adds its own enforcement to its target and kind and changes nothing
      for any other target or kind. */
  lemma HasEnforcedAppend(ps: seq<Punishment>, p: Punishment, t: Uuid, k: Kind, now: int)
    ensures HasEnforced(ps + [p], t, k, now) <==> HasEnforced(ps, t, k, now) || (Matches(p, t, k) && IsEnforced(p, now))
  {
    var r := ps + [p];
    if HasEnforced(ps, t, k, now) {
      var i :| 0 <= i < |ps| && Matches(ps[i], t, k) && IsEnforced(ps[i], now);
      assert r[i] == ps[i];
    }
    if Matches(p, t, k) && IsEnforced(p, now) {
      assert r[|ps|] == p;
    }
    if HasEnforced(r, t, k, now) {
      var i :| 0 <= i < |r| && Matches(r[i], t, k) && IsEnforced(r[i], now);
      if i < |ps| {
        assert r[i] == ps[i];
      }
    }
  }

  /** Storage-assigned ids are positive, below the next id, and grow with insertion order. */
  ghost predicate IdsIncreasing(ps: seq<Punishment>, nextId: int) {
    && (forall i :: 0 <= i < |ps| ==> 0 < ps[i].id < nextId)
    && (forall i, j :: 0 <= i < j < |ps| ==> ps[i].id < ps[j].id)
  }

  /** A target's records, active or not, in table order. */
  function Matching(ps: seq<Punishment>, t: Uuid): (r: seq<Punishment>)
    ensures forall p :: p in r <==> p in ps && p.targetUuid == t
  {
    if ps == [] then []
    else Matching(ps[..|ps| - 1], t) + (if ps[|ps| - 1].targetUuid == t then [ps[|ps| - 1]] else [])
  }

  predicate SortedByIssuedDesc(s: seq<Punishment>) {
    forall i, j :: 0 <= i < j < |s| ==> s[i].issuedAt >= s[j].issuedAt
  }

  /** Places `p` after every record issued at or after it, so records with equal issue
      times keep their table order. */
  function InsertByIssued(p: Punishment, s: seq<Punishment>): (r: seq<Punishment>)
    ensures multiset(r) == multiset(s) + multiset{p}
  {
    if s == [] then [p]
    else if s[0].issuedAt < p.issuedAt then [p] + s
    else
      assert s == [s[0]] + s[1..];
      [s[0]] + InsertByIssued(p, s[1..])
  }

  lemma SortedCons(a: Punishment, s: seq<Punishment>)
    requires SortedByIssuedDesc(s)
    requires forall i :: 0 <= i < |s| ==> s[i].issuedAt <= a.issuedAt
    ensures SortedByIssuedDesc([a] + s)
  {
    var r := [a] + s;
    forall i, j | 0 <= i < j < |r|
      ensures r[i].issuedAt >= r[j].issuedAt
    {
      if i > 0 {
        assert r[i] == s[i - 1] && r[j] == s[j - 1];
      } else {
        assert r[j] == s[j - 1];
      }
    }
  }

  /** Inserting into a newest-first list keeps it newest first. */
  lemma {:induction false} InsertByIssuedSorted(p: Punishment, s: seq<Punishment>)
    requires SortedByIssuedDesc(s)
    ensures SortedByIssuedDesc(InsertByIssued(p, s))
  {
    if s == [] {
    } else if s[0].issuedAt < p.issuedAt {
      SortedCons(p, s);
    } else {
      var rest := InsertByIssued(p, s[1..]);
      InsertByIssuedSorted(p, s[1..]);
      forall i | 0 <= i < |rest|
        ensures rest[i].issuedAt <= s[0].issuedAt
      {
        assert rest[i] in multiset(rest);
        if rest[i] != p {
          assert rest[i] in multiset(s[1..]);
          var j :| 0 <= j < |s[1..]| && s[1..][j] == rest[i];
          assert s[j + 1] == rest[i];
        }
      }
      SortedCons(s[0], rest);
    }
  }

  /** The result of `SELECT * FROM punishments WHERE target_uuid = ? ORDER BY issued_at DESC`:
      exactly the target's records, newest first. SQL leaves the order of equal issue times
      open; this model keeps table order among them. */
  function History(ps: seq<Punishment>, t: Uuid): (r: seq<Punishment>)
    ensures SortedByIssuedDesc(r)
    ensures multiset(r) == multiset(Matching(ps, t))
  {
    if ps == [] then []
    else
      var h := History(ps[..|ps| - 1], t);
      var p := ps[|ps| - 1];
      if p.targetUuid == t then InsertByIssuedSorted(p, h); InsertByIssued(p, h) else h
  }

  /** The history holds exactly the target's records. */
  lemma HistoryMembers(ps: seq<Punishment>, t: Uuid, p: Punishment)
    ensures p in History(ps, t) <==> p in ps && p.targetUuid == t
  {
    var h := History(ps, t);
    assert p in h <==> p in multiset(h);
    assert p in Matching(ps, t) <==> p in multiset(Matching(ps, t));
  }

  /** The rows getPunishmentsByTargetUuid hands back. The list is filled row by row inside
      the `try` and returned after the `catch`, so a read that fails while fetching row
      `k + 1` of the ordered result (`fault == Some(k)`; `Some(0)` also covers a failure
      before the first row) returns the `k` newest records read so far. */
  function Delivered(ps: seq<Punishment>, t: Uuid, fault: Option<nat>): (r: seq<Punishment>)
    ensures |r| <= |History(ps, t)| && r == History(ps, t)[..|r|]
    ensures fault.None? ==> r == History(ps, t)
    ensures fault.Some? ==> |r| == (if fault.value < |History(ps, t)| then fault.value else |History(ps, t)|)
  {
    var h := History(ps, t);
    if fault.None? || fault.value >= |h| then h else h[..fault.value]
  }

  /** The one row UPDATE of deactivatePunishments touches: an active record of that target
      and kind loses its `active` flag; every other record is returned as it was. */
  function Deactivate(p: Punishment, t: Uuid, k: Kind): (q: Punishment)
    ensures q == p.(active := q.active)
    ensures q.active == (p.active && !Matches(p, t, k))
  {
    if Matches(p, t, k) && p.active then p.(active := false) else p
  }

  /** `UPDATE punishments SET is_active = FALSE WHERE target_uuid = ? AND type = ? AND
      is_active = TRUE`: no record is added or removed, only the flag of the matching active
      records changes, and afterwards no record of that target and kind is enforced. */
  function Deactivated(ps: seq<Punishment>, t: Uuid, k: Kind): (r: seq<Punishment>)
    ensures |r| == |ps|
    ensures forall i :: 0 <= i < |ps| ==> r[i] == ps[i].(active := r[i].active)
    ensures forall i :: 0 <= i < |ps| ==> r[i].active == (ps[i].active && !Matches(ps[i], t, k))
    ensures forall now :: !HasEnforced(r, t, k, now)
  {
    seq(|ps|, i requires 0 <= i < |ps| => Deactivate(ps[i], t, k))
  }

  /** Lifting one target's punishments of one kind leaves every other target and kind exactly
      as enforced as before. */
  lemma DeactivatedKeepsOthers(ps: seq<Punishment>, t: Uuid, k: Kind, t2: Uuid, k2: Kind, now: int)
    requires t2 != t || k2 != k
    ensures HasEnforced(Deactivated(ps, t, k), t2, k2, now) == HasEnforced(ps, t2, k2, now)
  {
    var r := Deactivated(ps, t, k);
    if HasEnforced(ps, t2, k2, now) {
      var i :| 0 <= i < |ps| && Matches(ps[i], t2, k2) && IsEnforced(ps[i], now);
      assert Matches(r[i], t2, k2) && IsEnforced(r[i], now);
    }
    if HasEnforced(r, t2, k2, now) {
      var i :| 0 <= i < |r| && Matches(r[i], t2, k2) && IsEnforced(r[i], now);
      assert Matches(ps[i], t2, k2) && IsEnforced(ps[i], now);
    }
  }

  // ---------------------------------------------------------------------------
  // The database

  class DatabaseManager {
    var volunteers: map<Uuid, Volunteer>
    var punishments: seq<Punishment>
    /** The id the next INSERT into `punishments` receives (auto-increment). */
    var nextId: int

    ghost predicate Valid()
      reads this
    {
      KeyedByUuid(volunteers) && IdsIncreasing(punishments, nextId) && nextId > 0
    }

    /** createTables on a fresh database: both tables exist and are empty. */
    constructor ()
      ensures Valid()
      ensures volunteers == map[] && punishments == [] && nextId == 1
    {
      volunteers := map[];
      punishments := [];
      nextId := 1;
    }

    /** `SELECT * FROM volunteers WHERE uuid = ?`: the row of that account, if any. */
    method GetVolunteerByUuid(u: Uuid, fault: bool) returns (r: Option<Volunteer>)
      requires Valid()
      ensures fault ==> r.None?
      ensures !fault ==> (r.Some? <==> u in volunteers)
      ensures r.Some? ==> u in volunteers && r.value == volunteers[u] && r.value.uuid == u
    {
      if fault || u !in volunteers {
        r := None;
      } else {
        r := Some(volunteers[u]);
      }
    }

    /** `SELECT * FROM volunteers WHERE volunteer_id = ?`, first row taken. Without ORDER BY
        the row order is the engine's, so when several rows share the id any one of them may
        come back; with unique ids the answer is determined. */
    method GetVolunteerByVolunteerId(id: string, fault: bool) returns (r: Option<Volunteer>)
      requires Valid()
      ensures fault ==> r.None?
      ensures !fault ==> (r.None? <==> !HasVolunteerId(volunteers, id))
      ensures r.Some? ==> r.value.uuid in volunteers && volunteers[r.value.uuid] == r.value
      ensures r.Some? ==> r.value.volunteerId == id
    {
      if fault || !HasVolunteerId(volunteers, id) {
        r := None;
      } else {
        var u :| u in volunteers && volunteers[u].volunteerId == id;
        r := Some(volunteers[u]);
      }
    }

    /** saveVolunteer: INSERT OR REPLACE (SQLite) / INSERT ... ON DUPLICATE KEY UPDATE
        (MySQL) keyed on `uuid`. The row of that account is replaced by the given values, or
        inserted if there was none; no other row changes. */
    method SaveVolunteer(v: Volunteer, fault: bool)
      requires Valid()
      modifies this
      ensures Valid()
      ensures volunteers == if fault then old(volunteers) else old(volunteers)[v.uuid := v]
      ensures punishments == old(punishments) && nextId == old(nextId)
    {
      if !fault {
        volunteers := volunteers[v.uuid := v];
      }
    }

    /** `DELETE FROM volunteers WHERE uuid = ?`: only that account's row goes. */
    method RemoveVolunteer(u: Uuid, fault: bool)
      requires Valid()
      modifies this
      ensures Valid()
      ensures volunteers == if fault then old(volunteers) else old(volunteers) - {u}
      ensures punishments == old(punishments) && nextId == old(nextId)
    {
      if !fault {
        volunteers := volunteers - {u};
      }
    }

    /** getPunishmentsByTargetUuid: the engine orders the target's rows newest first, then
        the `while (rs.next())` loop appends them one by one until the result set is
        exhausted or the driver fails (`fault`). */
    method GetPunishmentsByTargetUuid(t: Uuid, fault: Option<nat>) returns (r: seq<Punishment>)
      requires Valid()
      ensures r == Delivered(punishments, t, fault)
    {
      var rows := History(punishments, t);
      r := [];
      var j := 0;
      while j < |rows| && (fault.None? || j < fault.value)
        invariant 0 <= j <= |rows|
        invariant fault.Some? ==> j <= fault.value
        invariant r == rows[..j]
      {
        r := r + [rows[j]];
        j := j + 1;
      }
      assert fault.None? || fault.value >= |rows| ==> r == rows;
    }

    /** isBanned (k = Ban) and isMuted (k = Mute): `SELECT 1 ... LIMIT`-style existence test
        over the ledger, evaluated at the database's clock `now`. */
    method IsRestricted(t: Uuid, k: Kind, now: int, fault: bool) returns (b: bool)
      requires Valid()
      ensures b == (!fault && HasEnforced(punishments, t, k, now))
    {
      b := false;
      if fault {
        return;
      }
      var i := 0;
      while i < |punishments|
        invariant 0 <= i <= |punishments|
        invariant forall j :: 0 <= j < i ==> !(Matches(punishments[j], t, k) && IsEnforced(punishments[j], now))
      {
        if Matches(punishments[i], t, k) && IsEnforced(punishments[i], now) {
          b := true;
          return;
        }
        i := i + 1;
      }
    }

    /** savePunishment: one INSERT carrying the record's fields as given (a missing expiry
        is stored as NULL, `active` as set); storage assigns the id. */
    method SavePunishment(p: Punishment, fault: bool)
      requires Valid()
      modifies this
      ensures Valid()
      ensures fault ==> punishments == old(punishments) && nextId == old(nextId)
      ensures !fault ==> punishments == old(punishments) + [p.(id := old(nextId))] && nextId == old(nextId) + 1
      ensures volunteers == old(volunteers)
    {
      if !fault {
        punishments := punishments + [p.(id := nextId)];
        nextId := nextId + 1;
      }
    }

    /** deactivatePunishments: see `Deactivated`. */
    method DeactivatePunishments(t: Uuid, k: Kind, fault: bool)
      requires Valid()
      modifies this
      ensures Valid()
      ensures punishments == if fault then old(punishments) else Deactivated(old(punishments), t, k)
      ensures volunteers == old(volunteers) && nextId == old(nextId)
    {
      if !fault {
        punishments := Deactivated(punishments, t, k);
      }
    }

    /** resetDailyQuotas: see `ResetAll`; the ledger is not touched. */
    method ResetDailyQuotas(now: int, fault: bool)
      requires Valid()
      modifies this
      ensures Valid()
      ensures volunteers == if fault then old(volunteers) else ResetAll(old(volunteers), now)
      ensures punishments == old(punishments) && nextId == old(nextId)
    {
      if !fault {
        volunteers := ResetAll(volunteers, now);
      }
    }
  }
}
