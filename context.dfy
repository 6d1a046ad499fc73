/** The collaborators the core consults but does not own, reduced to plain values: the
    loaded configuration (config/ConfigManager.java is not part of this model), the command
    sender, and the server's record of players who have joined before. */
module Context {
  import opened Text
  import opened Punishments

  /** One configured group. A quota key missing from the configuration file reads as 0. */
  datatype GroupConfig = GroupConfig(
    banQuota: int,
    muteQuota: int,
    banDurations: seq<int>,
    muteDurations: seq<int>)

  function QuotaOf(g: GroupConfig, k: Kind): int {
    match k
    case Ban => g.banQuota
    case Mute => g.muteQuota
  }

  function DurationsOf(g: GroupConfig, k: Kind): seq<int> {
    match k
    case Ban => g.banDurations
    case Mute => g.muteDurations
  }

  /** The settings the core reads. */
  datatype Config = Config(
    groups: map<string, GroupConfig>,
    enableDailyReset: bool,
    resetTimezone: string,
    enableLoginNotification: bool,
    notificationTemplates: map<string, string>)

  /** Who runs a command: a player (with its account) or the console, and the permission
      nodes it holds. */
  datatype Sender = Sender(player: Option<Uuid>, permissions: set<string>) {
    predicate HasPermission(node: string) {
      node in permissions
    }
  }

  /** `Bukkit.getOfflinePlayer(name)` and `hasPlayedBefore()`: the account a name maps to, and
      the accounts that have joined the server before. */
  datatype Players = Players(uuidOf: map<string, Uuid>, playedBefore: set<Uuid>)

  /** The target lookup every command performs: a name resolves only to an account that has
      played before. */
  function FindPlayer(dir: Players, name: string): (r: Option<Uuid>)
    ensures r.Some? <==> name in dir.uuidOf && dir.uuidOf[name] in dir.playedBefore
    ensures r.Some? ==> r.value == dir.uuidOf[name]
  {
    if name in dir.uuidOf && dir.uuidOf[name] in dir.playedBefore then Some(dir.uuidOf[name]) else None
  }

  /** A tab-completion answer. `null` in the source lets the server offer the names of online
      players; a list is offered as given; the group names come from a hash map, whose
      iteration order is not modelled, so they are a set. */
  datatype Completion = OnlinePlayerNames | Options(items: seq<string>) | Names(names: set<string>)
}
