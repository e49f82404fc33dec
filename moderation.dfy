/**
 * The moderation cog: its two fields (the per-user timestamp lists and the
 * per-guild settings) and the settings file, the message handler that runs
 * the burst detector and reacts to a firing, and the setup command.
 * Calls into the chat platform appear only through their outcomes.
 */
module Moderation {
  import opened Wrappers
  import opened Settings
  import opened SpamWindow

  /** What the message handler needs to know about one incoming message. */
  datatype Message = Message(
    guildId: Option<nat>,    // None for a message outside any guild
    authorId: int,
    authorIsBot: bool,
    authorIsMember: bool,    // the author resolved to a guild member
    authorIsAdmin: bool)     // the member holds the administrator permission

  /** Bots, messages outside a guild, non-members and administrators are never tracked. */
  predicate Tracked(msg: Message) {
    msg.guildId.Some? && !msg.authorIsBot && msg.authorIsMember && !msg.authorIsAdmin
  }

  /**
   * How the platform answers once the detector fires: whether deleting the
   * message succeeds, which role ids the guild has, whether granting the role
   * succeeds, and whether the success and failure reports to the log channel
   * go through (or raise).
   */
  datatype Effects = Effects(
    deleteOk: bool,
    guildRoles: set<int>,
    addRolesOk: bool,
    grantLogOk: bool,
    failureLogOk: bool)

  /** Why the role was not granted, or the grant was not reported. */
  datatype GrantError =
    | RoleUnresolved   // no role configured, configured as 0, or no longer in the guild
    | AddRolesFailed   // the platform refused the grant
    | LogFailed        // the role was granted but the success report raised

  /** The report last attempted in the log channel. */
  datatype LogEntry = GrantLogged(role: int) | FailureLogged(reason: GrantError)

  /** What handling one message did. */
  datatype Verdict =
    | Ignored
    | Counted(count: nat)
      /**
       * The detector fired with `count` messages in the window. `escaped`: the
       * failure report itself raised, so the handler stopped before the reset.
       */
    | Fired(count: nat, deleted: bool, granted: Option<int>, log: LogEntry, escaped: bool)

  /** `_apply_spam_role`: grants the guild's configured role, or fails without granting. */
  function ApplySpamRole(settings: GuildSettings, guildId: nat, fx: Effects): (r: Result<int, GrantError>)
    ensures GetSpamRole(settings, guildId, fx.guildRoles).None? ==> r == Err(RoleUnresolved)
    ensures r.Ok? <==> GetSpamRole(settings, guildId, fx.guildRoles).Some? && fx.addRolesOk
    ensures r.Ok? ==> r.value == settings[GuildKey(guildId)]
    ensures GetSpamRole(settings, guildId, fx.guildRoles).Some? && !fx.addRolesOk ==> r == Err(AddRolesFailed)
  {
    match GetSpamRole(settings, guildId, fx.guildRoles)
    case None => Err(RoleUnresolved)
    case Some(role) => if fx.addRolesOk then Ok(role) else Err(AddRolesFailed)
  }

  /** The outcome of the grant-and-report block that runs when the detector fires. */
  datatype Handling = Handling(granted: Option<int>, log: LogEntry, escaped: bool)

  /**
   * The try/except around the grant: a grant is reported as such; any failure,
   * including a failed success report, is reported as a failure; a failure
   * report that raises escapes the handler.
   */
  function Dispatch(settings: GuildSettings, guildId: nat, fx: Effects): (h: Handling)
    ensures h.granted.Some? <==> GetSpamRole(settings, guildId, fx.guildRoles).Some? && fx.addRolesOk
    ensures h.granted.Some? ==> h.granted.value == settings[GuildKey(guildId)]
    ensures h.log.GrantLogged? <==> h.granted.Some? && fx.grantLogOk
    ensures GetSpamRole(settings, guildId, fx.guildRoles).None? ==> h.log == FailureLogged(RoleUnresolved)
    ensures GetSpamRole(settings, guildId, fx.guildRoles).Some? && !fx.addRolesOk ==> h.log == FailureLogged(AddRolesFailed)
    ensures h.granted.Some? && !fx.grantLogOk ==> h.log == FailureLogged(LogFailed)
    ensures h.log.GrantLogged? ==> h.log.role == h.granted.value
    ensures h.escaped <==> h.log.FailureLogged? && !fx.failureLogOk
  {
    match ApplySpamRole(settings, guildId, fx)
    case Err(e) => Handling(None, FailureLogged(e), !fx.failureLogOk)
    case Ok(role) =>
      if fx.grantLogOk then Handling(Some(role), GrantLogged(role), false)
      else Handling(Some(role), FailureLogged(LogFailed), !fx.failureLogOk)
  }

  /** A user's stored timestamps, `[]` when there are none. */
  function TimesOf(msgTimes: map<int, seq<real>>, uid: int): seq<real>
  {
    if uid in msgTimes then msgTimes[uid] else []
  }

  /** The replies of the setup command. */
  datatype SetupReply = NotInGuild | RoleAboveBot | Saved

  class ModerationCog {
    /** `_msg_times`: user id -> timestamps of that user's recent messages, across all guilds. */
    var msgTimes: map<int, seq<real>>
    /** `settings`: guild id string -> spam role id. */
    var settings: GuildSettings
    /** The settings file as last written. */
    var file: Source

    /** Starts with no history and the settings loaded from the file. */
    constructor (file0: Source)
      ensures msgTimes == map[] && settings == Loaded(file0) && file == file0
    {
      var loaded := LoadSettings(file0);
      msgTimes := map[];
      settings := loaded;
      file := file0;
    }

    /** `on_message`: records the message at time `now` and reacts when the detector fires. */
    method OnMessage(msg: Message, now: real, fx: Effects) returns (v: Verdict)
      modifies this`msgTimes
      ensures !Tracked(msg) ==> v == Ignored && msgTimes == old(msgTimes)
      ensures Tracked(msg) ==>
        var w := Window(TimesOf(old(msgTimes), msg.authorId), now);
        var h := Dispatch(settings, msg.guildId.value, fx);
        && (|w| < SpamMaxMsg ==> v == Counted(|w|) && msgTimes == old(msgTimes)[msg.authorId := w])
        && (|w| >= SpamMaxMsg ==>
              && v == Fired(|w|, fx.deleteOk, h.granted, h.log, h.escaped)
              && msgTimes == old(msgTimes)[msg.authorId := if h.escaped then w else []])
      ensures Tracked(msg) ==> msg.authorId in msgTimes
      ensures Tracked(msg) ==> forall t :: t in msgTimes[msg.authorId] ==> t >= now - SpamWindowSec
      ensures Tracked(msg) && v.Counted? ==> now in msgTimes[msg.authorId]
      ensures v.Fired? && !v.escaped ==> msgTimes[msg.authorId] == []
      ensures forall u :: u != msg.authorId ==> TimesOf(msgTimes, u) == TimesOf(old(msgTimes), u)
    {
      if msg.guildId.None? || msg.authorIsBot {
        return Ignored;
      }
      if !msg.authorIsMember {
        return Ignored;
      }
      if msg.authorIsAdmin {
        return Ignored;
      }
      var uid := msg.authorId;
      var times := TimesOf(msgTimes, uid);
      times := times + [now];
      var cutoff := now - SpamWindowSec;
      times := Prune(times, cutoff);
      msgTimes := msgTimes[uid := times];
      WindowContents(TimesOf(old(msgTimes), uid), now);

      if |times| >= SpamMaxMsg {
        // A failed delete is swallowed and does not affect the grant.
        var deleted := fx.deleteOk;
        var h := Dispatch(settings, msg.guildId.value, fx);
        if !h.escaped {
          msgTimes := msgTimes[uid := []];
        }
        v := Fired(|times|, deleted, h.granted, h.log, h.escaped);
      } else {
        v := Counted(|times|);
      }
    }

    /**
     * `spam_setup`: stores the role for the guild and saves the file, unless the
     * command is used outside a guild or the role is not below the bot's top role
     * (`botTopRank`: the rank of the bot's top role, None when the bot's member is unknown).
     */
    method SpamSetup(guildId: Option<nat>, botTopRank: Option<int>, role: Role) returns (reply: SetupReply)
      modifies this`settings, this`file
      ensures guildId.None? ==> reply == NotInGuild
      ensures guildId.Some? && !SetupAllowed(role, botTopRank) ==> reply == RoleAboveBot
      ensures reply != Saved ==> settings == old(settings) && file == old(file)
      ensures guildId.Some? && SetupAllowed(role, botTopRank) ==>
                && reply == Saved
                && settings == Configure(old(settings), guildId.value, role.id)
                && file == Parsed(Dump(settings))
      ensures reply == Saved ==> Loaded(file) == settings
    {
      if guildId.None? {
        return NotInGuild;
      }
      if botTopRank.Some? && role.rank >= botTopRank.value {
        return RoleAboveBot;
      }
      settings := settings[GuildKey(guildId.value) := role.id];
      file := Parsed(Dump(settings));
      ReloadDump(settings);
      reply := Saved;
    }
  }
}
