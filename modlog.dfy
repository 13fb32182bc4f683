/**
 * The log-channel collection of `setlogschannel` (main.py:451-461) and the
 * routing of `send_mod_log` (main.py:124-141).
 */
module ModLog {
  import opened Wrappers

  datatype Action = Kick | Ban | Unban | Timeout | TimeoutRemoved | Warn

  /** What goes into the log embed, formatting aside; the timestamp is the clock's business. */
  datatype LogEntry = LogEntry(channel: ChannelId, action: Action, user: UserId, reason: string, moderator: UserId)

  const NoReason: string := "No reason provided"

  /** `reason or "No reason provided"`: a missing or empty reason is replaced, any other is kept. */
  function ReasonOrDefault(reason: Option<string>): (r: string)
    ensures r != ""
    ensures reason.Some? && reason.value != "" ==> r == reason.value
    ensures reason.None? || reason == Some("") ==> r == NoReason
  {
    if reason.Some? && reason.value != "" then reason.value else NoReason
  }

  class LogChannels {
    /** One mapping per guild. */
    var channels: map<GuildId, ChannelId>

    constructor ()
      ensures channels == map[]
    {
      channels := map[];
    }

    /** `setlogschannel`: an upsert, so the last write for a guild wins; no channel is a usage error. */
    method SetLogsChannel(guild: GuildId, channel: Option<ChannelId>) returns (ok: bool)
      modifies this
      ensures ok <==> channel.Some?
      ensures ok ==> channels == old(channels)[guild := channel.value]
      ensures !ok ==> channels == old(channels)
    {
      if channel.None? {
        return false;
      }
      channels := channels[guild := channel.value];
      ok := true;
    }

    /**
     * `send_mod_log`: an entry is sent only when the guild has a mapping and
     * the mapped channel resolves among the guild's channels.
     */
    method SendModLog(guild: GuildId, guildChannels: set<ChannelId>, user: UserId, action: Action,
                      reason: Option<string>, moderator: UserId)
      returns (sent: Option<LogEntry>)
      ensures sent.Some? <==> guild in channels && channels[guild] in guildChannels
      ensures sent.Some? ==> sent.value == LogEntry(channels[guild], action, user, ReasonOrDefault(reason), moderator)
    {
      sent := None;
      if guild in channels {
        var channel := channels[guild];
        if channel in guildChannels {
          sent := Some(LogEntry(channel, action, user, ReasonOrDefault(reason), moderator));
        }
      }
    }
  }
}
