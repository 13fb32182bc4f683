/** Option type shared by the bot's modules, and the identifier types of the chat platform. */
module Wrappers {

  datatype Option<+T> = None | Some(value: T) {
    function GetOr(default: T): T {
      match this
      case Some(v) => v
      case None => default
    }
  }

  /** Platform snowflakes are plain integers. */
  type UserId = int
  type GuildId = int
  type ChannelId = int
}
