/** The configuration records the core reads (src/config.rs), as plain values. */
module Config {
  import opened Wrappers
  import opened Decimal

  datatype PlexConfig = PlexConfig(
    domain: string,
    ssl: bool,
    port: U16,
    plexToken: string,
    certificateUuid: string,
    libraries: seq<string>)

  datatype DiscordBotConfig = DiscordBotConfig(
    botToken: string,
    msgChannelId: U64,
    pingUserId: Option<U64>)

  datatype PingerConfig = PingerConfig(
    plex: PlexConfig,
    discordBot: DiscordBotConfig,
    pingerIntervalSeconds: U64,
    pingerReminderSeconds: U64)
}
