/**
 The payload records the view models pass around. Only what the view models
 read is kept: a character's `id` and `episodeList`. Episodes and favourite
 rows are passed through unread, so only their ids are kept to tell them apart.
 */
module Payloads {
  import opened KotlinTypes

  /** A character as returned by the remote source. */
  datatype CharacterServer = CharacterServer(id: Int32, episodeList: seq<string>)

  /** An episode as returned by the remote source. */
  datatype EpisodeServer = EpisodeServer(id: Int32)

  /** A row of the local favourite store. */
  datatype CharacterEntity = CharacterEntity(id: Int32)
}
