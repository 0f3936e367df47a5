/** The host media server's types that the plugin reads: users, sessions,
    queued items with their media sources, and the two playback events.
    Only the fields the modelled logic reads are kept; the user name, read
    only for log lines, is left out with the logging. */
module Host {
  import opened Wrappers

  /** A `System.Guid`, kept as an opaque number. */
  type Guid = nat

  /** A user taking part in a playback event. */
  datatype User = User(id: Guid)

  /** One concrete file or stream version of an item (`MediaSourceInfo`). */
  datatype MediaSource = MediaSource(id: Option<string>)

  /** An item of the session's play queue with its media sources. */
  datatype QueueItem = QueueItem(mediaSources: seq<MediaSource>)

  /** The item being played (`BaseItemDto`). */
  datatype MediaInfo = MediaInfo(runTimeTicks: Option<int>)

  /** The playing client session (`SessionInfo`). */
  datatype SessionInfo = SessionInfo(
    userId: Guid,
    userName: Option<string>,
    id: Option<string>,
    deviceId: Option<string>,
    deviceName: Option<string>,
    client: Option<string>,
    nowPlayingQueueFullItems: seq<QueueItem>)

  /** `PlaybackProgressEventArgs`, the argument of a playback-start event. */
  datatype PlaybackProgressEvent = PlaybackProgressEvent(
    users: seq<User>,
    session: SessionInfo,
    mediaSourceId: Option<string>,
    mediaInfo: MediaInfo,
    playbackPositionTicks: Option<int>)

  /** `PlaybackStopEventArgs`: a progress event plus the completion flag. */
  datatype PlaybackStopEvent = PlaybackStopEvent(progress: PlaybackProgressEvent, playedToCompletion: bool)
}
