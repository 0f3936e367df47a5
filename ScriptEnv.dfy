/** The record handed to a script in the `EVENT_ARGS` variable by the current
    revision (`RunScriptsEnv`), and how it is filled from a playback event:
    `GetPlayingVersion`, `GetScriptEnvStart` and `GetScriptEnvStop`. */
module ScriptEnv {
  import opened Wrappers
  import opened Host

  /** The playback percentage: the position divided by the run time as
      doubles. The division is not evaluated; only its operands are kept. */
  datatype Percentage = Ratio(positionTicks: int, runTimeTicks: int)

  /** `RunScriptsEnv`: every field is nullable and starts out null. */
  datatype RunScriptsEnv = RunScriptsEnv(
    userId: Option<Guid>,
    userName: Option<string>,
    sessionId: Option<string>,
    deviceId: Option<string>,
    deviceName: Option<string>,
    clientName: Option<string>,
    mediaSource: Option<MediaSource>,
    mediaInfo: Option<MediaInfo>,
    playedToCompletion: Option<bool>,
    playbackPositionTicks: Option<int>,
    playbackPercentage: Option<Percentage>)

  /** Source `j` of queue item `i` exists and carries the identifier `id`
      (two null identifiers are equal, as in C#). */
  ghost predicate SourceMatches(items: seq<QueueItem>, id: Option<string>, i: int, j: int)
  {
    0 <= i < |items| && 0 <= j < |items[i].mediaSources| && items[i].mediaSources[j].id == id
  }

  /** Source `j` of item `i` is the first match, items in queue order and
      each item's sources in order. */
  ghost predicate IsFirstMatch(items: seq<QueueItem>, id: Option<string>, i: int, j: int)
  {
    SourceMatches(items, id, i, j)
    && forall i', j' :: SourceMatches(items, id, i', j') ==> i < i' || (i == i' && j <= j')
  }

  /** The first of `sources` whose identifier is `id`. */
  function FirstSource(sources: seq<MediaSource>, id: Option<string>): (r: Option<MediaSource>)
    ensures r.Some? <==> exists j :: 0 <= j < |sources| && sources[j].id == id
    ensures r.Some? ==> exists j :: 0 <= j < |sources| && sources[j] == r.value && sources[j].id == id
                                    && forall j' :: 0 <= j' < j ==> sources[j'].id != id
    decreases |sources|
  {
    if sources == [] then None
    else if sources[0].id == id then Some(sources[0])
    else
      var r := FirstSource(sources[1..], id);
      assert forall j :: 1 <= j < |sources| ==> sources[j] == sources[1..][j - 1];
      assert r.Some? ==> exists j :: 0 <= j < |sources| && sources[j] == r.value && sources[j].id == id
                                     && forall j' :: 0 <= j' < j ==> sources[j'].id != id by {
        if r.Some? {
          var j :| 0 <= j < |sources[1..]| && sources[1..][j] == r.value && sources[1..][j].id == id
                   && forall j' :: 0 <= j' < j ==> sources[1..][j'].id != id;
          assert sources[j + 1] == r.value;
        }
      }
      r
  }

  /** The media source being played: the first source, over the queue items
      in order, whose identifier equals the event's `MediaSourceId`. */
  function PlayingVersion(items: seq<QueueItem>, id: Option<string>): (r: Option<MediaSource>)
    ensures r.Some? <==> exists i, j :: SourceMatches(items, id, i, j)
    ensures r.Some? ==> exists i, j :: IsFirstMatch(items, id, i, j) && r.value == items[i].mediaSources[j]
    decreases |items|
  {
    if items == [] then None
    else
      var here := FirstSource(items[0].mediaSources, id);
      if here.Some? then
        assert exists i, j :: IsFirstMatch(items, id, i, j) && here.value == items[i].mediaSources[j] by {
          var j :| 0 <= j < |items[0].mediaSources| && items[0].mediaSources[j] == here.value
                   && items[0].mediaSources[j].id == id
                   && forall j' :: 0 <= j' < j ==> items[0].mediaSources[j'].id != id;
          assert IsFirstMatch(items, id, 0, j);
        }
        here
      else
        var r := PlayingVersion(items[1..], id);
        assert forall i, j :: SourceMatches(items, id, i, j) <==> i >= 1 && SourceMatches(items[1..], id, i - 1, j);
        assert r.Some? ==> exists i, j :: IsFirstMatch(items, id, i, j) && r.value == items[i].mediaSources[j] by {
          if r.Some? {
            var i, j :| IsFirstMatch(items[1..], id, i, j) && r.value == items[1..][i].mediaSources[j];
            assert IsFirstMatch(items, id, i + 1, j);
          }
        }
        assert r.Some? <==> exists i, j :: SourceMatches(items, id, i, j) by {
          if exists i, j :: SourceMatches(items, id, i, j) {
            var i, j :| SourceMatches(items, id, i, j);
            assert SourceMatches(items[1..], id, i - 1, j);
          }
        }
        r
  }

  /** `GetPlayingVersion` as the source writes it: nested loops over the queue
      items and their sources, returning at the first match. */
  method GetPlayingVersion(e: PlaybackProgressEvent) returns (r: Option<MediaSource>)
    ensures r.Some? ==> r.value.id == e.mediaSourceId
    ensures r.Some? ==> exists i, j :: IsFirstMatch(e.session.nowPlayingQueueFullItems, e.mediaSourceId, i, j)
                                       && r.value == e.session.nowPlayingQueueFullItems[i].mediaSources[j]
    ensures r.None? <==> forall i, j :: !SourceMatches(e.session.nowPlayingQueueFullItems, e.mediaSourceId, i, j)
    ensures r == PlayingVersion(e.session.nowPlayingQueueFullItems, e.mediaSourceId)
  {
    var mediaSourceId := e.mediaSourceId;
    var items := e.session.nowPlayingQueueFullItems;
    for i := 0 to |items|
      invariant forall i', j' :: SourceMatches(items, mediaSourceId, i', j') ==> i' >= i
    {
      var sources := items[i].mediaSources;
      for j := 0 to |sources|
        invariant forall i', j' :: SourceMatches(items, mediaSourceId, i', j') ==> i' > i || (i' == i && j' >= j)
      {
        if sources[j].id == mediaSourceId {
          r := Some(sources[j]);
          assert IsFirstMatch(items, mediaSourceId, i, j);
          return;
        }
      }
    }
    r := None;
  }

  /** `GetScriptEnvStart`: the session and media fields of the event, the
      playing version, and a percentage only when both tick counts are known
      and the position is positive. The completion flag stays null. */
  function GetScriptEnvStart(e: PlaybackProgressEvent): (env: RunScriptsEnv)
    ensures env.playbackPercentage.Some?
        <==> e.playbackPositionTicks.Some? && e.mediaInfo.runTimeTicks.Some? && e.playbackPositionTicks.value > 0
    ensures env.playbackPercentage.Some?
        ==> env.playbackPercentage.value == Ratio(e.playbackPositionTicks.value, e.mediaInfo.runTimeTicks.value)
    ensures env.playedToCompletion.None?
    ensures env.mediaSource == PlayingVersion(e.session.nowPlayingQueueFullItems, e.mediaSourceId)
    ensures env.userId == Some(e.session.userId) && env.mediaInfo == Some(e.mediaInfo)
    ensures env.userName == e.session.userName && env.sessionId == e.session.id
    ensures env.deviceId == e.session.deviceId && env.deviceName == e.session.deviceName
    ensures env.clientName == e.session.client && env.playbackPositionTicks == e.playbackPositionTicks
  {
    var playbackPercentage :=
      if e.playbackPositionTicks.Some? && e.mediaInfo.runTimeTicks.Some? && e.playbackPositionTicks.value > 0
      then Some(Ratio(e.playbackPositionTicks.value, e.mediaInfo.runTimeTicks.value))
      else None;
    RunScriptsEnv(
      userId := Some(e.session.userId),
      userName := e.session.userName,
      sessionId := e.session.id,
      deviceId := e.session.deviceId,
      deviceName := e.session.deviceName,
      clientName := e.session.client,
      mediaSource := PlayingVersion(e.session.nowPlayingQueueFullItems, e.mediaSourceId),
      mediaInfo := Some(e.mediaInfo),
      playedToCompletion := None,
      playbackPositionTicks := e.playbackPositionTicks,
      playbackPercentage := playbackPercentage)
  }

  /** `GetScriptEnvStop`: the start record with the completion flag set. */
  function GetScriptEnvStop(e: PlaybackStopEvent): (env: RunScriptsEnv)
    ensures env.playedToCompletion == Some(e.playedToCompletion)
    ensures env.(playedToCompletion := None) == GetScriptEnvStart(e.progress)
  {
    GetScriptEnvStart(e.progress).(playedToCompletion := Some(e.playedToCompletion))
  }

  /** The properties of `RunScriptsEnv`; each is written under its own name. */
  datatype Field = UserId | UserName | SessionId | DeviceId | DeviceName | ClientName
                 | MediaSourceField | MediaInfoField | PlayedToCompletion | PlaybackPositionTicks | PlaybackPercentage

  const AllFields: set<Field> := {UserId, UserName, SessionId, DeviceId, DeviceName, ClientName,
    MediaSourceField, MediaInfoField, PlayedToCompletion, PlaybackPositionTicks, PlaybackPercentage}

  /** Field `f` is not null in `env`. */
  predicate IsSet(env: RunScriptsEnv, f: Field)
  {
    match f
    case UserId => env.userId.Some?
    case UserName => env.userName.Some?
    case SessionId => env.sessionId.Some?
    case DeviceId => env.deviceId.Some?
    case DeviceName => env.deviceName.Some?
    case ClientName => env.clientName.Some?
    case MediaSourceField => env.mediaSource.Some?
    case MediaInfoField => env.mediaInfo.Some?
    case PlayedToCompletion => env.playedToCompletion.Some?
    case PlaybackPositionTicks => env.playbackPositionTicks.Some?
    case PlaybackPercentage => env.playbackPercentage.Some?
  }

  /** Which fields of a start record are non-null: the user and the media
      always, the completion flag never, the percentage exactly under its
      guard, and the media source exactly when some queued source carries
      the event's identifier. */
  lemma StartFieldsSet(e: PlaybackProgressEvent)
    ensures var env := GetScriptEnvStart(e);
      && IsSet(env, UserId) && IsSet(env, MediaInfoField)
      && !IsSet(env, PlayedToCompletion)
      && (IsSet(env, PlaybackPercentage)
          <==> e.playbackPositionTicks.Some? && e.mediaInfo.runTimeTicks.Some? && e.playbackPositionTicks.value > 0)
      && (IsSet(env, MediaSourceField)
          <==> exists i, j :: SourceMatches(e.session.nowPlayingQueueFullItems, e.mediaSourceId, i, j))
  {
  }

  /** A stop record has the start record's non-null fields plus the
      completion flag, and no other. */
  lemma StopFieldsSet(e: PlaybackStopEvent)
    ensures forall f :: IsSet(GetScriptEnvStop(e), f) <==> IsSet(GetScriptEnvStart(e.progress), f) || f == PlayedToCompletion
  {
  }

  /** The keys of the JSON object that `JsonSerializer.Serialize(scriptEnv)`
      writes: with no options passed, the default writes every property,
      null or not. */
  function SerializedKeys(env: RunScriptsEnv): (keys: set<Field>)
    ensures forall f :: f in keys
  {
    AllFieldsComplete();
    AllFields
  }

  /** `AllFields` lists every property of the record. */
  lemma AllFieldsComplete()
    ensures forall f: Field :: f in AllFields
  {
    forall f: Field
      ensures f in AllFields
    {
      match f
      case UserId =>
      case UserName =>
      case SessionId =>
      case DeviceId =>
      case DeviceName =>
      case ClientName =>
      case MediaSourceField =>
      case MediaInfoField =>
      case PlayedToCompletion =>
      case PlaybackPositionTicks =>
      case PlaybackPercentage =>
    }
  }

  /** As written, a start payload carries a `PlayedToCompletion` key whose
      value is null, and start and stop payloads have the same keys: the
      null-skipping options are built but never handed to the serializer. */
  lemma StartPayloadWritesNull(e: PlaybackStopEvent)
    ensures PlayedToCompletion in SerializedKeys(GetScriptEnvStart(e.progress))
    ensures !IsSet(GetScriptEnvStart(e.progress), PlayedToCompletion)
    ensures SerializedKeys(GetScriptEnvStart(e.progress)) == SerializedKeys(GetScriptEnvStop(e))
  {
  }

  /** The keys written when the serializer is given the options built for
      it, which skip null values: the fields that are not null. */
  function EmittedKeys(env: RunScriptsEnv): (keys: set<Field>)
    ensures forall f :: f in keys <==> IsSet(env, f)
  {
    set f | f in AllFields && IsSet(env, f)
  }

  /** With null values skipped, a start script finds the user and the media,
      never the completion flag, the percentage exactly under its guard, and
      the media source exactly when some queued source matches. */
  lemma StartKeys(e: PlaybackProgressEvent)
    ensures var keys := EmittedKeys(GetScriptEnvStart(e));
      && UserId in keys && MediaInfoField in keys
      && PlayedToCompletion !in keys
      && (PlaybackPercentage in keys
          <==> e.playbackPositionTicks.Some? && e.mediaInfo.runTimeTicks.Some? && e.playbackPositionTicks.value > 0)
      && (MediaSourceField in keys
          <==> exists i, j :: SourceMatches(e.session.nowPlayingQueueFullItems, e.mediaSourceId, i, j))
  {
    StartFieldsSet(e);
  }

  /** With null values skipped, a stop script sees exactly the start
      script's keys plus the completion flag. */
  lemma StopKeys(e: PlaybackStopEvent)
    ensures EmittedKeys(GetScriptEnvStop(e)) == EmittedKeys(GetScriptEnvStart(e.progress)) + {PlayedToCompletion}
  {
    StopFieldsSet(e);
  }
}
