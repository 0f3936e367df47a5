/** The event handlers of the current revision (`PlaybackStart`,
    `PlaybackStopped`) and the configuration lookup they use. For each user
    of the event the handler either skips the user or hands an executable,
    its arguments and the script environment to the process runner; every
    exception after the skip tests is caught, so the next user is handled
    whatever happened. */
module RunScripts {
  import opened Wrappers
  import opened Strings
  import opened Host
  import opened Configuration
  import opened CommandLine
  import opened ScriptEnv

  /** `GetUserConfig`. `instance` stands for `Plugin.Instance.Configuration`,
      `None` when `Plugin.Instance` is null. */
  function GetUserConfig(instance: Option<PluginConfiguration>, userId: Guid): (r: Option<RunScriptsUser>)
    ensures r.Some? <==> instance.Some? && instance.value.runScriptsUsers.Some?
                         && exists k :: 0 <= k < |instance.value.runScriptsUsers.value|
                                        && instance.value.runScriptsUsers.value[k].userId == userId
    ensures r.Some? ==> exists k :: IsFirstFor(instance.value.runScriptsUsers.value, userId, k)
                                    && r.value == instance.value.runScriptsUsers.value[k]
  {
    if instance.None? || instance.value.runScriptsUsers.None? then None
    else FirstForUser(instance.value.runScriptsUsers.value, userId)
  }

  /** The event a handler was called with. */
  datatype Trigger = Started(start: PlaybackProgressEvent) | Stopped(stop: PlaybackStopEvent)

  function Users(t: Trigger): seq<User>
  {
    match t
    case Started(e) => e.users
    case Stopped(e) => e.progress.users
  }

  /** The command a user configured for this kind of event. */
  function CommandFor(config: RunScriptsUser, t: Trigger): Option<string>
  {
    if t.Started? then config.cmdPlaybackStart else config.cmdPlaybackStopped
  }

  /** The record serialized into `EVENT_ARGS` for this event. */
  function Environment(t: Trigger): RunScriptsEnv
  {
    match t
    case Started(e) => GetScriptEnvStart(e)
    case Stopped(e) => GetScriptEnvStop(e)
  }

  /** What the handler does for one user. `Invoked` carries what is passed to
      `Command.Run`; `CommandFailed` is the caught exception of reading the
      first token of an empty token list. */
  datatype UserOutcome =
    | NoConfiguration
    | NoCommand
    | CommandFailed
    | Invoked(executable: string, arguments: Option<seq<string>>, env: RunScriptsEnv)

  /** The executable followed by its arguments. */
  function Argv(o: UserOutcome): seq<string>
    requires o.Invoked?
  {
    [o.executable] + (if o.arguments.Some? then o.arguments.value else [])
  }

  /** One iteration of the handler's loop. A user is skipped when it has no
      configuration or no command for this event; otherwise the command is
      tokenized, the first token is the executable and the rest, if any, the
      arguments (null when there are none). */
  function OutcomeFor(instance: Option<PluginConfiguration>, user: User, t: Trigger): (o: UserOutcome)
    ensures o.NoConfiguration? <==> GetUserConfig(instance, user.id).None?
    ensures o.NoCommand? <==> GetUserConfig(instance, user.id).Some?
                              && IsNullOrEmpty(CommandFor(GetUserConfig(instance, user.id).value, t))
    ensures o.CommandFailed? || o.Invoked? ==> GetUserConfig(instance, user.id).Some?
                                               && !IsNullOrEmpty(CommandFor(GetUserConfig(instance, user.id).value, t))
    ensures o.CommandFailed? ==> Parse(CommandFor(GetUserConfig(instance, user.id).value, t).value) == []
    ensures o.Invoked? ==> Argv(o) == Parse(CommandFor(GetUserConfig(instance, user.id).value, t).value)
                           && o.env == Environment(t)
                           && (o.arguments.None? <==> |Argv(o)| == 1)
                           && o.executable != ""
  {
    var userConfig := GetUserConfig(instance, user.id);
    if userConfig.None? then NoConfiguration
    else
      var command := CommandFor(userConfig.value, t);
      if IsNullOrEmpty(command) then NoCommand
      else
        var commandLine := Parse(command.value);
        NoEmptyTokens(command.value);
        if |commandLine| == 0 then CommandFailed
        else
          var o := Invoked(commandLine[0], if |commandLine| > 1 then Some(commandLine[1..]) else None, Environment(t));
          assert Argv(o) == commandLine;
          o
  }

  /** `PlaybackStart` and `PlaybackStopped`: the loop over the event's users,
      with `continue` for the skipped ones. */
  method Dispatch(instance: Option<PluginConfiguration>, t: Trigger) returns (outcomes: seq<UserOutcome>)
    ensures |outcomes| == |Users(t)|
    ensures forall k :: 0 <= k < |outcomes| ==> outcomes[k] == OutcomeFor(instance, Users(t)[k], t)
  {
    outcomes := [];
    var users := Users(t);
    for k := 0 to |users|
      invariant |outcomes| == k
      invariant forall j :: 0 <= j < k ==> outcomes[j] == OutcomeFor(instance, users[j], t)
    {
      var user := users[k];
      var userConfig := GetUserConfig(instance, user.id);
      if userConfig.None? {
        outcomes := outcomes + [NoConfiguration];
        continue;
      }
      var command := CommandFor(userConfig.value, t);
      if IsNullOrEmpty(command) {
        outcomes := outcomes + [NoCommand];
        continue;
      }
      var commandLine := ParseCommandLine(command.value);
      var scriptEnv := Environment(t);
      if |commandLine| == 0 {
        // `commandLine[0]` throws inside the `try`; the exception is caught.
        outcomes := outcomes + [CommandFailed];
        continue;
      }
      var arguments := if |commandLine| > 1 then Some(commandLine[1..]) else None;
      outcomes := outcomes + [Invoked(commandLine[0], arguments, scriptEnv)];
    }
  }

  /** A command made only of spaces passes the emptiness test but yields no
      token, so running it fails and is caught. */
  lemma BlankCommandFails(instance: Option<PluginConfiguration>, user: User, t: Trigger)
    requires GetUserConfig(instance, user.id).Some?
    requires var c := CommandFor(GetUserConfig(instance, user.id).value, t);
      c.Some? && c.value != "" && forall k :: 0 <= k < |c.value| ==> c.value[k] == ' '
    ensures OutcomeFor(instance, user, t) == CommandFailed
  {
    BlankGivesNoTokens(CommandFor(GetUserConfig(instance, user.id).value, t).value);
  }

  /** A command written as escaped, space-separated arguments runs exactly
      those arguments. */
  lemma QuotedCommandRunsAsWritten(instance: Option<PluginConfiguration>, user: User, t: Trigger, args: seq<string>)
    requires |args| >= 1 && forall k :: 0 <= k < |args| ==> args[k] != ""
    requires GetUserConfig(instance, user.id).Some?
    requires CommandFor(GetUserConfig(instance, user.id).value, t) == Some(Quote(args))
    ensures OutcomeFor(instance, user, t).Invoked?
    ensures Argv(OutcomeFor(instance, user, t)) == args
  {
    ParseQuote(args);
    assert |Quote(args)| > 0 by {
      if |args| > 1 {
        assert Quote(args) == EscapeAll(args[0]) + " " + Quote(args[1..]);
      }
    }
  }
}
