/** How the two revisions of the handlers compare on the same configuration. */
module Revisions {
  import opened Wrappers
  import opened Strings
  import opened Host
  import opened Configuration
  import CommandLine
  import RunScripts
  import EntryPoint

  /** A list without empty pieces loses nothing to `RemoveEmpty`. */
  lemma {:induction false} RemoveEmptyKeepsNonEmpty(pieces: seq<string>)
    requires forall k :: 0 <= k < |pieces| ==> pieces[k] != ""
    ensures RemoveEmpty(pieces) == pieces
    decreases |pieces|
  {
    if pieces != [] {
      RemoveEmptyKeepsNonEmpty(pieces[1..]);
      assert pieces == [pieces[0]] + pieces[1..];
    }
  }

  /** The user lookup is the same in both revisions while `Plugin.Instance`
      is set; when it is null the older one throws and the newer one finds
      nothing. */
  lemma SameUserLookup(instance: Option<PluginConfiguration>, userId: Guid)
    ensures instance.Some? ==> EntryPoint.GetUserConfig(instance, userId) == Success(RunScripts.GetUserConfig(instance, userId))
    ensures instance.None? ==> EntryPoint.GetUserConfig(instance, userId).Failure?
                               && RunScripts.GetUserConfig(instance, userId).None?
  {
  }

  /** For a command without quotes and backslashes, the newer tokenizer gives
      the older `Split(" ")` pieces minus the empty ones; when the command has
      no leading, trailing or doubled space the two argument vectors agree. */
  lemma PlainCommandsAgree(command: string)
    requires CommandLine.Plain(command)
    ensures CommandLine.Parse(command) == RemoveEmpty(Split(command, ' '))
    ensures (forall k :: 0 <= k < |Split(command, ' ')| ==> Split(command, ' ')[k] != "")
            ==> CommandLine.Parse(command) == Split(command, ' ')
  {
    CommandLine.PlainSplitsOnSpaces(command);
    if forall k :: 0 <= k < |Split(command, ' ')| ==> Split(command, ' ')[k] != "" {
      RemoveEmptyKeepsNonEmpty(Split(command, ' '));
    }
  }

  /** The older revision's handler for the same event. */
  function KindOf(t: RunScripts.Trigger): EntryPoint.Kind
  {
    if t.Started? then EntryPoint.Start else EntryPoint.Stop
  }

  /** For either event and a configured, plain command with single spaces,
      both revisions run the same executable with the same arguments. */
  lemma SameInvocationForPlainCommand(config: PluginConfiguration, user: User, t: RunScripts.Trigger, eventJson: string)
    requires RunScripts.GetUserConfig(Some(config), user.id).Some?
    requires var c := RunScripts.CommandFor(RunScripts.GetUserConfig(Some(config), user.id).value, t);
      c.Some? && c.value != "" && CommandLine.Plain(c.value)
      && forall k :: 0 <= k < |Split(c.value, ' ')| ==> Split(c.value, ' ')[k] != ""
    ensures RunScripts.OutcomeFor(Some(config), user, t).Invoked?
    ensures EntryPoint.LegacyOutcomeFor(config, user, KindOf(t), eventJson).Invoked?
    ensures var o := EntryPoint.LegacyOutcomeFor(config, user, KindOf(t), eventJson);
      RunScripts.Argv(RunScripts.OutcomeFor(Some(config), user, t)) == [o.executable] + o.arguments
  {
    var c := RunScripts.CommandFor(RunScripts.GetUserConfig(Some(config), user.id).value, t).value;
    PlainCommandsAgree(c);
    SameUserLookup(Some(config), user.id);
  }
}
