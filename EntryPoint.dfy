/** The older revision of the event handlers (`EntryPoint.cs`): the command
    string is cut at every space, and the serialized event is passed through
    a password filter before it reaches the script. */
module EntryPoint {
  import opened Wrappers
  import opened Strings
  import opened Host
  import opened Configuration

  /** The opening of a password property in the serialized event. */
  const PasswordKey: string := "\"Password\":\""

  /** The pattern `"Password":".+?",` matches exactly the first `n`
      characters of `s`: the key, at least one character other than a
      newline, then a double quote and a comma. */
  ghost predicate MatchesAt(s: string, n: int)
  {
    15 <= n <= |s| && s[..12] == PasswordKey && s[n - 2] == '"' && s[n - 1] == ','
    && forall k :: 12 <= k < n - 2 ==> s[k] != '\n'
  }

  /** The lazy `.+?`: extend the password one character at a time, and stop
      at the first closing `",`. `n` is the next match length to try. */
  function ShortestMatchFrom(s: string, n: nat): (r: Option<nat>)
    requires |s| >= 12 && s[..12] == PasswordKey && 15 <= n <= |s| + 1
    requires forall k :: 12 <= k < n - 3 ==> s[k] != '\n'
    requires forall m :: m < n ==> !MatchesAt(s, m)
    ensures r.Some? ==> MatchesAt(s, r.value) && forall m :: m < r.value ==> !MatchesAt(s, m)
    ensures r.None? ==> forall m :: !MatchesAt(s, m)
    decreases |s| - n
  {
    if n > |s| then None
    else if s[n - 3] == '\n' then
      assert forall m :: m >= n ==> !MatchesAt(s, m) by {
        forall m | m >= n ensures !MatchesAt(s, m) {
          assert 12 <= n - 3 < m - 2;
        }
      }
      None
    else if s[n - 2] == '"' && s[n - 1] == ',' then Some(n)
    else ShortestMatchFrom(s, n + 1)
  }

  /** The length of the match that starts at the front of `s`, if any: the
      shortest one. */
  function MatchLength(s: string): (r: Option<nat>)
    ensures r.Some? ==> MatchesAt(s, r.value) && forall m :: m < r.value ==> !MatchesAt(s, m)
    ensures r.None? ==> forall m :: !MatchesAt(s, m)
  {
    if |s| >= 15 && s[..12] == PasswordKey then ShortestMatchFrom(s, 15) else None
  }

  /** `stripPasswords`: `Regex.Replace` of `"Password":".+?",` by nothing.
      Matches are searched left to right; each one is deleted and the search
      resumes after it, so matches never overlap. */
  function StripPasswords(s: string): (r: string)
    ensures |r| <= |s|
    decreases |s|
  {
    if s == [] then []
    else match MatchLength(s)
      case Some(n) => StripPasswords(s[n..])
      case None => [s[0]] + StripPasswords(s[1..])
  }

  /** Some position of `s` starts a match. */
  ghost predicate HasPassword(s: string)
  {
    exists p, n :: 0 <= p <= |s| && MatchesAt(s[p..], n)
  }

  /** The filter changes its input exactly when a match occurs somewhere,
      and then the result is strictly shorter. */
  lemma {:induction false} StripChangesIffMatch(s: string)
    ensures StripPasswords(s) == s <==> !HasPassword(s)
    ensures HasPassword(s) ==> |StripPasswords(s)| < |s|
    decreases |s|
  {
    if s == [] {
      assert !HasPassword(s) by {
        forall p, n | 0 <= p <= |s| ensures !MatchesAt(s[p..], n) {}
      }
    } else {
      match MatchLength(s)
      case Some(n) =>
        assert s[0..] == s;
        assert HasPassword(s);
      case None =>
        StripChangesIffMatch(s[1..]);
        assert HasPassword(s) <==> HasPassword(s[1..]) by {
          if HasPassword(s) {
            var p, n :| 0 <= p <= |s| && MatchesAt(s[p..], n);
            assert p != 0 by { assert s[0..] == s; }
            assert s[p..] == s[1..][p - 1..];
          }
          if HasPassword(s[1..]) {
            var p, n :| 0 <= p <= |s[1..]| && MatchesAt(s[1..][p..], n);
            assert s[1..][p..] == s[p + 1..];
          }
        }
        assert s == [s[0]] + s[1..];
    }
  }

  /** `"Password":"` occurs in `s` at position `p`. */
  predicate KeyAt(s: string, p: int)
  {
    0 <= p && p + 12 <= |s| && s[p..p + 12] == PasswordKey
  }

  /** Text that never contains `"Password":"` is passed through unchanged. */
  lemma NoKeyUnchanged(s: string)
    requires forall p :: !KeyAt(s, p)
    ensures StripPasswords(s) == s
  {
    StripChangesIffMatch(s);
    assert !HasPassword(s) by {
      forall p, n | 0 <= p <= |s| ensures !MatchesAt(s[p..], n) {
        if p + 12 <= |s| {
          assert !KeyAt(s, p);
          assert s[p..][..12] == s[p..p + 12];
        }
      }
    }
  }

  /** `v` has no `",` at any position from 1 on: such a pair at position 0
      could only close an empty password, which the pattern refuses. */
  predicate NoCloseAfterFirst(v: string)
  {
    forall i :: 1 <= i < |v| - 1 ==> !(v[i] == '"' && v[i + 1] == ',')
  }

  /** A password field whose value `v` has no newline and no later `",` is
      removed whole, and filtering goes on with what follows it. */
  lemma RedactsField(v: string, rest: string)
    requires v != "" && '\n' !in v && NoCloseAfterFirst(v)
    ensures StripPasswords(PasswordKey + v + "\"," + rest) == StripPasswords(rest)
  {
    var s := PasswordKey + v + "\"," + rest;
    var n := 14 + |v|;
    assert s[..12] == PasswordKey;
    assert forall k :: 12 <= k < 12 + |v| ==> s[k] == v[k - 12];
    assert s[12 + |v|] == '"' && s[13 + |v|] == ',';
    assert MatchesAt(s, n) by {
      forall k | 12 <= k < n - 2 ensures s[k] != '\n' {
        assert v[k - 12] in v;
      }
    }
    forall m | m < n ensures !MatchesAt(s, m) {
      if 15 <= m < n && m - 1 < 12 + |v| {
        assert !(v[m - 14] == '"' && v[m - 13] == ',');
      }
    }
    assert MatchLength(s) == Some(n);
    assert s[n..] == rest;
  }

  /** An empty password `"Password":"",` is not a match by itself: the
      pattern needs at least one character, so the match runs on to the next
      `",` and swallows the following field. */
  lemma EmptyPasswordSwallowsNextField(w: string, rest: string)
    requires '\n' !in w && NoCloseAfterFirst("\"," + w)
    ensures StripPasswords(PasswordKey + "\"," + w + "\"," + rest) == StripPasswords(rest)
  {
    assert '\n' !in "\"," + w by {
      assert forall k :: 2 <= k < 2 + |w| ==> ("\"," + w)[k] == w[k - 2];
    }
    RedactsField("\"," + w, rest);
    assert PasswordKey + ("\"," + w) + "\"," + rest == PasswordKey + "\"," + w + "\"," + rest;
  }

  /** On its own, an empty password field is left in place. */
  lemma EmptyPasswordAloneKept()
    ensures StripPasswords(PasswordKey + "\",") == PasswordKey + "\","
  {
    var s := PasswordKey + "\",";
    StripChangesIffMatch(s);
    assert !HasPassword(s) by {
      forall p, n | 0 <= p <= |s| ensures !MatchesAt(s[p..], n) {}
    }
  }

  /** A configured user's command as the older revision passes it to
      `Command.Run`: the text before the first space, then every other
      space-separated piece, empty pieces included. */
  datatype LegacyOutcome =
    | NoConfiguration
    | NoCommand
    | Invoked(executable: string, arguments: seq<string>, eventArgs: string)

  /** The exception `getUserConfig` lets escape when `Plugin.Instance` is null. */
  datatype Exception = NullReference

  /** `getUserConfig`: unlike the current revision it does not test
      `Plugin.Instance` (`None` here) for null, and dereferencing it throws. */
  function GetUserConfig(instance: Option<PluginConfiguration>, userId: Guid): (r: Result<Option<RunScriptsUser>, Exception>)
    ensures r.Failure? <==> instance.None?
    ensures r.Success? ==>
      (r.value.Some? <==>
        (instance.value.runScriptsUsers.Some?
         && exists k :: 0 <= k < |instance.value.runScriptsUsers.value|
                        && instance.value.runScriptsUsers.value[k].userId == userId))
    ensures r.Success? && r.value.Some? ==>
      exists k :: IsFirstFor(instance.value.runScriptsUsers.value, userId, k)
                  && r.value.value == instance.value.runScriptsUsers.value[k]
  {
    if instance.None? then Failure(NullReference)
    else if instance.value.runScriptsUsers.None? then Success(None)
    else Success(FirstForUser(instance.value.runScriptsUsers.value, userId))
  }

  datatype Kind = Start | Stop

  function CommandFor(config: RunScriptsUser, kind: Kind): Option<string>
  {
    if kind == Start then config.cmdPlaybackStart else config.cmdPlaybackStopped
  }

  /** One iteration of the handler's loop, once the configuration is
      readable. `eventJson` is the host serializer's text for the event. */
  function LegacyOutcomeFor(config: PluginConfiguration, user: User, kind: Kind, eventJson: string): (o: LegacyOutcome)
    ensures o.NoConfiguration? <==> GetUserConfig(Some(config), user.id) == Success(None)
    ensures o.NoCommand? <==> exists c :: GetUserConfig(Some(config), user.id) == Success(Some(c))
                                          && IsNullOrEmpty(CommandFor(c, kind))
    ensures o.Invoked? ==> exists c :: GetUserConfig(Some(config), user.id) == Success(Some(c))
                                       && !IsNullOrEmpty(CommandFor(c, kind))
                                       && Join([o.executable] + o.arguments, ' ') == CommandFor(c, kind).value
                                       && [o.executable] + o.arguments == Split(CommandFor(c, kind).value, ' ')
    ensures o.Invoked? ==> ' ' !in o.executable && o.eventArgs == StripPasswords(eventJson)
  {
    var userConfig := GetUserConfig(Some(config), user.id).value;
    if userConfig.None? then NoConfiguration
    else
      var command := CommandFor(userConfig.value, kind);
      if IsNullOrEmpty(command) then NoCommand
      else
        var pieces := Split(command.value, ' ');
        JoinSplit(command.value, ' ');
        assert [pieces[0]] + pieces[1..] == pieces;
        Invoked(pieces[0], pieces[1..], StripPasswords(eventJson))
  }

  /** `PlaybackStart` and `PlaybackStopped` of the older revision. When
      `Plugin.Instance` is null the first user's lookup throws outside the
      `try`, and the handler stops with nothing run (`aborted`). */
  method Dispatch(instance: Option<PluginConfiguration>, users: seq<User>, kind: Kind, eventJson: string)
    returns (outcomes: seq<LegacyOutcome>, aborted: bool)
    ensures aborted <==> instance.None? && |users| > 0
    ensures aborted ==> outcomes == []
    ensures !aborted ==> |outcomes| == |users|
    ensures instance.Some? ==> forall k :: 0 <= k < |outcomes| ==>
      outcomes[k] == LegacyOutcomeFor(instance.value, users[k], kind, eventJson)
  {
    outcomes := [];
    aborted := false;
    for k := 0 to |users|
      invariant |outcomes| == k && !aborted
      invariant instance.None? ==> k == 0
      invariant instance.Some? ==> forall j :: 0 <= j < k ==>
        outcomes[j] == LegacyOutcomeFor(instance.value, users[j], kind, eventJson)
    {
      var user := users[k];
      var lookup := GetUserConfig(instance, user.id);
      if lookup.Failure? {
        aborted := true;
        return;
      }
      var userConfig := lookup.value;
      if userConfig.None? {
        outcomes := outcomes + [NoConfiguration];
        continue;
      }
      var command := CommandFor(userConfig.value, kind);
      if IsNullOrEmpty(command) {
        outcomes := outcomes + [NoCommand];
        continue;
      }
      var pieces := Split(command.value, ' ');
      outcomes := outcomes + [Invoked(pieces[0], pieces[1..], StripPasswords(eventJson))];
    }
  }
}
