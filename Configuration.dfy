/** The plugin's stored settings: one entry per configured user. */
module Configuration {
  import opened Wrappers
  import opened Host

  /** `RunScriptsUser`: a user and the two optional command strings. */
  datatype RunScriptsUser = RunScriptsUser(
    userId: Guid,
    cmdPlaybackStart: Option<string>,
    cmdPlaybackStopped: Option<string>)

  /** `PluginConfiguration`: the array of user entries, which may be null. */
  datatype PluginConfiguration = PluginConfiguration(runScriptsUsers: Option<seq<RunScriptsUser>>)

  /** `users[k]` is the first entry for `id`. */
  ghost predicate IsFirstFor(users: seq<RunScriptsUser>, id: Guid, k: int)
  {
    0 <= k < |users| && users[k].userId == id
    && forall j :: 0 <= j < k ==> users[j].userId != id
  }

  /** `users.FirstOrDefault(u => u.UserId.Equals(id))`. */
  function FirstForUser(users: seq<RunScriptsUser>, id: Guid): (r: Option<RunScriptsUser>)
    ensures r.Some? <==> exists k :: 0 <= k < |users| && users[k].userId == id
    ensures r.Some? ==> exists k :: IsFirstFor(users, id, k) && r.value == users[k]
    decreases |users|
  {
    if users == [] then None
    else if users[0].userId == id then Some(users[0])
    else
      var r := FirstForUser(users[1..], id);
      assert forall k :: 1 <= k < |users| ==> users[k] == users[1..][k - 1];
      assert r.Some? ==> exists k :: IsFirstFor(users, id, k) && r.value == users[k] by {
        if r.Some? {
          var k :| IsFirstFor(users[1..], id, k) && r.value == users[1..][k];
          assert IsFirstFor(users, id, k + 1);
        }
      }
      r
  }
}
