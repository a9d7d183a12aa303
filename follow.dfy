/**
  Unfollower reconciliation: the accounts the user follows that do not follow
  the user back, from the parsed "following" and "followers" exports.
*/
module Follow {
  import opened Wrappers

  /** One element of `string_list_data`; `value` is `None` when the key is missing. */
  datatype StringItem = StringItem(value: Option<string>)

  /**
    One element of a relationships list; `stringListData` is `None` when the
    entry has no `string_list_data` key.
  */
  datatype UserEntry = UserEntry(stringListData: Option<seq<StringItem>>)

  /** `user['string_list_data'][0]['value']`, `None` where it raises. */
  function Username(u: UserEntry): (r: Option<string>)
    ensures r.Some? <==> u.stringListData.Some? && |u.stringListData.value| > 0
                         && u.stringListData.value[0].value.Some?
  {
    match u.stringListData
    case None => None
    case Some(items) => if items == [] then None else items[0].value
  }

  /** The usernames of the entries, in order; `None` as soon as one entry does not have the expected shape. */
  function Usernames(users: seq<UserEntry>): (r: Option<seq<string>>)
    ensures r.Some? <==> forall i :: 0 <= i < |users| ==> Username(users[i]).Some?
    ensures r.Some? ==> |r.value| == |users|
                        && forall i :: 0 <= i < |users| ==> Username(users[i]) == Some(r.value[i])
  {
    if users == [] then Some([])
    else
      match Username(users[0])
      case None => None
      case Some(name) =>
        match Usernames(users[1..])
        case None => None
        case Some(rest) => Some([name] + rest)
  }

  predicate NoDuplicates(s: seq<string>) {
    forall i, j :: 0 <= i < j < |s| ==> s[i] != s[j]
  }

  /**
    The names of `names` that are not in `excluded`, each once, in order of
    first occurrence.
  */
  function Difference(names: seq<string>, excluded: set<string>): (r: seq<string>)
    ensures NoDuplicates(r)
    ensures forall x :: x in r <==> x in names && x !in excluded
  {
    if names == [] then []
    else if names[0] in excluded then Difference(names[1..], excluded)
    else
      var rest := Difference(names[1..], excluded + {names[0]});
      assert forall x :: x in names <==> x == names[0] || x in names[1..];
      [names[0]] + rest
  }

  /**
    `identify_unfollowers`: `following` holds the entries under
    `relationships_following`, `followers` the top-level list; either is `None`
    when its file cannot be opened or parsed or lacks that shape. Any failure
    gives the empty list.
  */
  function IdentifyUnfollowers(following: Option<seq<UserEntry>>, followers: Option<seq<UserEntry>>): (r: seq<string>)
    ensures NoDuplicates(r)
    ensures following.None? || followers.None? ==> r == []
  {
    if following.None? || followers.None? then []
    else
      match (Usernames(following.value), Usernames(followers.value))
      case (Some(a), Some(b)) => Difference(a, set x | x in b)
      case _ => []
  }

  /** Some entry of `users` carries the username `name`. */
  ghost predicate Carries(users: seq<UserEntry>, name: string) {
    exists i :: 0 <= i < |users| && Username(users[i]) == Some(name)
  }

  lemma UsernamesCarried(users: seq<UserEntry>, names: seq<string>, name: string)
    requires Usernames(users) == Some(names)
    ensures name in names <==> Carries(users, name)
  {
    if name in names {
      var i :| 0 <= i < |names| && names[i] == name;
      assert Username(users[i]) == Some(name);
    }
  }

  /**
    The result is exactly the set difference of the usernames: a name is
    listed when some entry of `following` carries it and no entry of
    `followers` does. When an entry of either list lacks the expected shape,
    the result is empty.
  */
  lemma UnfollowersSpec(following: seq<UserEntry>, followers: seq<UserEntry>, name: string)
    ensures Usernames(following).None? || Usernames(followers).None?
            ==> IdentifyUnfollowers(Some(following), Some(followers)) == []
    ensures Usernames(following).Some? && Usernames(followers).Some?
            ==> (name in IdentifyUnfollowers(Some(following), Some(followers))
                 <==> Carries(following, name) && !Carries(followers, name))
  {
    if Usernames(following).Some? && Usernames(followers).Some? {
      UsernamesCarried(following, Usernames(following).value, name);
      UsernamesCarried(followers, Usernames(followers).value, name);
    }
  }

  /** An entry carrying one username, as the exports write it. */
  function Account(name: string): UserEntry {
    UserEntry(Some([StringItem(Some(name))]))
  }

  lemma AccountUsername(name: string)
    ensures Username(Account(name)) == Some(name)
  {
    var items := [StringItem(Some(name))];
    assert Account(name).stringListData == Some(items) && items[0].value == Some(name);
  }

  lemma UsernamesCons(u: UserEntry, us: seq<UserEntry>)
    requires Username(u).Some? && Usernames(us).Some?
    ensures Usernames([u] + us) == Some([Username(u).value] + Usernames(us).value)
  {
    assert ([u] + us)[0] == u && ([u] + us)[1..] == us;
  }

  /** Following alice, bob and carol, followed by alice and dave: exactly bob and carol do not follow back. */
  lemma UnfollowersExample(name: string)
    ensures name in IdentifyUnfollowers(Some([Account("alice"), Account("bob"), Account("carol")]),
                                         Some([Account("alice"), Account("dave")]))
            <==> name == "bob" || name == "carol"
  {
    var following := [Account("alice"), Account("bob"), Account("carol")];
    var followers := [Account("alice"), Account("dave")];
    AccountUsername("alice");
    AccountUsername("bob");
    AccountUsername("carol");
    AccountUsername("dave");
    UsernamesCons(Account("carol"), []);
    UsernamesCons(Account("bob"), [Account("carol")]);
    UsernamesCons(Account("alice"), [Account("bob"), Account("carol")]);
    assert following == [Account("alice")] + [Account("bob"), Account("carol")];
    UsernamesCons(Account("dave"), []);
    UsernamesCons(Account("alice"), [Account("dave")]);
    assert followers == [Account("alice")] + [Account("dave")];
    assert Usernames(following) == Some(["alice", "bob", "carol"]) by {
      assert [Username(Account("carol")).value] + [] == ["carol"];
      assert ["bob"] + ["carol"] == ["bob", "carol"];
      assert ["alice"] + ["bob", "carol"] == ["alice", "bob", "carol"];
    }
    assert Usernames(followers) == Some(["alice", "dave"]) by {
      assert ["dave"] + [] == ["dave"];
      assert ["alice"] + ["dave"] == ["alice", "dave"];
    }
    UnfollowersSpec(following, followers, name);
    UsernamesCarried(following, ["alice", "bob", "carol"], name);
    UsernamesCarried(followers, ["alice", "dave"], name);
  }
}
