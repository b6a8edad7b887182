/**
 What the message handler and its commands guarantee, stated over the pure
 description in module Commands (which the methods of Bot.BotState are
 proved to implement).
 */
module Properties {
  import opened Text
  import opened Whitelist
  import opened Config
  import opened Commands

  // ------------------------------------------------------------- the router

  /** The bot's own messages cause nothing. */
  lemma BotMessageIgnored(
    config: map<string, ConfigValue>, users: map<MemberId, LocaleCode>,
    locales: map<LocaleCode, string>, botId: MemberId, msg: Message)
    requires WellTyped(config)
    requires msg.authorId == botId
    ensures Step(config, users, locales, botId, msg) == StepResult(config, users, NoEffects)
  {
  }

  /** Any other message is a command, answered by at least one reply, exactly
      when its text starts with the whole current prefix. */
  lemma CommandIffPrefixed(
    config: map<string, ConfigValue>, users: map<MemberId, LocaleCode>,
    locales: map<LocaleCode, string>, botId: MemberId, msg: Message)
    requires WellTyped(config)
    requires msg.authorId != botId
    ensures |Step(config, users, locales, botId, msg).effects.replies| > 0 <==> StartsWith(msg.content, PrefixOf(config))
  {
    if StartsWith(msg.content, PrefixOf(config)) {
      var (name, args) := ParseCommand(msg.content, PrefixOf(config));
      if LookupCommand(name) == Some(Roles) && |args| > 0 && |msg.mentionedRoles| > 0 {
        var rs := msg.mentionedRoles;
        assert |AddReplies(RolesOf(config), rs)| == |rs|;
        assert |RemoveReplies(RolesOf(config), rs)| == |rs|;
      }
      if LookupCommand(name) == Some(Translate) && |args| > 0 && |msg.mentionedMembers| > 0 {
        var ms := msg.mentionedMembers;
        assert |EnableReplies(ms, LocaleArg(args))| == |ms|;
        assert |DisableReplies(users, ms)| == |ms|;
      }
    }
  }

  /** A message goes to translation exactly when it is not a command and its
      author has a registry entry; the request carries the author's locale,
      which is a catalog code. Such a message changes no state and causes
      no reply, no write and no deletion. */
  lemma TranslationRouting(
    config: map<string, ConfigValue>, users: map<MemberId, LocaleCode>,
    locales: map<LocaleCode, string>, botId: MemberId, msg: Message)
    requires WellTyped(config) && RegistryInCatalog(users, locales)
    requires msg.authorId != botId
    ensures var r := Step(config, users, locales, botId, msg);
      && (r.effects.translation.Some? <==> !StartsWith(msg.content, PrefixOf(config)) && msg.authorId in users)
      && (r.effects.translation.Some? ==>
            && r.effects.translation.value == TranslateRequest(msg.authorId, msg.cleanContent, users[msg.authorId])
            && r.effects.translation.value.locale in locales)
      && (!StartsWith(msg.content, PrefixOf(config)) ==>
            r.config == config && r.users == users && r.effects.replies == []
            && !r.effects.persist && !r.effects.deleteMessage)
  {
  }

  /** A prefixed message whose first word is not a command name gets one
      "does not exist" reply and changes nothing. */
  lemma UnknownCommandChangesNothing(
    config: map<string, ConfigValue>, users: map<MemberId, LocaleCode>,
    locales: map<LocaleCode, string>, botId: MemberId, msg: Message)
    requires WellTyped(config)
    requires msg.authorId != botId && StartsWith(msg.content, PrefixOf(config))
    requires forall c :: CommandName(c) != ParseCommand(msg.content, PrefixOf(config)).0
    ensures var name := ParseCommand(msg.content, PrefixOf(config)).0;
      Step(config, users, locales, botId, msg)
        == StepResult(config, users, Effects([UnknownCommand(name)], false, DelCommands(config), None))
  {
  }

  /** Every message keeps the configuration well-typed and every registry
      value a catalog code; only the `prefix` and `roles` keys can change,
      so the deletion flag never does. */
  lemma StepPreservesInvariants(
    config: map<string, ConfigValue>, users: map<MemberId, LocaleCode>,
    locales: map<LocaleCode, string>, botId: MemberId, msg: Message)
    requires WellTyped(config) && RegistryInCatalog(users, locales)
    ensures var r := Step(config, users, locales, botId, msg);
      && WellTyped(r.config) && RegistryInCatalog(r.users, locales)
      && r.config.Keys == config.Keys
      && (forall k :: k in config && k != "prefix" && k != "roles" ==> r.config[k] == config[k])
      && DelCommands(r.config) == DelCommands(config)
  {
    if msg.authorId != botId && StartsWith(msg.content, PrefixOf(config)) {
      var (name, args) := ParseCommand(msg.content, PrefixOf(config));
      RunCommandPreservesInvariants(config, users, locales, msg, name, args);
    }
  }

  lemma RunCommandPreservesInvariants(
    config: map<string, ConfigValue>, users: map<MemberId, LocaleCode>,
    locales: map<LocaleCode, string>, msg: Message, name: string, args: seq<string>)
    requires WellTyped(config) && RegistryInCatalog(users, locales)
    ensures var r := RunCommand(config, users, locales, msg, name, args);
      && WellTyped(r.config) && RegistryInCatalog(r.users, locales)
      && r.config.Keys == config.Keys
      && (forall k :: k in config && k != "prefix" && k != "roles" ==> r.config[k] == config[k])
  {
    match LookupCommand(name)
    case Some(Translate) =>
      EnableKeepsCatalog(users, locales, args, msg.mentionedMembers);
    case _ =>
  }

  lemma EnableKeepsCatalog(users: map<MemberId, LocaleCode>, locales: map<LocaleCode, string>, args: seq<string>, ms: seq<MemberId>)
    requires RegistryInCatalog(users, locales)
    ensures forall guild :: RegistryInCatalog(TranslateOutcome(users, locales, guild, args, ms).0, locales)
  {
  }

  /** Only a message that runs `prefix` with arguments, or `roles` when the
      whitelist changed, asks for the configuration file to be rewritten. */
  lemma PersistOnlyOnChange(
    config: map<string, ConfigValue>, users: map<MemberId, LocaleCode>,
    locales: map<LocaleCode, string>, botId: MemberId, msg: Message)
    requires WellTyped(config)
    ensures var r := Step(config, users, locales, botId, msg);
      r.effects.persist ==>
        && msg.authorId != botId && StartsWith(msg.content, PrefixOf(config))
        && var (name, args) := ParseCommand(msg.content, PrefixOf(config));
           (name == "prefix" && |args| > 0) || (name == "roles" && RolesOf(r.config) != RolesOf(config))
  {
  }

  // ------------------------------------------------------------------ prefix

  /** `<prefix>prefix <rest>` makes `rest` the new prefix, whatever spaces it
      holds, and asks for a write; the registry is untouched. */
  lemma PrefixSetsRest(
    config: map<string, ConfigValue>, users: map<MemberId, LocaleCode>,
    locales: map<LocaleCode, string>, botId: MemberId, msg: Message, rest: string)
    requires WellTyped(config)
    requires msg.authorId != botId
    requires msg.content == PrefixOf(config) + "prefix " + rest
    ensures var r := Step(config, users, locales, botId, msg);
      && PrefixOf(r.config) == rest && RolesOf(r.config) == RolesOf(config)
      && r.users == users
      && r.effects.replies == [NewPrefix(rest)] && r.effects.persist
  {
    var p := PrefixOf(config);
    assert msg.content[..|p|] == p;
    assert msg.content[|p|..] == "prefix" + [' '] + rest;
    SplitPiece("prefix", rest, ' ');
    var (name, args) := ParseCommand(msg.content, p);
    assert name == "prefix" && args == Split(rest, ' ');
    JoinSplit(rest, ' ');
  }

  /** `<prefix>prefix` alone reports the prefix and changes nothing. */
  lemma PrefixQueryChangesNothing(
    config: map<string, ConfigValue>, users: map<MemberId, LocaleCode>,
    locales: map<LocaleCode, string>, botId: MemberId, msg: Message)
    requires WellTyped(config)
    requires msg.authorId != botId
    requires msg.content == PrefixOf(config) + "prefix"
    ensures var r := Step(config, users, locales, botId, msg);
      && r.config == config && r.users == users
      && r.effects.replies == [CurrentPrefix(PrefixOf(config))] && !r.effects.persist
  {
    var p := PrefixOf(config);
    assert msg.content[..|p|] == p;
    assert msg.content[|p|..] == "prefix";
    SplitFree("prefix", ' ');
    assert ParseCommand(msg.content, p) == ("prefix", []);
    assert Step(config, users, locales, botId, msg) == RunCommand(config, users, locales, msg, "prefix", []);
  }

  // --------------------------------------------------------------- translate

  /** `translate enable <lc>` with mentions: when lc is a catalog code every
      mentioned member maps to it, one confirmation each, and no other entry
      changes; otherwise nothing changes and one reply asks for a valid
      locale. */
  lemma EnableSetsMentioned(
    users: map<MemberId, LocaleCode>, locales: map<LocaleCode, string>,
    guild: Guild, args: seq<string>, ms: seq<MemberId>)
    requires |args| > 0 && args[0] == "enable" && |ms| > 0
    ensures var (users', replies) := TranslateOutcome(users, locales, guild, args, ms);
      var lc := LocaleArg(args);
      && (lc in locales ==>
            && (forall m :: m in ms ==> m in users' && users'[m] == lc)
            && (forall m :: m !in ms ==> (m in users' <==> m in users))
            && (forall m :: m !in ms && m in users ==> users'[m] == users[m])
            && |replies| == |ms|
            && (forall i :: 0 <= i < |ms| ==> replies[i] == TranslationEnabled(ms[i], lc)))
      && (lc !in locales ==> users' == users && replies == [NeedValidLocale])
  {
  }

  /** Enabling the same locale for the same members twice is the same as
      enabling it once. */
  lemma EnableIdempotent(
    users: map<MemberId, LocaleCode>, locales: map<LocaleCode, string>,
    guild: Guild, args: seq<string>, ms: seq<MemberId>)
    requires |args| > 0 && args[0] == "enable"
    ensures var once := TranslateOutcome(users, locales, guild, args, ms).0;
      TranslateOutcome(once, locales, guild, args, ms).0 == once
  {
    var once := TranslateOutcome(users, locales, guild, args, ms).0;
    if |ms| > 0 && LocaleArg(args) in locales {
      assert EnableFor(once, ms, LocaleArg(args)) == once;
    }
  }

  /** `translate disable` removes exactly the mentioned members' entries and
      keeps the others; for distinct mentions each member is answered
      "disabled" when it had an entry and "already disabled" otherwise. */
  lemma DisableRemovesMentioned(
    users: map<MemberId, LocaleCode>, locales: map<LocaleCode, string>,
    guild: Guild, args: seq<string>, ms: seq<MemberId>)
    requires |args| > 0 && args[0] == "disable" && |ms| > 0
    ensures var (users', replies) := TranslateOutcome(users, locales, guild, args, ms);
      && (forall m :: m in users' <==> m in users && m !in ms)
      && (forall m :: m in users' ==> users'[m] == users[m])
      && |replies| == |ms|
      && (NoDup(ms) ==> forall i :: 0 <= i < |ms| ==>
            replies[i] == if ms[i] in users then TranslationDisabled(ms[i]) else AlreadyDisabled(ms[i]))
  {
    var replies := TranslateOutcome(users, locales, guild, args, ms).1;
    if NoDup(ms) {
      forall i | 0 <= i < |ms|
        ensures replies[i] == if ms[i] in users then TranslationDisabled(ms[i]) else AlreadyDisabled(ms[i])
      {
        assert ms[i] !in ms[..i];
      }
    }
  }

  /** Disabling the same members a second time changes nothing and answers
      "already disabled" for each of them. */
  lemma DisableTwice(
    users: map<MemberId, LocaleCode>, locales: map<LocaleCode, string>,
    guild: Guild, args: seq<string>, ms: seq<MemberId>)
    requires |args| > 0 && args[0] == "disable" && |ms| > 0
    ensures var once := TranslateOutcome(users, locales, guild, args, ms).0;
      var (twice, replies) := TranslateOutcome(once, locales, guild, args, ms);
      && twice == once
      && forall i :: 0 <= i < |ms| ==> replies[i] == AlreadyDisabled(ms[i])
  {
    var once := TranslateOutcome(users, locales, guild, args, ms).0;
    assert DisableFor(once, ms) == once;
  }

  /** `translate clear` empties the registry with one confirmation, whether
      or not anyone is mentioned. */
  lemma ClearEmptiesRegistry(
    users: map<MemberId, LocaleCode>, locales: map<LocaleCode, string>,
    guild: Guild, args: seq<string>, ms: seq<MemberId>)
    requires |args| > 0 && args[0] == "clear"
    ensures TranslateOutcome(users, locales, guild, args, ms) == (map[], [TranslationsCleared])
  {
  }

  /** Without mentions every subcommand but `clear`, and with mentions an
      unknown subcommand, leave the registry alone with a single reply. */
  lemma TranslateRejectsLeaveRegistry(
    users: map<MemberId, LocaleCode>, locales: map<LocaleCode, string>,
    guild: Guild, args: seq<string>, ms: seq<MemberId>)
    requires |args| > 0 && args[0] != "clear"
    requires |ms| == 0 || (args[0] != "enable" && args[0] != "disable")
    ensures var (users', replies) := TranslateOutcome(users, locales, guild, args, ms);
      && users' == users
      && replies == if |ms| == 0 then [NeedMember] else [InvalidArgument(args[0])]
  {
  }

  /** The `translate` listing changes nothing and names exactly the members
      with an entry who are still in the guild. */
  lemma TranslateListingChangesNothing(
    users: map<MemberId, LocaleCode>, locales: map<LocaleCode, string>,
    guild: Guild, ms: seq<MemberId>)
    ensures var (users', replies) := TranslateOutcome(users, locales, guild, [], ms);
      && users' == users && |replies| == 1
      && (replies[0] == NoActiveTranslations <==> forall m :: m in users ==> m !in guild.memberIds)
      && (replies[0].ActiveTranslations? ==> replies[0].entries.Keys == users.Keys * guild.memberIds)
  {
    var r := TranslationListing(users, guild);
    if r.ActiveTranslations? {
      assert r.entries.Keys == users.Keys * guild.memberIds;
    }
  }

  // ------------------------------------------------------------------- roles

  /** `roles add` with mentions keeps the old whitelist as a prefix and
      appends only roles that were absent; for distinct mentions it appends
      exactly the absent mentioned roles, in mention order, and answers
      "added" exactly for those. It keeps a duplicate-free whitelist
      duplicate-free and asks for a write iff some mentioned role was
      absent. */
  lemma RolesAddSpec(roles: seq<RoleId>, guild: Guild, args: seq<string>, rs: seq<RoleId>)
    requires |args| > 0 && args[0] == "add" && |rs| > 0
    ensures var (roles', replies, write) := RolesOutcome(roles, guild, args, rs);
      && |roles'| >= |roles| && roles'[..|roles|] == roles
      && (forall k :: |roles| <= k < |roles'| ==> roles'[k] !in roles)
      && (NoDup(rs) ==> roles' == roles + Kept(rs, roles))
      && (forall x :: x in roles' <==> x in roles || x in rs)
      && (NoDup(roles) ==> NoDup(roles'))
      && (write <==> exists i :: 0 <= i < |rs| && rs[i] !in roles)
      && |replies| == |rs|
      && (NoDup(rs) ==> forall i :: 0 <= i < |rs| ==>
            replies[i] == if rs[i] in roles then AlreadyWhitelisted(rs[i]) else RoleAdded(rs[i]))
  {
    AddAllExtends(roles, rs);
    AddAllFirstNew(roles, rs);
    AddAllMembers(roles, rs);
    AddAllChanged(roles, rs);
    if NoDup(roles) {
      AddAllNoDup(roles, rs);
    }
    if NoDup(rs) {
      AddAllIsAppend(roles, rs);
      var replies := RolesOutcome(roles, guild, args, rs).1;
      forall i | 0 <= i < |rs|
        ensures replies[i] == if rs[i] in roles then AlreadyWhitelisted(rs[i]) else RoleAdded(rs[i])
      {
        AddAllMembers(roles, rs[..i]);
        assert rs[i] !in rs[..i];
      }
    }
  }

  /** `roles remove` with mentions on a duplicate-free whitelist keeps
      exactly the roles that were not mentioned, in their original order, asks for a write iff some
      mentioned role was present, and for distinct mentions answers
      "removed" exactly for those. */
  lemma RolesRemoveSpec(roles: seq<RoleId>, guild: Guild, args: seq<string>, rs: seq<RoleId>)
    requires |args| > 0 && args[0] == "remove" && |rs| > 0
    requires NoDup(roles)
    ensures var (roles', replies, write) := RolesOutcome(roles, guild, args, rs);
      && roles' == Kept(roles, rs)
      && NoDup(roles')
      && (forall x :: x in roles' <==> x in roles && x !in rs)
      && (write <==> exists i :: 0 <= i < |rs| && rs[i] in roles)
      && |replies| == |rs|
      && (NoDup(rs) ==> forall i :: 0 <= i < |rs| ==>
            replies[i] == if rs[i] in roles then RoleRemoved(rs[i]) else NotWhitelisted(rs[i]))
  {
    RemoveAllIsKept(roles, rs);
    RemoveAllMembers(roles, rs);
    RemoveAllChanged(roles, rs);
    if NoDup(rs) {
      var replies := RolesOutcome(roles, guild, args, rs).1;
      forall i | 0 <= i < |rs|
        ensures replies[i] == if rs[i] in roles then RoleRemoved(rs[i]) else NotWhitelisted(rs[i])
      {
        RemoveAllMembers(roles, rs[..i]);
        assert rs[i] !in rs[..i];
      }
    }
  }

  /** `roles remove` keeps the order of the roles that stay: removing a
      present role splices out its first occurrence only. */
  lemma RolesRemoveKeepsOrder(roles: seq<RoleId>, r: RoleId)
    requires r in roles
    ensures var i := IndexOf(roles, r);
      && RemoveAll(roles, [r]) == roles[..i] + roles[i + 1..]
      && |RemoveAll(roles, [r])| == |roles| - 1
  {
    assert [r][..0] == [];
    SpliceIsRemoveFirst(roles, r);
  }

  /** Adding the same roles a second time changes nothing, writes nothing and
      answers "already whitelisted" for each. */
  lemma RolesAddTwice(roles: seq<RoleId>, guild: Guild, args: seq<string>, rs: seq<RoleId>)
    requires |args| > 0 && args[0] == "add" && |rs| > 0
    ensures var once := RolesOutcome(roles, guild, args, rs).0;
      var (twice, replies, write) := RolesOutcome(once, guild, args, rs);
      && twice == once && !write
      && forall i :: 0 <= i < |rs| ==> replies[i] == AlreadyWhitelisted(rs[i])
  {
    var once := AddAll(roles, rs);
    AddAllIdempotent(roles, rs);
    AddAllMembers(roles, rs);
    forall i | 0 <= i < |rs| ensures AddReply(once, rs, i) == AlreadyWhitelisted(rs[i]) {
      AddAllMembers(once, rs[..i]);
    }
  }

  /** Without mentioned roles, with an unknown subcommand, or with no
      arguments, `roles` changes nothing and writes nothing. */
  lemma RolesRejectsLeaveWhitelist(roles: seq<RoleId>, guild: Guild, args: seq<string>, rs: seq<RoleId>)
    requires |args| == 0 || |rs| == 0 || (args[0] != "add" && args[0] != "remove")
    ensures var (roles', replies, write) := RolesOutcome(roles, guild, args, rs);
      && roles' == roles && !write && |replies| == 1
      && (|args| > 0 && |rs| == 0 ==> replies == [NeedRole])
      && (|args| > 0 && |rs| > 0 ==> replies == [InvalidArgument(args[0])])
  {
  }

  /** The `roles` listing says "No whitelisted roles." exactly when no
      whitelisted role is still in the guild, or the only one has an empty
      name; it otherwise lists the present roles in whitelist order. */
  lemma RoleListingEmpty(roles: seq<RoleId>, guild: Guild)
    ensures var present := PresentRoles(roles, guild.roleNames);
      && ((RoleListing(roles, guild) == NoWhitelistedRoles)
          <==> (|present| == 0 || (|present| == 1 && guild.roleNames[present[0]] == "")))
      && (RoleListing(roles, guild) != NoWhitelistedRoles ==> RoleListing(roles, guild) == WhitelistedRoles(present))
  {
    var present := PresentRoles(roles, guild.roleNames);
    var names := RoleNames(present, guild.roleNames);
    JoinEmpty(names, ", ");
    assert |present| == 1 ==> names[0] == guild.roleNames[present[0]];
  }

  /** When every guild role has a name, "No whitelisted roles." means that no
      whitelisted role is in the guild. */
  lemma RoleListingNamed(roles: seq<RoleId>, guild: Guild)
    requires forall r :: r in guild.roleNames ==> guild.roleNames[r] != ""
    ensures RoleListing(roles, guild) == NoWhitelistedRoles <==> forall r :: r in roles ==> r !in guild.roleNames
  {
    RoleListingEmpty(roles, guild);
    var present := PresentRoles(roles, guild.roleNames);
    if |present| > 0 {
      assert present[0] in present;
    }
  }

  // ----------------------------------------------------------- translation

  /** Newline-free segments can be read back from the reply text. */
  lemma TranslationTextSplits(segments: seq<string>)
    requires |segments| >= 1
    requires forall i :: 0 <= i < |segments| ==> '\n' !in segments[i]
    ensures Split(TranslationText(segments), '\n') == segments
  {
    SplitJoin(segments, '\n');
  }

  // ---------------------------------------------------------------- scenario

  /** "!translate enable fr" parses as the command `translate` with the
      arguments `enable` and `fr`. */
  lemma ParseEnableFr()
    ensures StartsWith("!translate enable fr", "!")
    ensures ParseCommand("!translate enable fr", "!") == ("translate", ["enable", "fr"])
  {
    var content := "!translate enable fr";
    assert content[..1] == "!";
    assert content[1..] == "translate" + [' '] + ("enable" + [' '] + "fr");
    SplitFree("fr", ' ');
    SplitPiece("enable", "fr", ' ');
    SplitPiece("translate", "enable" + [' '] + "fr", ' ');
    assert Split("enable" + [' '] + "fr", ' ') == ["enable", "fr"];
    assert Split(content[1..], ' ') == ["translate", "enable", "fr"];
  }

  /** With prefix "!" and catalog {fr, de}: A sends "!translate enable fr"
      mentioning B, which registers B for French with one confirmation; B's
      next plain message "hello" goes to translation into French. */
  lemma EnableThenTranslate(roles: seq<RoleId>, guild: Guild)
    ensures
      var config := map["prefix" := JString("!"), "roles" := JStrings(roles)];
      var locales := map["fr" := "French", "de" := "German"];
      var first := Step(config, map[], locales, "bot", Message("A", "!translate enable fr", "", ["B"], [], guild));
      var second := Step(first.config, first.users, locales, "bot", Message("B", "hello", "hello", [], [], guild));
      && first.users == map["B" := "fr"]
      && first.effects.replies == [TranslationEnabled("B", "fr")]
      && second.users == first.users
      && second.effects.translation == Some(TranslateRequest("B", "hello", "fr"))
  {
    var config := map["prefix" := JString("!"), "roles" := JStrings(roles)];
    var locales := map["fr" := "French", "de" := "German"];
    assert PrefixOf(config) == "!";
    ParseEnableFr();
    var msg := Message("A", "!translate enable fr", "", ["B"], [], guild);
    EnableSnoc(map[], ["B"], "fr", 0);
    assert ["B"][..1] == ["B"] && ["B"][..0] == [];
    assert EnableFor(map[], [], "fr") == map[];
    assert EnableReplies([], "fr") == [];
    assert EnableFor(map[], ["B"], "fr") == map["B" := "fr"];
    assert EnableReplies(["B"], "fr") == [TranslationEnabled("B", "fr")];
    assert LocaleArg(["enable", "fr"]) == "fr" && "fr" in locales;
    assert "enable"[0] == 'e' && "clear"[0] == 'c';
    assert TranslateOutcome(map[], locales, guild, ["enable", "fr"], ["B"])
      == (map["B" := "fr"], [TranslationEnabled("B", "fr")]);
    var first := Step(config, map[], locales, "bot", msg);
    assert first == RunCommand(config, map[], locales, msg, "translate", ["enable", "fr"]);
    assert first.config == config && first.users == map["B" := "fr"];
    assert "hello"[0] == 'h';
    assert !StartsWith("hello", "!");
  }
}
