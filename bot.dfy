/**
 The running bot: the configuration object, the translation registry
 (`users`) and the locale catalog (`locales`) as fields updated in place,
 the start-up loops that fill them, and the message handler with its
 command handlers. Each method is proved against the pure description in
 module Commands.
 */
module Bot {
  import opened Text
  import opened Whitelist
  import opened Catalog
  import opened Config
  import opened Commands

  class BotState {
    /** `client.user.id`: the bot's own member id. */
    const botId: MemberId
    var config: map<string, ConfigValue>
    var users: map<MemberId, LocaleCode>
    var locales: map<LocaleCode, string>

    /** The handlers need a string prefix and a role list, and every
        registry value is a catalog code. */
    ghost predicate Valid()
      reads this
    {
      WellTyped(config) && RegistryInCatalog(users, locales)
    }

    /** `start`: copy the configuration file's keys into the empty
        configuration, then record the provider's supported languages. */
    constructor Start(botId: MemberId, file: map<string, ConfigValue>, langs: seq<Language>)
      requires WellTyped(file)
      ensures Valid()
      ensures this.botId == botId && config == file && users == map[] && locales == CatalogOf(langs)
    {
      this.botId := botId;
      config := map[];
      users := map[];
      locales := map[];
      new;
      MergeConfig(file);
      FillCatalog(langs);
    }

    /** `Object.keys(obj).forEach(key => { config[key] = obj[key] })`: the
        file's keys overwrite, all other keys stay. */
    method MergeConfig(obj: map<string, ConfigValue>)
      modifies this`config
      ensures config == old(config) + obj
    {
      var keys := obj.Keys;
      while keys != {}
        invariant keys <= obj.Keys
        invariant config == old(config) + map k | k in obj.Keys - keys :: obj[k]
        decreases keys
      {
        var k :| k in keys;
        config := config[k := obj[k]];
        keys := keys - {k};
      }
      assert obj == map k | k in obj.Keys - {} :: obj[k];
    }

    /** `response.forEach(language => { locales[code] = displayName })`. */
    method FillCatalog(langs: seq<Language>)
      modifies this`locales
      ensures locales == old(locales) + CatalogOf(langs)
    {
      var i := 0;
      while i < |langs|
        invariant 0 <= i <= |langs|
        invariant locales == old(locales) + CatalogOf(langs[..i])
      {
        CatalogSnoc(old(locales), langs, i);
        locales := locales[langs[i].languageCode := langs[i].displayName];
        i := i + 1;
      }
      assert langs[..|langs|] == langs;
    }

    /** `Object.keys(users).forEach(id => delete users[id])`. */
    method ClearRegistry()
      requires Valid()
      modifies this`users
      ensures Valid() && users == map[]
    {
      var ids := users.Keys;
      while ids != {}
        invariant users.Keys == ids
        decreases ids
      {
        var id :| id in ids;
        users := users - {id};
        ids := ids - {id};
      }
      assert users == map[];
    }

    /** The `enable` loop: every mentioned member gets the locale, with one
        confirmation each. */
    method EnableMembers(members: seq<MemberId>, lc: LocaleCode) returns (replies: seq<Reply>)
      requires Valid() && lc in locales
      modifies this`users
      ensures Valid()
      ensures users == EnableFor(old(users), members, lc)
      ensures replies == EnableReplies(members, lc)
    {
      replies := [];
      var i := 0;
      while i < |members|
        invariant 0 <= i <= |members|
        invariant users == EnableFor(old(users), members[..i], lc)
        invariant replies == EnableReplies(members[..i], lc)
        invariant RegistryInCatalog(users, locales)
      {
        EnableSnoc(old(users), members, lc, i);
        users := users[members[i] := lc];
        replies := replies + [TranslationEnabled(members[i], lc)];
        i := i + 1;
      }
      assert members[..|members|] == members;
    }

    /** The `disable` loop: a mentioned member with an entry loses it, one
        without is told it is already disabled. */
    method DisableMembers(members: seq<MemberId>) returns (replies: seq<Reply>)
      requires Valid()
      modifies this`users
      ensures Valid()
      ensures users == DisableFor(old(users), members)
      ensures replies == DisableReplies(old(users), members)
    {
      replies := [];
      var i := 0;
      while i < |members|
        invariant 0 <= i <= |members|
        invariant users == DisableFor(old(users), members[..i])
        invariant replies == DisableReplies(old(users), members[..i])
        invariant RegistryInCatalog(users, locales)
      {
        DisableSnoc(old(users), members, i);
        ghost var reply := DisableReply(old(users), members, i);
        assert members[i] in users <==> reply.TranslationDisabled?;
        if members[i] in users {
          users := users - {members[i]};
          replies := replies + [TranslationDisabled(members[i])];
        } else {
          replies := replies + [AlreadyDisabled(members[i])];
        }
        i := i + 1;
      }
      assert members[..|members|] == members;
    }

    /** `translateCommand`. */
    method TranslateCommand(msg: Message, args: seq<string>) returns (replies: seq<Reply>)
      requires Valid()
      modifies this`users
      ensures Valid()
      ensures (users, replies) == TranslateOutcome(old(users), locales, msg.guild, args, msg.mentionedMembers)
    {
      if |args| == 0 {
        replies := [TranslationListing(users, msg.guild)];
        return;
      }
      var members := msg.mentionedMembers;
      if args[0] == "clear" {
        ClearRegistry();
        replies := [TranslationsCleared];
        return;
      }
      if |members| == 0 {
        replies := [NeedMember];
        return;
      }
      if args[0] == "enable" {
        var lc := LocaleArg(args);
        if lc in locales {
          replies := EnableMembers(members, lc);
        } else {
          replies := [NeedValidLocale];
        }
      } else if args[0] == "disable" {
        replies := DisableMembers(members);
      } else {
        replies := [InvalidArgument(args[0])];
      }
    }

    /** `prefixCommand`. */
    method PrefixCommand(args: seq<string>) returns (replies: seq<Reply>, write: bool)
      requires Valid()
      modifies this`config
      ensures Valid()
      ensures var (p, rs, w) := PrefixOutcome(old(PrefixOf(config)), args);
        && replies == rs && write == w
        && config == if w then WithPrefix(old(config), p) else old(config)
    {
      if |args| == 0 {
        replies, write := [CurrentPrefix(PrefixOf(config))], false;
      } else {
        config := WithPrefix(config, Join(args, " "));
        replies := [NewPrefix(PrefixOf(config))];
        write := true;
      }
    }

    /** The `add` loop: `push` each mentioned role that `indexOf` does not
        find, and record whether any was pushed. */
    method AddRoles(mentioned: seq<RoleId>) returns (replies: seq<Reply>, change: bool)
      requires Valid()
      modifies this`config
      ensures Valid()
      ensures config == WithRoles(old(config), AddAll(old(RolesOf(config)), mentioned))
      ensures replies == AddReplies(old(RolesOf(config)), mentioned)
      ensures change == (AddAll(old(RolesOf(config)), mentioned) != old(RolesOf(config)))
    {
      ghost var start := RolesOf(config);
      assert config == WithRoles(old(config), start);
      change := false;
      replies := [];
      var i := 0;
      while i < |mentioned|
        invariant 0 <= i <= |mentioned|
        invariant config == WithRoles(old(config), AddAll(start, mentioned[..i]))
        invariant replies == AddReplies(start, mentioned[..i])
        invariant change == (AddAll(start, mentioned[..i]) != start)
      {
        assert mentioned[..i + 1][..i] == mentioned[..i];
        RolesRepliesSnoc(start, mentioned, i);
        AddAllExtends(start, mentioned[..i]);
        var roles := RolesOf(config);
        if IndexOf(roles, mentioned[i]) == -1 {
          config := WithRoles(config, roles + [mentioned[i]]);
          replies := replies + [RoleAdded(mentioned[i])];
          change := true;
        } else {
          replies := replies + [AlreadyWhitelisted(mentioned[i])];
        }
        i := i + 1;
      }
      assert mentioned[..|mentioned|] == mentioned;
    }

    /** The `remove` loop: `splice` out the first occurrence of each
        mentioned role that `indexOf` finds, and record whether any was. */
    method RemoveRoles(mentioned: seq<RoleId>) returns (replies: seq<Reply>, change: bool)
      requires Valid()
      modifies this`config
      ensures Valid()
      ensures config == WithRoles(old(config), RemoveAll(old(RolesOf(config)), mentioned))
      ensures replies == RemoveReplies(old(RolesOf(config)), mentioned)
      ensures change == (RemoveAll(old(RolesOf(config)), mentioned) != old(RolesOf(config)))
    {
      ghost var start := RolesOf(config);
      assert config == WithRoles(old(config), start);
      change := false;
      replies := [];
      var i := 0;
      while i < |mentioned|
        invariant 0 <= i <= |mentioned|
        invariant config == WithRoles(old(config), RemoveAll(start, mentioned[..i]))
        invariant replies == RemoveReplies(start, mentioned[..i])
        invariant change == (RemoveAll(start, mentioned[..i]) != start)
      {
        assert mentioned[..i + 1][..i] == mentioned[..i];
        RolesRepliesSnoc(start, mentioned, i);
        RemoveAllShrinks(start, mentioned[..i]);
        var roles := RolesOf(config);
        assert RemoveAll(start, mentioned[..i + 1]) == RemoveFirst(roles, mentioned[i]);
        RemoveFirstLength(roles, mentioned[i]);
        var index := IndexOf(roles, mentioned[i]);
        if index != -1 {
          SpliceIsRemoveFirst(roles, mentioned[i]);
          config := WithRoles(config, roles[..index] + roles[index + 1..]);
          WithRolesTwice(old(config), RemoveAll(start, mentioned[..i]), roles[..index] + roles[index + 1..]);
          replies := replies + [RoleRemoved(mentioned[i])];
          change := true;
        } else {
          replies := replies + [NotWhitelisted(mentioned[i])];
        }
        i := i + 1;
      }
      assert mentioned[..|mentioned|] == mentioned;
    }

    /** `rolesCommand`: the file is rewritten only when the loop changed
        the whitelist. */
    method RolesCommand(msg: Message, args: seq<string>) returns (replies: seq<Reply>, write: bool)
      requires Valid()
      modifies this`config
      ensures Valid()
      ensures var (roles, rs, w) := RolesOutcome(old(RolesOf(config)), msg.guild, args, msg.mentionedRoles);
        && replies == rs && write == w
        && config == if w then WithRoles(old(config), roles) else old(config)
    {
      if |args| == 0 {
        replies, write := [RoleListing(RolesOf(config), msg.guild)], false;
        return;
      }
      var mentioned := msg.mentionedRoles;
      if |mentioned| == 0 {
        replies, write := [NeedRole], false;
        return;
      }
      var change := false;
      if args[0] == "add" {
        replies, change := AddRoles(mentioned);
      } else if args[0] == "remove" {
        replies, change := RemoveRoles(mentioned);
      } else {
        replies := [InvalidArgument(args[0])];
      }
      assert !change ==> config == old(config);
      if change {
        write := true;
      } else {
        write := false;
      }
    }

    /** `localesCommand`: one reply listing the whole catalog. */
    method LocalesCommand() returns (replies: seq<Reply>)
      ensures replies == [LocaleList(locales)]
    {
      replies := [LocaleList(locales)];
    }

    /** The `message` event handler. */
    method HandleMessage(msg: Message) returns (fx: Effects)
      requires Valid()
      modifies this`config, this`users
      ensures Valid()
      ensures StepResult(config, users, fx) == Step(old(config), old(users), locales, botId, msg)
    {
      if msg.authorId == botId {
        fx := NoEffects;
        return;
      }
      var prefix := PrefixOf(config);
      if StartsWith(msg.content, prefix) {
        var args := Split(msg.content[|prefix|..], ' ');
        var command := args[0];
        args := args[1..];
        var replies: seq<Reply>, write := [], false;
        match LookupCommand(command) {
          case Some(Translate) =>
            replies := TranslateCommand(msg, args);
          case Some(Prefix) =>
            replies, write := PrefixCommand(args);
          case Some(Roles) =>
            replies, write := RolesCommand(msg, args);
          case Some(Locales) =>
            replies := LocalesCommand();
          case None =>
            replies := [UnknownCommand(command)];
        }
        fx := Effects(replies, write, DelCommands(config), None);
      } else if msg.authorId in users {
        fx := Effects([], false, false, Some(TranslateRequest(msg.authorId, msg.cleanContent, users[msg.authorId])));
      } else {
        fx := NoEffects;
      }
    }
  }
}
