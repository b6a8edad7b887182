/**
 What one incoming message does, as a pure function of the bot's state:
 the command handlers (`translate`, `prefix`, `roles`, `locales`), the
 dispatch table, and the message handler that chooses between a command,
 the translation pipeline and nothing. Replies are abstract: each Reply
 constructor stands for one `channel.send`, carrying the ids it is about.
 */
module Commands {
  import opened Text
  import opened Whitelist
  import opened Config

  datatype Option<T> = None | Some(value: T)

  type MemberId = string
  type LocaleCode = string

  /** The guild a message was sent in: the ids of its present members and
      the name of each of its roles. */
  datatype Guild = Guild(memberIds: set<MemberId>, roleNames: map<RoleId, string>)

  /** An incoming message: its author, raw text, text with mentions resolved,
      the members and roles it mentions (in mention order) and its guild. */
  datatype Message = Message(
    authorId: MemberId,
    content: string,
    cleanContent: string,
    mentionedMembers: seq<MemberId>,
    mentionedRoles: seq<RoleId>,
    guild: Guild)

  datatype Reply =
    | ActiveTranslations(entries: map<MemberId, LocaleCode>)
    | NoActiveTranslations
    | TranslationsCleared
    | NeedMember
    | TranslationEnabled(member: MemberId, locale: LocaleCode)
    | NeedValidLocale
    | TranslationDisabled(member: MemberId)
    | AlreadyDisabled(member: MemberId)
    | InvalidArgument(arg: string)
    | CurrentPrefix(prefix: string)
    | NewPrefix(prefix: string)
    | WhitelistedRoles(roles: seq<RoleId>)
    | NoWhitelistedRoles
    | NeedRole
    | RoleAdded(role: RoleId)
    | AlreadyWhitelisted(role: RoleId)
    | RoleRemoved(role: RoleId)
    | NotWhitelisted(role: RoleId)
    | LocaleList(catalog: map<LocaleCode, string>)
    | UnknownCommand(name: string)

  /** A request to the translation provider for the author's message. */
  datatype TranslateRequest = TranslateRequest(author: MemberId, text: string, locale: LocaleCode)

  /** The text of a translation reply: the segments the provider returns,
      one per line; it begins with the first segment. */
  function TranslationText(segments: seq<string>): (r: string)
    ensures |segments| >= 1 ==> StartsWith(r, segments[0])
    ensures r == "" ==> forall i :: 0 <= i < |segments| ==> segments[i] == ""
  {
    Join(segments, "\n")
  }

  /** Everything a message causes outside the in-memory state: the replies in
      order, whether the configuration file is rewritten, whether the message
      is deleted and whether it goes to the translation pipeline. */
  datatype Effects = Effects(
    replies: seq<Reply>,
    persist: bool,
    deleteMessage: bool,
    translation: Option<TranslateRequest>)

  const NoEffects := Effects([], false, false, None)

  /** Registry values must be catalog codes. */
  predicate RegistryInCatalog(users: map<MemberId, LocaleCode>, locales: map<LocaleCode, string>)
  {
    forall m :: m in users ==> users[m] in locales
  }

  // ---------------------------------------------------------------- dispatch

  /** The keys of the `commands` dispatch table. */
  datatype Command = Translate | Prefix | Roles | Locales

  function CommandName(c: Command): string
  {
    match c
    case Translate => "translate"
    case Prefix => "prefix"
    case Roles => "roles"
    case Locales => "locales"
  }

  /** `commands.hasOwnProperty(name)`: a name selects the command whose key
      it is, and any other name selects nothing. */
  function LookupCommand(name: string): (r: Option<Command>)
    ensures r.Some? ==> CommandName(r.value) == name
    ensures r.None? ==> forall c :: CommandName(c) != name
  {
    if name == "translate" then Some(Translate)
    else if name == "prefix" then Some(Prefix)
    else if name == "roles" then Some(Roles)
    else if name == "locales" then Some(Locales)
    else None
  }

  /** The command text after the prefix, split on single spaces: the first
      piece is the command name, the rest are the arguments. */
  function ParseCommand(content: string, prefix: string): (r: (string, seq<string>))
    requires StartsWith(content, prefix)
    ensures Join([r.0] + r.1, " ") == content[|prefix|..]
    ensures ' ' !in r.0 && forall i :: 0 <= i < |r.1| ==> ' ' !in r.1[i]
  {
    var parts := Split(content[|prefix|..], ' ');
    JoinSplit(content[|prefix|..], ' ');
    assert [parts[0]] + parts[1..] == parts;
    (parts[0], parts[1..])
  }

  // --------------------------------------------------------------- translate

  /** The `translate` listing: every registry entry whose member is still in
      the guild; each listed entry renders as "<name>: <locale>", so the
      listing text is empty exactly when no entry is listed. */
  function TranslationListing(users: map<MemberId, LocaleCode>, guild: Guild): (r: Reply)
    ensures r.NoActiveTranslations? <==> forall m :: m in users ==> m !in guild.memberIds
    ensures r.ActiveTranslations? ==>
      && (forall m :: m in r.entries <==> m in users && m in guild.memberIds)
      && (forall m :: m in r.entries ==> r.entries[m] == users[m])
    ensures r.NoActiveTranslations? || r.ActiveTranslations?
  {
    var entries := map m | m in users && m in guild.memberIds :: users[m];
    assert forall m :: m in users && m in guild.memberIds ==> m in entries;
    if entries == map[] then NoActiveTranslations else ActiveTranslations(entries)
  }

  /** `args[1]` as a property key: a missing second argument is `undefined`,
      which `hasOwnProperty` looks up as the key "undefined". */
  function LocaleArg(args: seq<string>): (r: string)
    ensures |args| > 1 ==> r == args[1]
    ensures |args| <= 1 ==> r == "undefined"
  {
    if |args| > 1 then args[1] else "undefined"
  }

  function EnableFor(users: map<MemberId, LocaleCode>, ms: seq<MemberId>, lc: LocaleCode): map<MemberId, LocaleCode>
  {
    users + map m | m in ms :: lc
  }

  function DisableFor(users: map<MemberId, LocaleCode>, ms: seq<MemberId>): map<MemberId, LocaleCode>
  {
    map m | m in users && m !in ms :: users[m]
  }

  /** The reply for the i-th mentioned member of `disable`: by then the
      earlier mentions have been removed. */
  function DisableReply(users: map<MemberId, LocaleCode>, ms: seq<MemberId>, i: nat): Reply
    requires i < |ms|
  {
    if ms[i] in users && ms[i] !in ms[..i] then TranslationDisabled(ms[i]) else AlreadyDisabled(ms[i])
  }

  function EnableReplies(ms: seq<MemberId>, lc: LocaleCode): seq<Reply>
  {
    seq(|ms|, i requires 0 <= i < |ms| => TranslationEnabled(ms[i], lc))
  }

  function DisableReplies(users: map<MemberId, LocaleCode>, ms: seq<MemberId>): seq<Reply>
  {
    seq(|ms|, i requires 0 <= i < |ms| => DisableReply(users, ms, i))
  }

  /** The registry and the replies of `enable` grow one mention at a time,
      as its `forEach` loop produces them. */
  lemma EnableSnoc(users: map<MemberId, LocaleCode>, ms: seq<MemberId>, lc: LocaleCode, i: nat)
    requires i < |ms|
    ensures EnableFor(users, ms[..i + 1], lc) == EnableFor(users, ms[..i], lc)[ms[i] := lc]
    ensures EnableReplies(ms[..i + 1], lc) == EnableReplies(ms[..i], lc) + [TranslationEnabled(ms[i], lc)]
  {
    assert ms[..i + 1] == ms[..i] + [ms[i]];
    var l := EnableFor(users, ms[..i + 1], lc);
    var r := EnableFor(users, ms[..i], lc)[ms[i] := lc];
    forall m ensures m in l <==> m in r {
      assert m in ms[..i + 1] <==> m in ms[..i] || m == ms[i];
    }
    assert l == r;
  }

  /** The registry and the replies of `disable` grow one mention at a time. */
  lemma DisableSnoc(users: map<MemberId, LocaleCode>, ms: seq<MemberId>, i: nat)
    requires i < |ms|
    ensures DisableFor(users, ms[..i + 1]) == DisableFor(users, ms[..i]) - {ms[i]}
    ensures DisableReplies(users, ms[..i + 1]) == DisableReplies(users, ms[..i]) + [DisableReply(users, ms, i)]
  {
    assert ms[..i + 1] == ms[..i] + [ms[i]];
    var l := DisableFor(users, ms[..i + 1]);
    var r := DisableFor(users, ms[..i]) - {ms[i]};
    forall m ensures m in l <==> m in r {
      assert m in ms[..i + 1] <==> m in ms[..i] || m == ms[i];
    }
    assert l == r;
    forall j | 0 <= j <= i ensures ms[..i + 1][..j] == ms[..j] {
    }
    forall j | 0 <= j < i ensures ms[..i][..j] == ms[..j] {
    }
  }

  /** `translateCommand`: the new registry and the replies. */
  function TranslateOutcome(
    users: map<MemberId, LocaleCode>, locales: map<LocaleCode, string>,
    guild: Guild, args: seq<string>, ms: seq<MemberId>): (r: (map<MemberId, LocaleCode>, seq<Reply>))
    ensures |r.1| >= 1
    ensures r.0 == map[] || forall m :: m !in ms ==> (m in r.0 <==> m in users) && (m in r.0 ==> r.0[m] == users[m])
    ensures forall m :: m in r.0 ==> m in users || r.0[m] in locales
  {
    if |args| == 0 then (users, [TranslationListing(users, guild)])
    else if args[0] == "clear" then (map[], [TranslationsCleared])
    else if |ms| == 0 then (users, [NeedMember])
    else if args[0] == "enable" then
      var lc := LocaleArg(args);
      if lc in locales then (EnableFor(users, ms, lc), EnableReplies(ms, lc))
      else (users, [NeedValidLocale])
    else if args[0] == "disable" then
      (DisableFor(users, ms), DisableReplies(users, ms))
    else (users, [InvalidArgument(args[0])])
  }

  // ------------------------------------------------------------------ prefix

  /** `prefixCommand`: the new prefix, the replies and whether the file is
      rewritten. */
  function PrefixOutcome(prefix: string, args: seq<string>): (r: (string, seq<Reply>, bool))
    ensures |r.1| == 1
    ensures r.2 <==> |args| > 0
    ensures !r.2 ==> r.0 == prefix && r.1 == [CurrentPrefix(prefix)]
    ensures |args| == 1 ==> r.0 == args[0]
  {
    if |args| == 0 then (prefix, [CurrentPrefix(prefix)], false)
    else
      var p := Join(args, " ");
      (p, [NewPrefix(p)], true)
  }

  // ------------------------------------------------------------------- roles

  /** The whitelisted roles that still exist in the guild, in whitelist order. */
  function PresentRoles(roles: seq<RoleId>, roleNames: map<RoleId, string>): (r: seq<RoleId>)
    ensures forall x :: x in r <==> x in roles && x in roleNames
    ensures forall i :: 0 <= i < |r| ==> r[i] in roleNames
    ensures |r| <= |roles|
  {
    if roles == [] then []
    else
      var rest := PresentRoles(roles[1..], roleNames);
      assert forall x :: x in roles <==> x == roles[0] || x in roles[1..];
      if roles[0] in roleNames then [roles[0]] + rest else rest
  }

  function RoleNames(present: seq<RoleId>, roleNames: map<RoleId, string>): seq<string>
    requires forall i :: 0 <= i < |present| ==> present[i] in roleNames
  {
    seq(|present|, i requires 0 <= i < |present| => roleNames[present[i]])
  }

  /** The `roles` listing: the present whitelisted roles, or "No whitelisted
      roles." when their names joined with ", " give the empty text. */
  function RoleListing(roles: seq<RoleId>, guild: Guild): (r: Reply)
    ensures r == NoWhitelistedRoles || r.WhitelistedRoles?
    ensures r.WhitelistedRoles? ==> |r.roles| > 0 && forall x :: x in r.roles <==> x in roles && x in guild.roleNames
  {
    var present := PresentRoles(roles, guild.roleNames);
    if |Join(RoleNames(present, guild.roleNames), ", ")| > 0 then WhitelistedRoles(present)
    else NoWhitelistedRoles
  }

  function AddReply(roles: seq<RoleId>, rs: seq<RoleId>, i: nat): Reply
    requires i < |rs|
  {
    if rs[i] in AddAll(roles, rs[..i]) then AlreadyWhitelisted(rs[i]) else RoleAdded(rs[i])
  }

  function RemoveReply(roles: seq<RoleId>, rs: seq<RoleId>, i: nat): Reply
    requires i < |rs|
  {
    if rs[i] in RemoveAll(roles, rs[..i]) then RoleRemoved(rs[i]) else NotWhitelisted(rs[i])
  }

  function AddReplies(roles: seq<RoleId>, rs: seq<RoleId>): seq<Reply>
  {
    seq(|rs|, i requires 0 <= i < |rs| => AddReply(roles, rs, i))
  }

  function RemoveReplies(roles: seq<RoleId>, rs: seq<RoleId>): seq<Reply>
  {
    seq(|rs|, i requires 0 <= i < |rs| => RemoveReply(roles, rs, i))
  }

  /** The reply sequences grow one mention at a time, as the loops send them. */
  lemma RolesRepliesSnoc(roles: seq<RoleId>, rs: seq<RoleId>, i: nat)
    requires i < |rs|
    ensures AddReplies(roles, rs[..i + 1]) == AddReplies(roles, rs[..i]) + [AddReply(roles, rs, i)]
    ensures RemoveReplies(roles, rs[..i + 1]) == RemoveReplies(roles, rs[..i]) + [RemoveReply(roles, rs, i)]
  {
    forall j | 0 <= j <= i ensures rs[..i + 1][..j] == rs[..j] {
    }
    forall j | 0 <= j < i ensures rs[..i][..j] == rs[..j] {
    }
  }

  /** `rolesCommand`: the new whitelist, the replies and whether the file is
      rewritten (only when the whitelist changed). */
  function RolesOutcome(roles: seq<RoleId>, guild: Guild, args: seq<string>, rs: seq<RoleId>): (r: (seq<RoleId>, seq<Reply>, bool))
    ensures |r.1| >= 1
    ensures r.2 <==> r.0 != roles
    ensures r.2 ==> |args| > 0 && |rs| > 0 && (args[0] == "add" || args[0] == "remove")
    ensures forall x :: x in r.0 ==> x in roles || x in rs
  {
    if |args| == 0 then (roles, [RoleListing(roles, guild)], false)
    else if |rs| == 0 then (roles, [NeedRole], false)
    else if args[0] == "add" then
      var added := AddAll(roles, rs);
      AddAllMembers(roles, rs);
      (added, AddReplies(roles, rs), added != roles)
    else if args[0] == "remove" then
      var removed := RemoveAll(roles, rs);
      (removed, RemoveReplies(roles, rs), removed != roles)
    else (roles, [InvalidArgument(args[0])], false)
  }

  // ----------------------------------------------------------------- message

  /** The state a message handler sees and changes. */
  datatype StepResult = StepResult(
    config: map<string, ConfigValue>,
    users: map<MemberId, LocaleCode>,
    effects: Effects)

  /** The `commands` table applied to a parsed command; the message is
      deleted afterwards when `delCommands` is truthy. */
  function RunCommand(
    config: map<string, ConfigValue>, users: map<MemberId, LocaleCode>,
    locales: map<LocaleCode, string>, msg: Message, name: string, args: seq<string>): (r: StepResult)
    requires WellTyped(config)
    ensures WellTyped(r.config) && r.config.Keys == config.Keys
    ensures forall k :: k in config && k != "prefix" && k != "roles" ==> r.config[k] == config[k]
    ensures |r.effects.replies| >= 1 && r.effects.translation.None?
    ensures r.effects.deleteMessage == DelCommands(config)
  {
    var del := DelCommands(config);
    match LookupCommand(name)
    case Some(Translate) =>
      var (users', replies) := TranslateOutcome(users, locales, msg.guild, args, msg.mentionedMembers);
      StepResult(config, users', Effects(replies, false, del, None))
    case Some(Prefix) =>
      var (p, replies, write) := PrefixOutcome(PrefixOf(config), args);
      StepResult(if write then WithPrefix(config, p) else config, users, Effects(replies, write, del, None))
    case Some(Roles) =>
      var (roles, replies, write) := RolesOutcome(RolesOf(config), msg.guild, args, msg.mentionedRoles);
      StepResult(if write then WithRoles(config, roles) else config, users, Effects(replies, write, del, None))
    case Some(Locales) =>
      StepResult(config, users, Effects([LocaleList(locales)], false, del, None))
    case None =>
      StepResult(config, users, Effects([UnknownCommand(name)], false, del, None))
  }

  /** The message handler: ignore the bot's own messages; run a command when
      the text starts with the prefix; otherwise hand the message to
      translation when its author has a registry entry. */
  function Step(
    config: map<string, ConfigValue>, users: map<MemberId, LocaleCode>,
    locales: map<LocaleCode, string>, botId: MemberId, msg: Message): (r: StepResult)
    requires WellTyped(config)
    ensures WellTyped(r.config) && r.config.Keys == config.Keys
    ensures r.effects.translation.Some? <==>
      msg.authorId != botId && !StartsWith(msg.content, PrefixOf(config)) && msg.authorId in users
    ensures r.effects.translation.Some? ==>
      r.config == config && r.users == users
      && r.effects.translation.value == TranslateRequest(msg.authorId, msg.cleanContent, users[msg.authorId])
  {
    if msg.authorId == botId then StepResult(config, users, NoEffects)
    else if StartsWith(msg.content, PrefixOf(config)) then
      var (name, args) := ParseCommand(msg.content, PrefixOf(config));
      RunCommand(config, users, locales, msg, name, args)
    else if msg.authorId in users then
      StepResult(config, users, Effects([], false, false, Some(TranslateRequest(msg.authorId, msg.cleanContent, users[msg.authorId]))))
    else StepResult(config, users, NoEffects)
  }
}
