# discord-translate: the command state machine in Dafny

This project models the message handler of a Discord bot that translates
members' messages. It keeps three pieces of state:

- `users` maps a member id to the locale that member's messages are
  translated into.
- `config` is the configuration object. It holds the command prefix, the
  whitelist of role ids and the flags read from the configuration file.
- `locales` maps each locale code the translation provider supports to its
  English name. It is filled once at start-up and only read after that.

Every message goes through one handler:

- The bot's own messages are ignored.
- A message that starts with the prefix is a command. The text after the
  prefix is split on single spaces. The first piece names the command:
  `translate`, `prefix`, `roles` or `locales`. The other pieces are its
  arguments.
- Any other message goes to translation when its author has an entry in
  `users`.

Layout:

- `text.dfy` (module `Text`): JavaScript `split` on one character, `join`,
  `startsWith`, and the proof that `join` inverts `split`.
- `whitelist.dfy` (module `Whitelist`): `indexOf`, add-if-absent and
  remove-first-occurrence on the role list, and their properties.
- `catalog.dfy` (module `Catalog`): the locale catalog built from the
  provider's language list.
- `config.dfy` (module `Config`): the configuration object as a map from
  JSON key to value, and how the handlers read and write it.
- `commands.dfy` (module `Commands`): a pure description of each command and
  of one message step (`Step`). Replies are abstract values: one `Reply` per
  `channel.send`.
- `bot.dfy` (module `Bot`): class `BotState`. Its fields are updated in place
  by the start-up loops, the `forEach` loops of the command handlers and the
  message handler. Each method is proved to implement its pure description
  in `Commands`, `Catalog` or `Config`.
- `properties.dfy` (module `Properties`): the guarantees, stated over `Step`
  and the command descriptions.

Notes on the code as written, which the model follows:

- Commands are split on a single space, not on whitespace. Two spaces in a
  row give an empty argument.
- The prefix can become empty. `<prefix>prefix ` (with a trailing space)
  gives the argument list `[""]` and sets the prefix to `""`. After that
  every message is a command.
- The message-deletion flag is read from the key `delCommands`. No other
  key, `deleteCommands` included, has any effect on deletion.
- The role whitelist is a list loaded from the file, so it may hold
  duplicates. `roles add` never creates one. `roles remove` takes out only
  the first occurrence.
- `translate enable` with no locale argument looks up `args[1]`, which is
  `undefined`. `hasOwnProperty` turns that into the key `"undefined"`.
- No command checks the role whitelist before running. Any member can run
  every command.

## Model

| member | source | states |
|---|---|---|
| `Text.Split` | index.js:194 | `split(' ')` always yields at least one piece, and no piece contains the separator |
| `Text.Join` | index.js:124 | `join` begins with its first piece, and an empty join means every piece was empty |
| `Text.StartsWith` | index.js:191 | `startsWith(p)` holds iff the text is `p` followed by something |
| `Text.SplitFree` | index.js:194 | text without the separator splits into itself alone |
| `Text.SplitPiece` | index.js:194 | a separator-free word followed by the separator splits off as the first piece |
| `Text.JoinSplit` | index.js:194 | joining the pieces of `split(sep)` with `sep` gives back the original text |
| `Text.SplitJoin` | index.js:112 | splitting a join of a non-empty sequence of separator-free pieces gives back those pieces (with JoinSplit: a bijection) |
| `Text.JoinEmpty` | index.js:124-128 | a `join` with a non-empty separator is empty iff there is nothing to join or a single empty piece |
| `Whitelist.IndexOf` | index.js:142 | `indexOf` is -1 iff absent, else the first index holding the value |
| `Whitelist.AddRole` | index.js:142-143 | one add leaves the role listed, adds no other role and grows the list by at most one |
| `Whitelist.AddAll` | index.js:140-150 | the add loop grows the whitelist by at most one role per mention |
| `Whitelist.RemoveFirst` | index.js:153-156 | one removal never adds a role and never lengthens the list |
| `Whitelist.RemoveAll` | index.js:151-163 | the remove loop never adds a role |
| `Whitelist.Kept` | index.js:151-163 | the reference filter for `roles remove`: the roles of a list that are not mentioned, in order |
| `Whitelist.RemoveAllIsKept` | index.js:151-163 | on a duplicate-free whitelist, the splice loop equals the filter `Kept`, so the surviving roles keep their order |
| `Whitelist.RemoveFirstIsKept` | index.js:153-156 | on a duplicate-free list, splicing out the first occurrence removes every occurrence |
| `Whitelist.KeptKept` | index.js:151-163 | filtering by one list and then another equals filtering by both |
| `Whitelist.KeptAppend` | index.js:140-150 | filtering distributes over concatenation |
| `Whitelist.KeptNone` | index.js:151-163 | a filter that matches nothing keeps the whole list |
| `Whitelist.AddAllIsAppend` | index.js:140-150 | for distinct mentions, the add loop appends exactly the absent mentioned roles, in mention order |
| `Whitelist.AddAllFirstNew` | index.js:142-143 | every role the add loop appends was absent from the original whitelist |
| `Whitelist.SpliceIsRemoveFirst` | index.js:153-156 | `splice(indexOf(r), 1)` removes exactly the first occurrence and keeps the rest in order |
| `Whitelist.RemoveFirstLength` | index.js:153-161 | removing an absent role changes nothing; removing a present one shortens the list by one |
| `Whitelist.RemoveFirstMembers` | index.js:156 | on a duplicate-free list, removal drops that role only and keeps the list duplicate-free |
| `Whitelist.AddAllExtends` | index.js:140-150 | `roles add` only appends: the old whitelist is a prefix of the new one |
| `Whitelist.AddAllMembers` | index.js:140-150 | after `roles add`, a role is whitelisted iff it was before or was mentioned |
| `Whitelist.AddAllNoDup` | index.js:142-143 | `roles add` keeps a duplicate-free whitelist duplicate-free |
| `Whitelist.AddAllChanged` | index.js:138-150 | `roles add` changes the whitelist iff some mentioned role was absent |
| `Whitelist.AddAllIdempotent` | index.js:140-150 | adding the same roles twice equals adding them once |
| `Whitelist.RemoveAllMembers` | index.js:151-163 | on a duplicate-free whitelist, after `roles remove` a role is listed iff it was and was not mentioned |
| `Whitelist.RemoveAllChanged` | index.js:151-163 | on a duplicate-free whitelist, `roles remove` changes it iff some mentioned role was present |
| `Whitelist.RemoveAllUntouched` | index.js:151-163 | removing only absent roles leaves the whitelist as it is |
| `Whitelist.RemoveAllIdempotent` | index.js:151-163 | on a duplicate-free whitelist, removing the same roles twice equals removing them once |
| `Whitelist.RemoveAllShrinks` | index.js:151-163 | `roles remove` never lengthens the whitelist |
| `Catalog.CatalogKeys` | index.js:215-217 | a code is in the catalog iff the provider's response lists it |
| `Catalog.CatalogLastWins` | index.js:215-217 | a code's display name is that of its last entry in the response |
| `Catalog.CatalogOf` | index.js:215-217 | every catalog entry is a code and display name that the response lists |
| `Catalog.CatalogSnoc` | index.js:216 | recording one more entry overwrites that entry's code and nothing else |
| `Config.WithPrefix` | index.js:112 | setting the prefix changes the `prefix` key only; the roles and all other keys stay |
| `Config.WithRoles` | index.js:143 | writing the whitelist changes the `roles` key only; the prefix and all other keys stay |
| `Config.WithRolesTwice` | index.js:143-160 | a later write of the whitelist replaces an earlier one, so writing it once per mention equals writing the final list |
| `Config.Truthy` | index.js:200 | JavaScript truthiness: false, null, the empty string and 0 are falsy, every other value is truthy |
| `Config.DelCommands` | index.js:200 | the message is deleted only when `delCommands` is present and not `false`; `true` always deletes |
| `Commands.LookupCommand` | index.js:177-182 | the dispatch table maps each command's own name to it and every other name to nothing |
| `Commands.ParseCommand` | index.js:194-195 | the command name and the arguments, joined with spaces, are exactly the text after the prefix, and none holds a space |
| `Commands.TranslationListing` | index.js:62-71 | the listing names exactly the members with an entry who are in the guild, with their locales; "No active translations." iff there is none |
| `Commands.PresentRoles` | index.js:121-122 | the listed roles are exactly the whitelisted roles that exist in the guild |
| `Commands.RoleListing` | index.js:120-129 | the `roles` listing is either "No whitelisted roles." or a non-empty list of exactly the whitelisted roles present in the guild |
| `Commands.LocaleArg` | index.js:88 | the locale looked up is `args[1]`, or the key `"undefined"` when it is missing |
| `Commands.TranslateOutcome` | index.js:61-107 | `translateCommand` always replies; it either clears the registry or keeps every unmentioned member's entry as it was; every new entry's locale is a catalog code |
| `Commands.PrefixOutcome` | index.js:109-117 | `prefixCommand` sends one reply, writes iff it has arguments, reports the prefix unchanged without them and takes a single argument as the new prefix |
| `Commands.RolesOutcome` | index.js:119-168 | `rolesCommand` always replies, writes iff the whitelist changed, changes it only for `add` or `remove` with mentioned roles, and never lists a role that was neither listed nor mentioned |
| `Commands.RunCommand` | index.js:197-200 | a dispatched command keeps the configuration's shape and keys, changes no key but `prefix` and `roles`, replies at least once, requests no translation and deletes the message iff `delCommands` is truthy |
| `Commands.Step` | index.js:188-202 | a message goes to translation iff it is not the bot's, unprefixed, and its author has an entry; such a message changes no state and carries the author's clean text and locale; the configuration keeps its shape and keys |
| `Commands.TranslationText` | index.js:40-42 | the translation reply begins with the first returned segment and is empty only when every segment is |
| `Bot.BotState.Start` | index.js:204-217 | after start-up the configuration equals the file, the registry is empty and the catalog is built from the response |
| `Bot.BotState.MergeConfig` | index.js:205-208 | the file's keys overwrite and every other key stays |
| `Bot.BotState.FillCatalog` | index.js:215-217 | the catalog loop records the response as CatalogOf describes |
| `Bot.BotState.ClearRegistry` | index.js:76 | the delete loop empties the registry |
| `Bot.BotState.EnableMembers` | index.js:91-95 | the enable loop maps every mentioned member to the locale and confirms each in order |
| `Bot.BotState.DisableMembers` | index.js:98-104 | the disable loop removes the mentioned entries and answers each member by whether it still had one |
| `Commands.EnableSnoc` | index.js:91-95 | the enabled registry and its replies after i+1 mentions extend those after i by that mention's entry and confirmation |
| `Commands.DisableSnoc` | index.js:98-104 | the registry after i+1 mentions of `disable` is the one after i without that member, with one more reply |
| `Bot.BotState.TranslateCommand` | index.js:61-107 | `translateCommand` yields the registry and replies of `TranslateOutcome`, and every registry value stays a catalog code |
| `Bot.BotState.PrefixCommand` | index.js:109-117 | `prefixCommand` reports the prefix, or sets it to the joined arguments and asks for a write |
| `Bot.BotState.AddRoles` | index.js:140-150 | the add loop pushes absent roles and its `change` flag is set iff the whitelist changed |
| `Bot.BotState.RemoveRoles` | index.js:151-163 | the remove loop splices out present roles and its `change` flag is set iff the whitelist changed |
| `Bot.BotState.RolesCommand` | index.js:119-168 | `rolesCommand` yields the whitelist and replies of `RolesOutcome` and writes only when the whitelist changed |
| `Bot.BotState.LocalesCommand` | index.js:170-175 | `locales` answers with one listing of the whole catalog |
| `Bot.BotState.HandleMessage` | index.js:188-202 | the handler's new state and effects are those of `Step`, and the invariant (string prefix, role list, registry values in the catalog) is kept |
| `Properties.BotMessageIgnored` | index.js:189 | the bot's own messages change nothing and cause nothing |
| `Properties.CommandIffPrefixed` | index.js:191-198 | any other message gets at least one reply iff it starts with the whole current prefix |
| `Properties.TranslationRouting` | index.js:188-202 | a message goes to translation iff it is unprefixed and its author has an entry; the request's locale is `users[author]`, a catalog code; an unprefixed message changes nothing |
| `Properties.UnknownCommandChangesNothing` | index.js:197-198 | an unknown command name gets one "does not exist" reply and changes no state |
| `Properties.StepPreservesInvariants` | index.js:188-202 | every message keeps registry values in the catalog and changes no configuration key but `prefix` and `roles` |
| `Properties.RunCommandPreservesInvariants` | index.js:60-183 | every command keeps registry values in the catalog and changes no configuration key but `prefix` and `roles` |
| `Properties.EnableKeepsCatalog` | index.js:87-96 | `translate` never stores a locale that is not a catalog code |
| `Properties.PersistOnlyOnChange` | index.js:109-166 | a write is requested only by `prefix` with arguments or by `roles` when the whitelist changed |
| `Properties.PrefixSetsRest` | index.js:109-116 | `<prefix>prefix <rest>` sets the prefix to exactly `rest`, spaces included, and asks for a write |
| `Properties.PrefixQueryChangesNothing` | index.js:110 | `<prefix>prefix` alone reports the prefix and changes nothing |
| `Properties.EnableSetsMentioned` | index.js:87-96 | `translate enable` with a catalog code maps exactly the mentioned members to it, one confirmation each; with any other code nothing changes |
| `Properties.EnableIdempotent` | index.js:91-95 | enabling the same locale for the same members twice equals doing it once |
| `Properties.DisableRemovesMentioned` | index.js:97-104 | `translate disable` removes exactly the mentioned entries; each distinct member is answered "disabled" iff it had one |
| `Properties.DisableTwice` | index.js:97-104 | a second identical `disable` changes nothing and answers "already disabled" for every member |
| `Properties.ClearEmptiesRegistry` | index.js:75-80 | `translate clear` empties the registry with one confirmation, with or without mentions |
| `Properties.TranslateRejectsLeaveRegistry` | index.js:82-105 | no mentions, or an unknown subcommand, leave the registry alone with a single reply |
| `Properties.TranslateListingChangesNothing` | index.js:62-71 | the `translate` listing changes nothing and lists exactly the present members with an entry |
| `Properties.RolesAddSpec` | index.js:138-150 | `roles add` keeps the old whitelist as a prefix and appends only roles that were absent; for distinct mentions it appends exactly the absent mentioned roles in mention order and answers "added" exactly for those; it keeps the whitelist duplicate-free and writes iff a mentioned role was absent |
| `Properties.RolesRemoveSpec` | index.js:151-166 | on a duplicate-free whitelist, `roles remove` leaves exactly the unmentioned roles in their original order (`Kept`), writes iff a mentioned role was present, and answers "removed" exactly for those |
| `Properties.RolesRemoveKeepsOrder` | index.js:153-156 | removing a present role splices out its first occurrence and keeps the rest in order |
| `Properties.RolesAddTwice` | index.js:140-150 | a second identical `roles add` changes nothing, writes nothing and answers "already whitelisted" for each |
| `Properties.RolesRejectsLeaveWhitelist` | index.js:119-136 | no arguments, no mentioned roles or an unknown subcommand leave the whitelist alone and write nothing |
| `Properties.RoleListingEmpty` | index.js:120-129 | "No whitelisted roles." iff no whitelisted role is in the guild, or the only one has an empty name |
| `Properties.RoleListingNamed` | index.js:120-129 | when every guild role has a name, "No whitelisted roles." iff no whitelisted role is in the guild |
| `Properties.TranslationTextSplits` | index.js:40-42 | the translation text joins the segments with newlines, so newline-free segments can be read back |
| `Properties.EnableThenTranslate` | index.js:188-202 | "!translate enable fr" mentioning B registers B for French; B's next plain message is sent for translation into French |
| `Properties.ParseEnableFr` | index.js:194-196 | "!translate enable fr" parses as the command `translate` with arguments `enable` and `fr` |

## Left out

- The translation provider's calls (`translateText`, `getSupportedLanguages`) are remote calls. The catalog is an input to start-up, and translation appears only as the `TranslateRequest` effect.
- Discord I/O is left out: `channel.send`, the reply texts and embeds, `msg.delete`, `client.login` and the `ready` handler. Replies are abstract `Reply` values, and deletion is a flag.
- The reply texts themselves are not modelled, so the stray `v` in the "added to whitelist" reply has no counterpart.
- Reading and writing the configuration file are file I/O done by a JSON library. A write is only a "write requested" flag, and the file round trip is not modelled.
- `catchError` and `log` are the error and logging policy; they do not change state.
- Asynchronous ordering of sends, writes and translations is not modelled. One message is handled as one atomic step.
- Member display names and the order of `Object.keys` are not modelled. The `translate` and `locales` listings carry maps, not ordered text.
- The role listing keeps role names only to decide when its text is empty.
- Configuration values cover strings, booleans, integers, string lists and null. Fractional numbers, NaN and nested objects are not modelled, so a `delCommands` of `0.5` cannot be expressed.
- Only messages sent in a guild are modelled. In a direct message `msg.guild` is null, so the listings at index.js:64 and index.js:122 throw instead of replying. The `translate` mention check at index.js:82 throws as well, because a direct message has no member mentions. The model always has a guild and always replies.
- Bot.BotState.FillCatalog: assumes the provider's `getSupportedLanguages` resolves to the language list itself. If its first result is instead an object whose `languages` field holds the list, `response.forEach` at index.js:215 throws and start-up never reaches `client.login`. The provider library is not part of this model.
- Bot.BotState.Start: requires the file to hold a string `prefix` and a list `roles`. The code does not check this; with such a file the handlers would throw or misbehave.
- Commands.LocaleArg: a missing locale argument is looked up as the key `"undefined"`. If the catalog held that key, the code would store JavaScript `undefined` rather than the string; the model stores the string.
- Properties.RolesAddSpec: the exact appended suffix (`Kept(rs, roles)`) and the per-mention replies are stated for distinct mentions. Discord's mention collections are keyed by id, so repeated mentions do not arise. For repeated mentions the contract still says that only absent roles are appended.
- Properties.RolesRemoveSpec: the surviving order, membership and the write condition are stated for a duplicate-free whitelist only. The per-mention replies are stated for distinct mentions; Discord's mention collections are keyed by id. With duplicates, `roles remove` takes out only the first occurrence (Whitelist.SpliceIsRemoveFirst, Properties.RolesRemoveKeepsOrder).
- Properties.DisableRemovesMentioned: the per-member replies are stated for distinct mentions. Discord's mention collections are keyed by id; `Commands.DisableReply` covers repeated ids.
