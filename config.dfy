/**
 The bot's configuration object. Start-up copies every key of the JSON
 configuration file into it, so it is modelled as a map from key to JSON
 value; the handlers read `prefix` (a string), `roles` (a list of role ids)
 and the deletion flag under the key `delCommands`.
 */
module Config {

  /** The JSON values a configuration key can hold (objects and nested
      arrays are not modelled). */
  datatype ConfigValue =
    | JString(s: string)
    | JBool(b: bool)
    | JNumber(n: int)
    | JStrings(items: seq<string>)
    | JNull

  /** The shape the handlers rely on: a string prefix and a list of roles. */
  predicate WellTyped(config: map<string, ConfigValue>)
  {
    && "prefix" in config && config["prefix"].JString?
    && "roles" in config && config["roles"].JStrings?
  }

  function PrefixOf(config: map<string, ConfigValue>): string
    requires WellTyped(config)
  {
    config["prefix"].s
  }

  function RolesOf(config: map<string, ConfigValue>): seq<string>
    requires WellTyped(config)
  {
    config["roles"].items
  }

  /** JavaScript truthiness of a JSON value. */
  predicate Truthy(v: ConfigValue)
    ensures Truthy(v) <==> v !in {JBool(false), JNull, JString(""), JNumber(0)}
  {
    match v
    case JString(s) => s != ""
    case JBool(b) => b
    case JNumber(n) => n != 0
    case JStrings(_) => true
    case JNull => false
  }

  /** `config.delCommands`: an absent key reads as `undefined`, which is falsy. */
  predicate DelCommands(config: map<string, ConfigValue>)
    ensures DelCommands(config) ==> "delCommands" in config && config["delCommands"] != JBool(false)
    ensures "delCommands" in config && config["delCommands"] == JBool(true) ==> DelCommands(config)
  {
    "delCommands" in config && Truthy(config["delCommands"])
  }

  /** Writing a new prefix touches the `prefix` key and no other. */
  function WithPrefix(config: map<string, ConfigValue>, p: string): (c: map<string, ConfigValue>)
    requires WellTyped(config)
    ensures WellTyped(c) && PrefixOf(c) == p && RolesOf(c) == RolesOf(config)
    ensures c.Keys == config.Keys
    ensures forall k :: k in config && k != "prefix" ==> c[k] == config[k]
  {
    config["prefix" := JString(p)]
  }

  /** Writing a new role list touches the `roles` key and no other. */
  function WithRoles(config: map<string, ConfigValue>, roles: seq<string>): (c: map<string, ConfigValue>)
    requires WellTyped(config)
    ensures WellTyped(c) && RolesOf(c) == roles && PrefixOf(c) == PrefixOf(config)
    ensures c.Keys == config.Keys
    ensures forall k :: k in config && k != "roles" ==> c[k] == config[k]
  {
    config["roles" := JStrings(roles)]
  }

  /** A second write of the role list replaces the first. */
  lemma WithRolesTwice(config: map<string, ConfigValue>, a: seq<string>, b: seq<string>)
    requires WellTyped(config)
    ensures WithRoles(WithRoles(config, a), b) == WithRoles(config, b)
  {
  }
}
