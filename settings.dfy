/**
 * The per-guild settings store of the moderation cog: the map
 * `guild_id (decimal string) -> spam role id`, how it is loaded from the JSON
 * file, what the file holds after a save, how a guild's role is looked up,
 * and the role-hierarchy guard of the setup command.
 */
module Settings {
  import opened Wrappers
  import PyInt

  /** A value as the JSON reader returns it. */
  datatype Json =
    | JNull
    | JBool(b: bool)
    | JInt(i: int)
      /** A finite float; `int()` only ever sees its truncation toward zero, which is what is kept. */
    | JFloat(truncated: int)
      /** `NaN`, `Infinity` or `-Infinity`, which the reader accepts. */
    | JNonFinite
    | JStr(s: string)
    | JArray(items: seq<Json>)
    | JObject(fields: map<string, Json>)

  /** What reading the settings file gives: no file, a read or parse failure, or a parsed root. */
  datatype Source = Missing | Unreadable | Parsed(root: Json)

  /** guild id as a decimal string -> role id. */
  type GuildSettings = map<string, int>

  /**
   * Python's `int(v)` on a JSON value; `None` where it raises. Booleans give 0
   * or 1, integers themselves, finite floats their truncation, strings their
   * decimal value; null, non-finite floats, arrays and objects raise.
   */
  function IntOf(v: Json): (r: Option<int>)
    ensures r.None? <==> v.JNull? || v.JNonFinite? || v.JArray? || v.JObject? || (v.JStr? && PyInt.ParseInt(v.s).None?)
    ensures v.JBool? ==> r.Some? && (r.value == 1 <==> v.b) && (r.value == 0 <==> !v.b)
    ensures v.JInt? ==> r == Some(v.i)
    ensures v.JFloat? ==> r == Some(v.truncated)
    ensures v.JStr? ==> r == PyInt.ParseInt(v.s)
  {
    match v
    case JBool(b) => Some(if b then 1 else 0)
    case JInt(i) => Some(i)
    case JFloat(t) => Some(t)
    case JStr(s) => PyInt.ParseInt(s)
    case _ => None
  }

  /** The entries of `raw` whose key is in `keys` and whose value converts, converted. */
  function Converted(raw: map<string, Json>, keys: set<string>): GuildSettings {
    map k | k in keys && k in raw && IntOf(raw[k]).Some? :: IntOf(raw[k]).value
  }

  /** The settings `load_settings` returns for what the file holds. */
  function Loaded(src: Source): GuildSettings {
    if src.Parsed? && src.root.JObject? then Converted(src.root.fields, src.root.fields.Keys) else map[]
  }

  /** `load_settings`: fills the result one raw entry at a time, skipping entries whose value does not convert. */
  method LoadSettings(src: Source) returns (out: GuildSettings)
    ensures out == Loaded(src)
  {
    out := map[];
    if src.Parsed? && src.root.JObject? {
      var raw := src.root.fields;
      var todo := raw.Keys;
      while todo != {}
        invariant todo <= raw.Keys
        invariant out == Converted(raw, raw.Keys - todo)
        decreases todo
      {
        var k :| k in todo;
        ghost var done := raw.Keys - todo;
        match IntOf(raw[k]) {
          case Some(n) => out := out[k := n];
          case None =>
        }
        todo := todo - {k};
        assert raw.Keys - todo == done + {k};
      }
    }
  }

  /** A file that is missing, unreadable, or whose root is not an object loads as the empty map. */
  lemma NonObjectLoadsEmpty(src: Source)
    requires !(src.Parsed? && src.root.JObject?)
    ensures Loaded(src) == map[]
  {
  }

  /** An entry survives loading exactly when its value converts to an integer, and then holds that integer. */
  lemma LoadedEntry(raw: map<string, Json>, k: string)
    ensures k in Loaded(Parsed(JObject(raw))) <==> k in raw && IntOf(raw[k]).Some?
    ensures k in Loaded(Parsed(JObject(raw))) ==> Loaded(Parsed(JObject(raw)))[k] == IntOf(raw[k]).value
  {
  }

  /** One malformed entry among valid ones is dropped and every valid entry is kept. */
  lemma OneMalformedEntryDropped(raw: map<string, Json>, bad: string)
    requires bad in raw && IntOf(raw[bad]).None?
    requires forall k :: k in raw && k != bad ==> IntOf(raw[k]).Some?
    ensures Loaded(Parsed(JObject(raw))).Keys == raw.Keys - {bad}
    ensures |Loaded(Parsed(JObject(raw)))| == |raw| - 1
  {
    var r := Loaded(Parsed(JObject(raw)));
    assert r.Keys == raw.Keys - {bad};
    assert |raw.Keys - {bad}| == |raw.Keys| - 1;
  }

  /** What `save_settings` writes: an object of integers under the same keys. */
  function Dump(s: GuildSettings): (j: Json)
    ensures j.JObject? && j.fields.Keys == s.Keys
    ensures forall k :: k in s ==> j.fields[k] == JInt(s[k])
  {
    JObject(map k | k in s :: JInt(s[k]))
  }

  /** Saving and loading again gives back the same settings, so a configuration survives a restart. */
  lemma ReloadDump(s: GuildSettings)
    ensures Loaded(Parsed(Dump(s))) == s
  {
    var r := Loaded(Parsed(Dump(s)));
    assert r.Keys == s.Keys;
  }

  /** A role id written as a quoted decimal string loads as that id. */
  lemma QuotedIdLoads(raw: map<string, Json>, k: string, id: int)
    requires k in raw && raw[k] == JStr(PyInt.ShowInt(id))
    requires |PyInt.ShowNat(if id < 0 then -id else id)| <= PyInt.MaxStrDigits
    ensures k in Loaded(Parsed(JObject(raw))) && Loaded(Parsed(JObject(raw)))[k] == id
  {
    PyInt.ParseShowInt(id);
  }

  /** `str(guild.id)`: the key of a guild in the settings. */
  function GuildKey(guildId: nat): (k: string)
    ensures |k| > 0 && forall i :: 0 <= i < |k| ==> PyInt.IsDigit(k[i])
    ensures PyInt.DigitsValue(k) == guildId
    ensures |k| == 1 || k[0] != '0'
  {
    PyInt.ShowNatDigits(guildId);
    PyInt.ShowNatNoLeadingZero(guildId);
    PyInt.ShowNat(guildId)
  }

  /** `int()` reads a guild's key back as its id, within the digit limit. */
  lemma GuildKeyReads(guildId: nat)
    requires |GuildKey(guildId)| <= PyInt.MaxStrDigits
    ensures PyInt.ParseInt(GuildKey(guildId)) == Some(guildId as int)
  {
    PyInt.ParseShowInt(guildId);
  }

  /** Two guilds never share a settings entry. */
  lemma GuildKeyInjective(g: nat, h: nat)
    requires g != h
    ensures GuildKey(g) != GuildKey(h)
  {
    if GuildKey(g) == GuildKey(h) {
      PyInt.ShowNatInjective(g, h);
    }
  }

  /**
   * `_get_spam_role`: the configured role of a guild, if it is set, non-zero
   * and still one of the guild's roles (`guildRoles`: the ids `guild.get_role` finds).
   */
  function GetSpamRole(settings: GuildSettings, guildId: nat, guildRoles: set<int>): (r: Option<int>)
    ensures GuildKey(guildId) !in settings ==> r == None
    ensures GuildKey(guildId) in settings && settings[GuildKey(guildId)] == 0 ==> r == None
    ensures r.Some? ==> r.value != 0 && r.value in guildRoles
    ensures r.Some? ==> r.value == settings[GuildKey(guildId)]
    ensures r.Some? <==> GuildKey(guildId) in settings && settings[GuildKey(guildId)] != 0
                         && settings[GuildKey(guildId)] in guildRoles
  {
    var key := GuildKey(guildId);
    if key !in settings || settings[key] == 0 then None
    else if settings[key] in guildRoles then Some(settings[key])
    else None
  }

  /** A role as the setup command sees it: its id and its position in the guild's hierarchy. */
  datatype Role = Role(id: int, rank: int)

  /**
   * The setup command's hierarchy guard: refused when the bot's member is
   * known and the role is not strictly below the bot's top role.
   */
  predicate SetupAllowed(role: Role, botTopRank: Option<int>) {
    botTopRank.None? || role.rank < botTopRank.value
  }

  /** The single-key store the setup command performs. */
  function Configure(settings: GuildSettings, guildId: nat, roleId: int): (r: GuildSettings)
    ensures r.Keys == settings.Keys + {GuildKey(guildId)}
    ensures r[GuildKey(guildId)] == roleId
    ensures forall k :: k in settings && k != GuildKey(guildId) ==> r[k] == settings[k]
  {
    settings[GuildKey(guildId) := roleId]
  }

  /** After configuring a non-zero role that exists, the lookup finds it. */
  lemma ConfigureThenGet(settings: GuildSettings, guildId: nat, roleId: int, guildRoles: set<int>)
    requires roleId != 0 && roleId in guildRoles
    ensures GetSpamRole(Configure(settings, guildId, roleId), guildId, guildRoles) == Some(roleId)
  {
  }

  /** Configuring one guild leaves every other guild's lookup as it was. */
  lemma ConfigureOtherGuild(settings: GuildSettings, g: nat, h: nat, roleId: int, guildRoles: set<int>)
    requires g != h
    ensures GetSpamRole(Configure(settings, g, roleId), h, guildRoles) == GetSpamRole(settings, h, guildRoles)
  {
    GuildKeyInjective(g, h);
  }

  /** Configuring twice is the same as configuring with the last role; repeating a call changes nothing. */
  lemma ConfigureLastWins(settings: GuildSettings, g: nat, a: int, b: int)
    ensures Configure(Configure(settings, g, a), g, b) == Configure(settings, g, b)
    ensures Configure(Configure(settings, g, b), g, b) == Configure(settings, g, b)
  {
  }
}
