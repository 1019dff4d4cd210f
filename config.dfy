/**
 * `BotConfig`: reading the bot's settings out of the parsed `config.yml`.
 *
 * A setting is named by a dotted path (`bot.token`); `getString` and
 * `getBoolean` split the path at the dots and walk it through nested
 * mappings, falling back to a default. `Walk` is the specification of that
 * walk; `GetString` and `GetBoolean` are the loops, proved against it.
 */
module Config {
  import opened Wrappers
  import opened Yaml

  /** The token `createDefaultConfig` writes, which `validateConfig` refuses. */
  const Placeholder: string := "YOUR_BOT_TOKEN_HERE"

  // ---------------------------------------------------------------------
  // Java's `path.split("\\.")`
  // ---------------------------------------------------------------------

  /** The parts joined back with dots. */
  function JoinDots(parts: seq<string>): string
    requires |parts| >= 1
  {
    if |parts| == 1 then parts[0] else parts[0] + "." + JoinDots(parts[1..])
  }

  /** `s` cut at every dot, keeping every (possibly empty) piece. */
  function SplitAll(s: string): (parts: seq<string>)
    decreases |s|
    ensures |parts| >= 1
  {
    if s == [] then [""]
    else
      var rest := SplitAll(s[1..]);
      if s[0] == '.' then [""] + rest else [[s[0]] + rest[0]] + rest[1..]
  }

  /** The pieces hold no dot, and joined back with dots they give `s`. */
  lemma {:induction false} SplitAllPieces(s: string)
    ensures forall i :: 0 <= i < |SplitAll(s)| ==> '.' !in SplitAll(s)[i]
    ensures JoinDots(SplitAll(s)) == s
    decreases |s|
  {
    if s != [] {
      var rest := SplitAll(s[1..]);
      SplitAllPieces(s[1..]);
      if s[0] == '.' {
        assert JoinDots([""] + rest) == "" + "." + JoinDots(rest);
        assert s == [s[0]] + s[1..];
      } else {
        var parts := [[s[0]] + rest[0]] + rest[1..];
        assert parts[1..] == rest[1..];
        assert '.' !in parts[0];
        assert s == [s[0]] + s[1..];
      }
    }
  }

  /** Drops the empty strings at the end, as `split` with no limit does:
      the longest prefix that does not end in an empty string, everything
      after it being empty. */
  function DropTrailingEmpty(parts: seq<string>): (r: seq<string>)
    ensures r <= parts
    ensures r == [] || r[|r| - 1] != ""
    ensures forall i :: |r| <= i < |parts| ==> parts[i] == ""
  {
    if parts != [] && parts[|parts| - 1] == "" then DropTrailingEmpty(parts[..|parts| - 1])
    else parts
  }

  /** `path.split("\\.")`: a path without a dot is its own only part;
      otherwise the pieces between dots, with trailing empty pieces dropped. */
  function SplitPath(path: string): (parts: seq<string>)
    ensures forall i :: 0 <= i < |parts| ==> '.' !in parts[i]
    ensures '.' !in path ==> parts == [path]
    ensures '.' in path ==>
      && parts <= SplitAll(path)
      && (parts == [] || parts[|parts| - 1] != "")
      && forall i :: |parts| <= i < |SplitAll(path)| ==> SplitAll(path)[i] == ""
  {
    SplitAllPieces(path);
    if '.' !in path then [path] else DropTrailingEmpty(SplitAll(path))
  }

  /** Java's edge cases: an empty path is one empty part, a lone dot no
      part at all, a trailing dot is dropped, and leading or doubled dots
      give empty parts. */
  lemma SplitPathEdgeCases()
    ensures SplitPath("") == [""]
    ensures SplitPath(".") == []
    ensures SplitPath("a.") == ["a"]
    ensures SplitPath(".a") == ["", "a"]
    ensures SplitPath("a..b") == ["a", "", "b"]
  {
    assert "a."[1] == '.';
    assert SplitAll("") == [""];
    assert SplitAll(".") == ["", ""] by { assert "."[1..] == ""; }
    assert SplitAll("a.") == ["a", ""] by { assert "a."[1..] == "."; assert ['a'] + "" == "a"; }
    assert SplitAll("b") == ["b"] by { assert "b"[1..] == ""; assert ['b'] + "" == "b"; }
    assert SplitAll(".b") == ["", "b"] by { assert ".b"[1..] == "b"; }
    assert SplitAll("..b") == ["", "", "b"] by { assert "..b"[1..] == ".b"; }
    assert SplitAll("a..b") == ["a", "", "b"] by { assert "a..b"[1..] == "..b"; assert ['a'] + "" == "a"; }
    assert "a..b"[1] == '.';
  }

  lemma {:induction false} SplitAllDotFreePrefix(p: string, x: string)
    requires '.' !in p
    ensures SplitAll(p + x) == [p + SplitAll(x)[0]] + SplitAll(x)[1..]
    decreases |p|
  {
    if p == [] {
      assert p + x == x && p + SplitAll(x)[0] == SplitAll(x)[0];
      assert SplitAll(x) == [SplitAll(x)[0]] + SplitAll(x)[1..];
    } else {
      assert (p + x)[0] == p[0] && (p + x)[1..] == p[1..] + x;
      SplitAllDotFreePrefix(p[1..], x);
      var rest := SplitAll(p[1..] + x);
      assert rest[0] == p[1..] + SplitAll(x)[0] && rest[1..] == SplitAll(x)[1..];
      assert [p[0]] + (p[1..] + SplitAll(x)[0]) == p + SplitAll(x)[0];
    }
  }

  lemma SplitAllAfterDot(y: string)
    ensures SplitAll("." + y) == [""] + SplitAll(y)
  {
    assert ("." + y)[0] == '.' && ("." + y)[1..] == y;
  }

  lemma {:induction false} SplitAllJoin(parts: seq<string>)
    requires |parts| >= 1
    requires forall i :: 0 <= i < |parts| ==> '.' !in parts[i]
    ensures SplitAll(JoinDots(parts)) == parts
  {
    if |parts| == 1 {
      SplitAllDotFreePrefix(parts[0], "");
      assert parts[0] + "" == parts[0];
    } else {
      var tail := JoinDots(parts[1..]);
      SplitAllJoin(parts[1..]);
      SplitAllAfterDot(tail);
      SplitAllDotFreePrefix(parts[0], "." + tail);
      assert JoinDots(parts) == parts[0] + ("." + tail);
      assert SplitAll("." + tail) == [""] + parts[1..];
      assert parts[0] + "" == parts[0];
      assert parts == [parts[0]] + parts[1..];
    }
  }

  /** Splitting a path written as non-empty, dot-free names joined by dots
      gives back exactly those names. */
  lemma SplitPathJoin(parts: seq<string>)
    requires |parts| >= 1
    requires forall i :: 0 <= i < |parts| ==> parts[i] != "" && '.' !in parts[i]
    ensures SplitPath(JoinDots(parts)) == parts
  {
    if |parts| > 1 {
      SplitAllJoin(parts);
      assert '.' in JoinDots(parts) by {
        assert JoinDots(parts) == parts[0] + "." + JoinDots(parts[1..]);
        assert JoinDots(parts)[|parts[0]|] == '.';
      }
    }
  }

  // ---------------------------------------------------------------------
  // The path walk
  // ---------------------------------------------------------------------

  /** Follows `parts` from `v`: `None` when some step is taken from a value
      that is not a mapping, otherwise the value reached (`Null` when a key
      on the way is missing and the walk ends there). */
  function Walk(v: Value, parts: seq<string>): Option<Value>
    decreases parts
  {
    if parts == [] then Some(v)
    else if v.Map? then Walk(Get(v.entries, parts[0]), parts[1..])
    else None
  }

  /** Walking a path in two halves is walking it whole. */
  lemma {:induction false} WalkAppend(v: Value, p: seq<string>, q: seq<string>)
    ensures Walk(v, p + q) == match Walk(v, p) case None => None case Some(w) => Walk(w, q)
    decreases p
  {
    if p == [] {
      assert p + q == q;
    } else {
      assert (p + q)[0] == p[0] && (p + q)[1..] == p[1..] + q;
      if v.Map? {
        var next := Get(v.entries, p[0]);
        WalkAppend(next, p[1..], q);
        assert Walk(v, p + q) == Walk(next, p[1..] + q);
        assert Walk(v, p) == Walk(next, p[1..]);
      } else {
        assert Walk(v, p + q) == None;
      }
    }
  }

  /** A single mapping chain binding `parts` in turn, ending in `leaf`. */
  function Nest(parts: seq<string>, leaf: Value): Value
  {
    if parts == [] then leaf else Map([Entry(parts[0], Nest(parts[1..], leaf))])
  }

  /** Walking the chain's own path reaches its leaf. */
  lemma {:induction false} WalkNest(parts: seq<string>, leaf: Value)
    ensures Walk(Nest(parts, leaf), parts) == Some(leaf)
  {
    if parts != [] {
      WalkNest(parts[1..], leaf);
    }
  }

  /** What `getString(config, path, d)` returns. */
  function ConfigString(config: Value, path: string, defaultValue: string): string
  {
    match Walk(config, SplitPath(path))
    case Some(v) => if v.Null? then defaultValue else Text(v)
    case None => defaultValue
  }

  /** What `getBoolean(config, path, d)` returns. */
  function ConfigBool(config: Value, path: string, defaultValue: bool): bool
  {
    match Walk(config, SplitPath(path))
    case Some(Bool(b)) => b
    case _ => defaultValue
  }

  /** `getString`: the loop that walks the path one part at a time. */
  method GetString(config: Value, path: string, defaultValue: string) returns (r: string)
    ensures r == ConfigString(config, path, defaultValue)
  {
    var parts := SplitPath(path);
    var current := config;
    for i := 0 to |parts|
      invariant Walk(config, parts[..i]) == Some(current)
    {
      if current.Map? {
        current := Get(current.entries, parts[i]);
        WalkAppend(config, parts[..i], [parts[i]]);
        assert parts[..i] + [parts[i]] == parts[..i + 1];
      } else {
        WalkAppend(config, parts[..i], parts[i..]);
        assert parts[..i] + parts[i..] == parts;
        return defaultValue;
      }
    }
    assert parts[..|parts|] == parts;
    r := if current.Null? then defaultValue else Text(current);
  }

  /** `getBoolean`: the same walk; only a boolean at the end is taken. */
  method GetBoolean(config: Value, path: string, defaultValue: bool) returns (r: bool)
    ensures r == ConfigBool(config, path, defaultValue)
  {
    var parts := SplitPath(path);
    var current := config;
    for i := 0 to |parts|
      invariant Walk(config, parts[..i]) == Some(current)
    {
      if current.Map? {
        current := Get(current.entries, parts[i]);
        WalkAppend(config, parts[..i], [parts[i]]);
        assert parts[..i] + [parts[i]] == parts[..i + 1];
      } else {
        WalkAppend(config, parts[..i], parts[i..]);
        assert parts[..i] + parts[i..] == parts;
        return defaultValue;
      }
    }
    assert parts[..|parts|] == parts;
    r := if current.Bool? then current.b else defaultValue;
  }

  /** A string stored at a dotted path is what `getString` reads there. */
  lemma StringAtNestedPath(parts: seq<string>, s: string, defaultValue: string)
    requires |parts| >= 1
    requires forall i :: 0 <= i < |parts| ==> parts[i] != "" && '.' !in parts[i]
    ensures ConfigString(Nest(parts, Str(s)), JoinDots(parts), defaultValue) == s
  {
    SplitPathJoin(parts);
    WalkNest(parts, Str(s));
  }

  /** A non-boolean value at the path, or a path that cannot be followed,
      leaves `getBoolean` at its default. */
  lemma BoolDefaultUnlessBoolean(config: Value, path: string, defaultValue: bool)
    requires forall b :: Walk(config, SplitPath(path)) != Some(Bool(b))
    ensures ConfigBool(config, path, defaultValue) == defaultValue
  {
  }

  // ---------------------------------------------------------------------
  // The settings loadConfig reads, and validateConfig's token check
  // ---------------------------------------------------------------------

  /** The `bot` section of the configuration, or no entries when there is
      no such mapping. */
  function BotSection(config: Value): seq<Entry>
  {
    if config.Map? && Get(config.entries, "bot").Map? then Get(config.entries, "bot").entries else []
  }

  /** The value bound to `key` directly under `bot`. */
  function BotValue(config: Value, key: string): Value
  {
    Get(BotSection(config), key)
  }

  lemma BotSplit(key: string)
    requires key != "" && '.' !in key
    ensures SplitPath("bot." + key) == ["bot", key]
  {
    var parts := ["bot", key];
    assert '.' !in parts[0];
    assert parts[1..] == [key];
    assert JoinDots(parts) == "bot" + "." + key;
    assert "bot" + "." + key == "bot." + key;
    SplitPathJoin(parts);
  }

  /** A key directly under `bot` is reached by the two-part path: the walk
      ends at its value, or is cut short where there is no `bot` mapping. */
  lemma BotPath(config: Value, key: string)
    requires key != "" && '.' !in key
    ensures Walk(config, SplitPath("bot." + key)) ==
      if config.Map? && Get(config.entries, "bot").Map? then Some(BotValue(config, key)) else None
    ensures !(config.Map? && Get(config.entries, "bot").Map?) ==> BotValue(config, key) == Null
  {
    BotSplit(key);
    if config.Map? {
      var bot := Get(config.entries, "bot");
      assert Walk(config, ["bot", key]) == Walk(bot, [key]);
      if bot.Map? {
        assert Walk(bot, [key]) == Walk(Get(bot.entries, key), []);
      }
    }
  }

  /** A string setting under `bot` is its value's text, or the default when
      it is missing or null. */
  lemma BotString(config: Value, key: string, defaultValue: string)
    requires key != "" && '.' !in key
    ensures ConfigString(config, "bot." + key, defaultValue) ==
      (if BotValue(config, key).Null? then defaultValue else Text(BotValue(config, key)))
  {
    BotPath(config, key);
  }

  /** A boolean setting under `bot` is its value when that is a boolean, and
      the default otherwise. */
  lemma BotBool(config: Value, key: string, defaultValue: bool)
    requires key != "" && '.' !in key
    ensures ConfigBool(config, "bot." + key, defaultValue) ==
      (if BotValue(config, key).Bool? then BotValue(config, key).b else defaultValue)
  {
    BotPath(config, key);
  }

  /** `loadConfig` reads the token from `bot.token`, defaulting to "". */
  lemma TokenSetting(config: Value)
    ensures ConfigString(config, "bot.token", "") ==
      (if BotValue(config, "token").Null? then "" else Text(BotValue(config, "token")))
  {
    assert "bot.token" == "bot." + "token";
    BotString(config, "token", "");
  }

  /** `loadConfig` reads the guild id from `bot.guildId`, defaulting to "". */
  lemma GuildIdSetting(config: Value)
    ensures ConfigString(config, "bot.guildId", "") ==
      (if BotValue(config, "guildId").Null? then "" else Text(BotValue(config, "guildId")))
  {
    assert "bot.guildId" == "bot." + "guildId";
    BotString(config, "guildId", "");
  }

  /** `loadConfig` reads development mode from `bot.devMode`: on only when
      that is the boolean true. */
  lemma DevModeSetting(config: Value)
    ensures ConfigBool(config, "bot.devMode", false) == (BotValue(config, "devMode") == Bool(true))
  {
    assert "bot.devMode" == "bot." + "devMode";
    BotBool(config, "devMode", false);
  }

  /** `loadConfig` reads the log level from `bot.logLevel`, defaulting to "INFO". */
  lemma LogLevelSetting(config: Value)
    ensures ConfigString(config, "bot.logLevel", "INFO") ==
      (if BotValue(config, "logLevel").Null? then "INFO" else Text(BotValue(config, "logLevel")))
  {
    assert "bot.logLevel" == "bot." + "logLevel";
    BotString(config, "logLevel", "INFO");
  }

  /** With no `bot` section the settings take their defaults: token "",
      guild id "", development mode off, log level "INFO". */
  lemma DefaultsWithoutBotSection(config: Value)
    requires !(config.Map? && Get(config.entries, "bot").Map?)
    ensures ConfigString(config, "bot.token", "") == ""
    ensures ConfigString(config, "bot.guildId", "") == ""
    ensures !ConfigBool(config, "bot.devMode", false)
    ensures ConfigString(config, "bot.logLevel", "INFO") == "INFO"
  {
    TokenSetting(config);
    GuildIdSetting(config);
    DevModeSetting(config);
    LogLevelSetting(config);
  }

  /** The bot's settings, read once when the program starts: the fields
      `loadConfig` sets. */
  datatype Settings = Settings(token: string, guildId: string, devMode: bool, logLevel: string)

  /** `loadConfig` on an already parsed document: each field read from its
      path under `bot`, with its default. */
  method LoadConfig(config: Value) returns (settings: Settings)
    ensures settings.token == ConfigString(config, "bot.token", "")
    ensures settings.guildId == ConfigString(config, "bot.guildId", "")
    ensures settings.devMode == ConfigBool(config, "bot.devMode", false)
    ensures settings.logLevel == ConfigString(config, "bot.logLevel", "INFO")
  {
    var token := GetString(config, "bot.token", "");
    var guildId := GetString(config, "bot.guildId", "");
    var devMode := GetBoolean(config, "bot.devMode", false);
    var logLevel := GetString(config, "bot.logLevel", "INFO");
    settings := Settings(token, guildId, devMode, logLevel);
  }

  /** `String.trim`: strips every character up to U+0020 from both ends.
      Nothing is left exactly when every character is such a one. */
  function Trim(s: string): (r: string)
    ensures r == "" <==> forall i :: 0 <= i < |s| ==> s[i] <= ' '
    ensures r != "" ==> r[0] > ' ' && r[|r| - 1] > ' '
  {
    TrimEnd(TrimStart(s))
  }

  /** The suffix of `s` left after its leading characters up to U+0020. */
  function TrimStart(s: string): (r: string)
    ensures |r| <= |s| && r == s[|s| - |r|..]
    ensures r == [] || r[0] > ' '
    ensures forall i :: 0 <= i < |s| - |r| ==> s[i] <= ' '
  {
    if s != [] && s[0] <= ' ' then
      var r := TrimStart(s[1..]);
      assert s[1..][|s| - 1 - |r|..] == s[|s| - |r|..];
      assert forall i :: 1 <= i < |s| - |r| ==> s[i] == s[1..][i - 1];
      r
    else s
  }

  /** The prefix of `s` left before its trailing characters up to U+0020. */
  function TrimEnd(s: string): (r: string)
    ensures |r| <= |s| && r == s[..|r|]
    ensures r == [] || r[|r| - 1] > ' '
    ensures forall i :: |r| <= i < |s| ==> s[i] <= ' '
  {
    if s != [] && s[|s| - 1] <= ' ' then
      var r := TrimEnd(s[..|s| - 1]);
      assert s[..|s| - 1][..|r|] == s[..|r|];
      assert forall i :: |r| <= i < |s| - 1 ==> s[i] == s[..|s| - 1][i];
      r
    else s
  }

  /** `validateConfig`'s test: a token is refused when it is blank after
      trimming or is still the placeholder. Refusal exits the program. */
  function TokenAccepted(token: string): (ok: bool)
    ensures ok <==> token != Placeholder && exists i :: 0 <= i < |token| && token[i] > ' '
  {
    Trim(token) != "" && token != Placeholder
  }

  /** The configuration `createDefaultConfig` writes, as it is read back.
      Both levels are `HashMap`s, so the file lists the keys in the JDK's
      iteration order for a table of 16 buckets (bucket by bucket, and in
      insertion order within a bucket), not in the order they were put. */
  function DefaultDocument(): Value
  {
    Map([
      Entry("database", Map([
        Entry("password", Str("")),
        Entry("enabled", Bool(false)),
        Entry("url", Str("jdbc:sqlite:orion.db")),
        Entry("username", Str(""))])),
      Entry("bot", Map([
        Entry("devMode", Bool(true)),
        Entry("logLevel", Str("INFO")),
        Entry("guildId", Str("")),
        Entry("token", Str(Placeholder))]))])
  }

  /** A freshly written default configuration is always refused: the token
      must be edited before the bot starts. */
  lemma DefaultDocumentRejected()
    ensures !TokenAccepted(ConfigString(DefaultDocument(), "bot.token", ""))
  {
    TokenSetting(DefaultDocument());
    assert Get(DefaultDocument().entries, "bot") == DefaultDocument().entries[1].value;
    assert BotValue(DefaultDocument(), "token") == Str(Placeholder);
  }

  /** A configuration without a token is refused. */
  lemma MissingTokenRejected(config: Value)
    requires BotValue(config, "token") == Null
    ensures !TokenAccepted(ConfigString(config, "bot.token", ""))
  {
    TokenSetting(config);
  }
}
