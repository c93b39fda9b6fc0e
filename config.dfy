/**
 * Reading credentials: the `KEY=VALUE` text branch of `parse_config_file`
 * and the environment-over-file merge of `load_credentials` (cli.py).
 * The file system and `os.environ` are parameters: a file is the sequence
 * of its lines, the environment a map.
 */
module Config {
  import opened Results
  import PyStr
  import Credential

  /**
   * What one line of a `KEY=VALUE` file contributes: nothing for a blank
   * line, a `#` comment or a line without `=`, else the stripped text
   * before the first `=` and the stripped text after it.
   */
  function LineEntry(rawLine: string): Option<(string, string)> {
    var line := PyStr.Strip(rawLine);
    if line == [] || line[0] == '#' then None
    else
      var eq := PyStr.FindChar(line, '=');
      if eq == |line| then None
      else Some((PyStr.Strip(line[..eq]), PyStr.Strip(line[eq + 1..])))
  }

  /**
   * A line contributes exactly when its stripped form is neither empty nor
   * a comment and contains `=`; the key is the stripped text before the
   * first `=`, the value the stripped rest, which may itself contain `=`.
   */
  lemma LineEntrySpec(rawLine: string)
    ensures var line := PyStr.Strip(rawLine);
      && (LineEntry(rawLine).Some? <==> line != [] && line[0] != '#' && '=' in line)
      && (LineEntry(rawLine).Some? ==>
            exists i :: 0 <= i < |line| && line[i] == '=' && '=' !in line[..i]
              && LineEntry(rawLine).value == (PyStr.Strip(line[..i]), PyStr.Strip(line[i + 1..])))
  {
    var line := PyStr.Strip(rawLine);
    if line == [] || line[0] == '#' {
      assert LineEntry(rawLine) == None;
    } else {
      var eq := PyStr.FindChar(line, '=');
      if eq == |line| {
        assert LineEntry(rawLine) == None;
        assert line[..eq] == line;
      } else {
        var entry := (PyStr.Strip(line[..eq]), PyStr.Strip(line[eq + 1..]));
        assert LineEntry(rawLine) == Some(entry);
        assert line[eq] == '=' && '=' !in line[..eq];
      }
    }
  }

  /** The line `KEY=VALUE` as a configuration file holds it. */
  function FormatLine(key: string, value: string): string {
    key + "=" + value
  }

  /**
   * A key that is non-empty, stripped, not a comment and free of `=`, with
   * a stripped value (which may contain `=`), survives a write and a read.
   */
  lemma LineEntryRoundTrip(key: string, value: string)
    requires key != [] && key[0] != '#' && '=' !in key
    requires PyStr.IsStripped(key) && PyStr.IsStripped(value)
    ensures LineEntry(FormatLine(key, value)) == Some((key, value))
  {
    var line := FormatLine(key, value);
    assert line[0] == key[0];
    assert line[|line| - 1] == if value == [] then '=' else value[|value| - 1];
    PyStr.StripStripped(line);
    var eq := PyStr.FindChar(line, '=');
    assert line[|key|] == '=';
    assert line[..eq] == key[..eq];
    assert eq == |key|;
    assert line[..eq] == key;
    assert line[eq + 1..] == value;
    PyStr.StripStripped(key);
    PyStr.StripStripped(value);
  }

  /** `config[key] = value` for a line that contributes, nothing otherwise. */
  function Assign(config: map<string, string>, entry: Option<(string, string)>): map<string, string> {
    match entry
    case None => config
    case Some((key, value)) => config[key := value]
  }

  /** What each line contributes, in file order. */
  function Entries(lines: seq<string>): (entries: seq<Option<(string, string)>>)
    ensures |entries| == |lines|
  {
    seq(|lines|, i requires 0 <= i < |lines| => LineEntry(lines[i]))
  }

  /** The dictionary built by assigning the entries in order. */
  function Collect(entries: seq<Option<(string, string)>>): map<string, string> {
    if entries == [] then map[]
    else Assign(Collect(entries[..|entries| - 1]), entries[|entries| - 1])
  }

  /** The configuration the loop has built after reading `lines`. */
  function ParseLines(lines: seq<string>): map<string, string> {
    Collect(Entries(lines))
  }

  /** The text branch of `parse_config_file`, over the lines of the file. */
  method ParseConfigLines(lines: seq<string>) returns (config: map<string, string>)
    ensures config == ParseLines(lines)
  {
    config := map[];
    for n := 0 to |lines|
      invariant config == ParseLines(lines[..n])
    {
      // strip, skip blanks and comments, split at the first '=', strip both sides
      var entry := LineEntry(lines[n]);
      if entry.Some? {
        var (key, value) := entry.value;
        config := config[key := value];
      }
      ParseLinesStep(lines, n);
    }
    assert lines[..|lines|] == lines;
  }

  /** Reading one more line assigns what that line contributes. */
  lemma ParseLinesStep(lines: seq<string>, n: nat)
    requires n < |lines|
    ensures ParseLines(lines[..n + 1]) == Assign(ParseLines(lines[..n]), LineEntry(lines[n]))
  {
    var entries := Entries(lines[..n + 1]);
    assert lines[..n + 1][..n] == lines[..n];
    assert entries[..n] == Entries(lines[..n]);
  }

  /** Entry `i` assigns `key`. */
  predicate Sets(entries: seq<Option<(string, string)>>, i: int, key: string) {
    0 <= i < |entries| && entries[i].Some? && entries[i].value.0 == key
  }

  /** The index of the last entry that assigns `key`, or -1 when none does. */
  function LastSet(entries: seq<Option<(string, string)>>, key: string): (i: int)
    ensures -1 <= i < |entries|
    ensures i >= 0 ==> Sets(entries, i, key)
    ensures forall j :: i < j < |entries| ==> !Sets(entries, j, key)
  {
    if entries == [] then -1
    else if Sets(entries, |entries| - 1, key) then |entries| - 1
    else
      var i := LastSet(entries[..|entries| - 1], key);
      assert forall j :: i < j < |entries| - 1 ==> Sets(entries, j, key) == Sets(entries[..|entries| - 1], j, key);
      i
  }

  /**
   * A key is in the collected dictionary exactly when some entry assigns it,
   * and its value is the one the last such entry gives.
   */
  lemma {:induction false} CollectLastWins(entries: seq<Option<(string, string)>>, key: string)
    ensures key in Collect(entries) <==> LastSet(entries, key) >= 0
    ensures key in Collect(entries) ==> Collect(entries)[key] == entries[LastSet(entries, key)].value.1
  {
    if entries != [] {
      var init := entries[..|entries| - 1];
      CollectLastWins(init, key);
      if !Sets(entries, |entries| - 1, key) {
        assert LastSet(entries, key) == LastSet(init, key);
        var i := LastSet(init, key);
        assert i >= 0 ==> entries[i] == init[i];
      }
    }
  }

  /** Line `lines[i]` assigns `key`: its entry does. */
  predicate SetsKey(lines: seq<string>, i: int, key: string) {
    Sets(Entries(lines), i, key)
  }

  /**
   * A key is in the parsed configuration exactly when some line assigns it,
   * and its value is the one the last such line gives: later lines win, and
   * keys no line assigns are absent.
   */
  lemma ParseLinesLastWins(lines: seq<string>, key: string)
    ensures key in ParseLines(lines) <==> exists i :: SetsKey(lines, i, key)
    ensures key in ParseLines(lines) ==>
      exists i :: SetsKey(lines, i, key)
        && Entries(lines)[i].value.1 == ParseLines(lines)[key]
        && forall j :: i < j < |lines| ==> !SetsKey(lines, j, key)
  {
    var entries := Entries(lines);
    CollectLastWins(entries, key);
    var last := LastSet(entries, key);
    if key in ParseLines(lines) {
      assert SetsKey(lines, last, key);
    }
  }

  /** `os.environ.get(key) or config.get(key, "")` for each of the five keys. */
  function Merge(env: map<string, string>, config: map<string, string>): (merged: map<string, string>)
    ensures merged.Keys == set key | key in Credential.CredentialKeys
  {
    map key | key in Credential.CredentialKeys ::
      if Credential.Provided(env, key) then env[key]
      else if key in config then config[key]
      else ""
  }

  /**
   * The merged map has exactly the five keys; a non-empty environment value
   * wins, then the file's value, then "".
   */
  lemma MergePrecedence(env: map<string, string>, config: map<string, string>, key: string)
    ensures key in Merge(env, config) <==> key in Credential.CredentialKeys
    ensures key in Credential.CredentialKeys && Credential.Provided(env, key) ==>
      Merge(env, config)[key] == env[key]
    ensures key in Credential.CredentialKeys && !Credential.Provided(env, key) && key in config ==>
      Merge(env, config)[key] == config[key]
    ensures key in Credential.CredentialKeys && !Credential.Provided(env, key) && key !in config ==>
      Merge(env, config)[key] == ""
  {
  }

  /** After the merge a key is missing exactly when neither source provides it. */
  lemma MergeMissing(env: map<string, string>, config: map<string, string>)
    ensures forall key :: key in Credential.CredentialKeys ==>
      (Credential.Provided(Merge(env, config), key) <==>
        Credential.Provided(env, key) || Credential.Provided(config, key))
  {
  }

  /** Where the configuration file comes from, as far as `load_credentials` can tell. */
  datatype ConfigSource =
    | NoConfigPath                          // no path, or the empty path
    | FileNotFound(path: string)            // `os.path.exists(path)` is false
    | JsonFile(data: map<string, string>)   // a `.json` path, already decoded
    | TextFile(lines: seq<string>)          // any other path, as its lines

  /** `parse_config_file`; `Err` carries the `FileNotFoundError` message. */
  function ParseConfigFile(source: ConfigSource): (r: Result<map<string, string>, string>)
    requires !source.NoConfigPath?
    ensures r.Err? <==> source.FileNotFound?
  {
    match source
    case FileNotFound(path) => Err("Config file " + path + " does not exist")
    case JsonFile(data) => Ok(data)
    case TextFile(lines) => Ok(ParseLines(lines))
  }

  /** The dictionary the configuration file yields, empty when there is none. */
  function FileConfig(source: ConfigSource): map<string, string> {
    match source
    case NoConfigPath => map[]
    case FileNotFound(_) => map[]
    case JsonFile(data) => data
    case TextFile(lines) => ParseLines(lines)
  }

  /** `load_credentials(config_path)` with the environment `env`. */
  function LoadCredentials(env: map<string, string>, source: ConfigSource)
    : Result<Credential.Credentials, string>
  {
    if source.NoConfigPath? then Credential.FromMapping(Merge(env, map[]))
    else
      match ParseConfigFile(source)
      case Err(e) => Err(e)
      case Ok(config) => Credential.FromMapping(Merge(env, config))
  }

  /**
   * Loading fails on a missing file with its message; otherwise it succeeds
   * exactly when every key has a non-empty value in the environment or the
   * file, and each field then comes from the environment when that is
   * non-empty, else from the file.
   */
  lemma LoadCredentialsSpec(env: map<string, string>, source: ConfigSource)
    ensures source.FileNotFound? ==>
      LoadCredentials(env, source) == Err("Config file " + source.path + " does not exist")
    ensures !source.FileNotFound? ==>
      (LoadCredentials(env, source).Ok? <==>
        forall key :: key in Credential.CredentialKeys ==>
          Credential.Provided(env, key) || Credential.Provided(FileConfig(source), key))
    ensures LoadCredentials(env, source).Ok? ==>
      forall key :: key in Credential.CredentialKeys ==>
        Credential.ToMapping(LoadCredentials(env, source).value)[key]
          == if Credential.Provided(env, key) then env[key] else FileConfig(source)[key]
  {
    var merged := Merge(env, FileConfig(source));
    MergeMissing(env, FileConfig(source));
    if LoadCredentials(env, source).Ok? {
      Credential.FromMappingFields(merged);
    }
  }

  /** A credential key written with a stripped value is read back as that pair. */
  lemma CredentialLineRoundTrip(key: string, value: string)
    requires Credential.IsKeyName(key) && PyStr.IsStripped(value)
    ensures LineEntry(FormatLine(key, value)) == Some((key, value))
  {
    assert key[0] != '#' && '=' !in key;
    assert PyStr.IsStripped(key);
    LineEntryRoundTrip(key, value);
  }

  /** One `KEY=VALUE` line per credential key, in key order. */
  function CredentialLines(values: seq<string>): (lines: seq<string>)
    requires |values| == |Credential.CredentialKeys|
    ensures |lines| == |values|
  {
    seq(|values|, i requires 0 <= i < |values| => FormatLine(Credential.CredentialKeys[i], values[i]))
  }

  /** Line `i` of such a file contributes key `i` with value `i`. */
  lemma CredentialLinesEntries(values: seq<string>)
    requires |values| == |Credential.CredentialKeys|
    requires forall i :: 0 <= i < |values| ==> PyStr.IsStripped(values[i])
    ensures forall i :: 0 <= i < |values| ==>
      Entries(CredentialLines(values))[i] == Some((Credential.CredentialKeys[i], values[i]))
  {
    var keys := Credential.CredentialKeys;
    Credential.KeysAreNames();
    forall i | 0 <= i < |values|
      ensures Entries(CredentialLines(values))[i] == Some((keys[i], values[i]))
    {
      assert keys[i] in keys;
      CredentialLineRoundTrip(keys[i], values[i]);
    }
  }

  /** Parsing such a file gives each key its value. */
  lemma CredentialLinesParse(values: seq<string>)
    requires |values| == |Credential.CredentialKeys|
    requires forall i :: 0 <= i < |values| ==> PyStr.IsStripped(values[i])
    ensures forall i :: 0 <= i < |values| ==>
      Credential.CredentialKeys[i] in ParseLines(CredentialLines(values))
      && ParseLines(CredentialLines(values))[Credential.CredentialKeys[i]] == values[i]
  {
    var keys := Credential.CredentialKeys;
    var lines := CredentialLines(values);
    var entries := Entries(lines);
    CredentialLinesEntries(values);
    Credential.CredentialKeysDistinct();
    forall i | 0 <= i < |values|
      ensures keys[i] in ParseLines(lines) && ParseLines(lines)[keys[i]] == values[i]
    {
      assert SetsKey(lines, i, keys[i]);
      ParseLinesLastWins(lines, keys[i]);
      var k :| SetsKey(lines, k, keys[i])
        && entries[k].value.1 == ParseLines(lines)[keys[i]]
        && forall j :: k < j < |lines| ==> !SetsKey(lines, j, keys[i]);
      assert k == i;
    }
  }

  /** With no credential in the environment, the record holds the file's values. */
  lemma LoadWhenFileHasAll(env: map<string, string>, source: ConfigSource, values: seq<string>)
    requires !source.FileNotFound?
    requires forall key :: key in Credential.CredentialKeys ==> !Credential.Provided(env, key)
    requires |values| == |Credential.CredentialKeys|
    requires forall i :: 0 <= i < |values| ==>
      values[i] != "" && Credential.CredentialKeys[i] in FileConfig(source)
      && FileConfig(source)[Credential.CredentialKeys[i]] == values[i]
    ensures LoadCredentials(env, source)
      == Ok(Credential.Credentials(values[0], values[1], values[2], values[3], values[4]))
  {
    var keys := Credential.CredentialKeys;
    var merged := Merge(env, FileConfig(source));
    forall i | 0 <= i < |keys| ensures keys[i] in merged && merged[keys[i]] == values[i] {
      assert keys[i] in keys;
    }
    assert LoadCredentials(env, source) == Credential.FromMapping(merged);
    Credential.FromMappingFields(merged);
    var m := Credential.ToMapping(LoadCredentials(env, source).value);
    assert m[keys[0]] == values[0] && m[keys[1]] == values[1] && m[keys[2]] == values[2]
      && m[keys[3]] == values[3] && m[keys[4]] == values[4];
  }

  /**
   * With no credential in the environment, a `KEY=VALUE` file that holds
   * every key (`X_BEARER_TOKEN=abc` and so on) yields exactly its values.
   */
  lemma KeyValueFileExample(env: map<string, string>, values: seq<string>)
    requires forall key :: key in Credential.CredentialKeys ==> !Credential.Provided(env, key)
    requires |values| == |Credential.CredentialKeys|
    requires forall i :: 0 <= i < |values| ==> values[i] != "" && PyStr.IsStripped(values[i])
    ensures LoadCredentials(env, TextFile(CredentialLines(values)))
      == Ok(Credential.Credentials(values[0], values[1], values[2], values[3], values[4]))
  {
    CredentialLinesParse(values);
    LoadWhenFileHasAll(env, TextFile(CredentialLines(values)), values);
  }
}

