# ez_tweet credential and message checks, in Dafny

ez_tweet is a small desktop tool that posts a short text to X. Before the
window opens, it loads five API credentials from an optional config file and
the process environment. Before each post, it checks the text. This project
models that pure core of `cli.py` and proves its properties:

- **Credential assembly** (`Credentials.from_mapping`). A mapping either gives
  a five-field record or fails with one `ValueError`. The error names every
  missing or empty key, in the order of `CREDENTIAL_KEYS`, joined by `", "`.
- **Credential merge** (`load_credentials`). For each of the five keys, the
  environment value wins when it is non-empty. Otherwise the file's value is
  used, or `""` when the file has none.
- **`KEY=VALUE` parsing** (the text branch of `parse_config_file`). The file is
  read line by line into a dictionary. Blank lines, `#` comments and lines
  without `=` are skipped. Every other line splits at its first `=`. A later
  line overwrites an earlier one with the same key.
- **Text validation** (`validate_text`). The text is stripped. Empty text is
  rejected first, then text longer than `max_length`. Otherwise the stripped
  text is returned.

Modules:

- `Results` (results.dfy) holds `Option` and `Result`. `Err` stands for a
  raised exception.
- `PyStr` (pystr.dfy) holds the Python string operations the core uses.
  `str.strip()` removes exactly the characters for which `str.isspace()` is
  true. It is proved to cut out the unique piece between the leading and the
  trailing whitespace. `", ".join` is proved to be undone by splitting.
  `str(int)` is proved to read back as the same number.
- `Credential` (credentials.dfy) models `CREDENTIAL_KEYS`, `Credentials` and
  `from_mapping`.
- `Config` (config.dfy) models line parsing, the merge and `load_credentials`.
  The parsing loop is a method over a `map` variable. It is proved equal to a
  left fold (`ParseLines`), and the last-line-wins property is proved about
  that fold.
- `Validation` (validation.dfy) models `validate_text`. Its two errors are a
  datatype whose `Message()` gives the exact exception text.

Inputs the program reads from the outside world are parameters here. The
environment is a `map<string, string>`. A config file is a `ConfigSource`:
no path (or the empty path), a path that does not exist, a `.json` file given
as its decoded dictionary, or any other file given as its lines.

Two modelling choices:

- The body of the parsing loop calls `LineEntry` for one line's strip,
  comment check and split. The source writes these steps inline.
  `LineEntrySpec` states what they do.
- `max_length` is any integer, as argparse accepts it. It is not restricted
  to a positive limit. With a limit below 1, every non-blank text gets the
  length error.

## Model

| member | source | states |
|---|---|---|
| `Credential.KeysAreNames` | cli.py:18-24 | every credential key is a non-empty run of capitals and underscores, so it contains no `=`, `,`, `#` or whitespace |
| `Credential.CredentialKeysDistinct` | cli.py:18-24 | the five keys are pairwise different |
| `Credential.MissingKeys` | cli.py:37 | a key is listed exactly when it is one of the keys and is absent or maps to `""`; the list is a subsequence of the keys |
| `Credential.MissingKeysInOrder` | cli.py:37 | for distinct keys, the missing keys keep the key order and contain no duplicates |
| `Credential.FromMapping` | cli.py:36-46 | assembly fails exactly when some credential key is absent or empty; every record it builds has all five fields non-empty |
| `Credential.FromMappingErrorListsMissing` | cli.py:37-39 | the error is `Missing X credentials: ` followed by text that splits on `", "` into exactly the missing keys, in key order, each once, none left out |
| `Credential.FromMappingFields` | cli.py:40-46 | on success each field equals the mapping's value for its key |
| `Credential.ToMapping` | cli.py:40-46 | a record's mapping has exactly the five credential keys |
| `Credential.FromMappingRoundTrip` | cli.py:36-46 | every record with five non-empty fields is what assembly builds from its own mapping |
| `Config.LineEntry` | cli.py:94-99 | one line's contribution to the dictionary: nothing for a blank line, a `#` comment or a line without `=`, else the pair of stripped texts around the first `=` (its meaning is proved in `LineEntrySpec`) |
| `Config.LineEntrySpec` | cli.py:94-99 | a line contributes exactly when its stripped form is non-empty, does not start with `#` and contains `=`; the pair is the stripped text before the first `=` and the stripped rest, which may contain `=` |
| `Config.LineEntryRoundTrip` | cli.py:94-99 | a stripped key that is non-empty, not a comment and free of `=`, written with a stripped value as `KEY=VALUE`, is read back as the same pair |
| `Config.Entries` | cli.py:93-99 | the contributions of the lines in file order: entry `i` is what line `i` contributes, and there are as many entries as lines |
| `Config.Collect` | cli.py:91-99 | the dictionary that starts empty and takes each contributed pair in order, a later pair overwriting an earlier one with the same key (proved in `CollectLastWins`) |
| `Config.ParseLines` | cli.py:91-100 | the dictionary the text branch returns for the given lines: the lines' contributions collected in order |
| `Config.ParseConfigLines` | cli.py:91-100 | the loop that updates the dictionary line by line ends with the left fold of the lines' entries |
| `Config.ParseLinesStep` | cli.py:93-99 | reading one more line applies exactly that line's assignment, or nothing |
| `Config.LastSet` | cli.py:91-100 | the index it returns is a line that assigns the key, and no later line does; -1 means no line does |
| `Config.CollectLastWins` | cli.py:99 | a key is in the folded dictionary exactly when some entry assigns it, and its value is the last such entry's |
| `Config.ParseLinesLastWins` | cli.py:91-100 | a key is in the parsed configuration exactly when some line assigns it; its value comes from the last line that assigns it, so keys no line assigns are absent |
| `Config.Merge` | cli.py:109 | the merged mapping: for each of the five keys, the non-empty environment value, else the file's value, else `""`; its keys are exactly the five credential keys |
| `Config.MergePrecedence` | cli.py:109 | the merged map has exactly the five keys; a non-empty environment value wins, then the file's value, then `""` |
| `Config.MergeMissing` | cli.py:109 | after the merge a key is empty exactly when neither the environment nor the file provides a non-empty value |
| `Config.ParseConfigFile` | cli.py:82-100 | for a given path: fails, with the `FileNotFoundError` message, exactly when the file does not exist; a `.json` file gives its decoded dictionary, any other file the parsed lines |
| `Config.FileConfig` | cli.py:104-106 | the configuration `load_credentials` merges from: empty without a path, else what `parse_config_file` returns (a missing file is handled by `LoadCredentials` first) |
| `Config.LoadCredentials` | cli.py:103-110 | `load_credentials`: without a path, the record assembled from the environment alone; with a path, the file's error, or the record assembled from the merge of environment and file (proved in `LoadCredentialsSpec`) |
| `Config.LoadCredentialsSpec` | cli.py:103-110 | a missing file fails with `Config file <path> does not exist`; otherwise loading succeeds exactly when every key is provided by the environment or the file, and each field comes from the environment when that is non-empty, else from the file |
| `Config.CredentialLineRoundTrip` | cli.py:94-99 | a credential key written with a stripped value is read back as that pair |
| `Config.CredentialLinesEntries` | cli.py:93-99 | in a file with one `KEY=VALUE` line per credential key, line `i` contributes key `i` with its value |
| `Config.CredentialLinesParse` | cli.py:91-100 | a file with one `KEY=VALUE` line per credential key parses to each key's value |
| `Config.LoadWhenFileHasAll` | cli.py:103-110 | with no credential in the environment, a file holding all five non-empty values yields exactly those values |
| `Config.KeyValueFileExample` | cli.py:82-110 | with no credential in the environment, a `KEY=VALUE` file such as `X_BEARER_TOKEN=abc` … yields a record with `bearer_token == "abc"` and the other four values |
| `Validation.TextError.Message` | cli.py:115-118 | the text of each `ValueError`: `Message is empty after trimming whitespace`, or `Text exceeds maximum length of <max_length> characters` with the limit in decimal |
| `Validation.ValidateText` | cli.py:113-119 | an accepted text is the input with only leading and trailing whitespace removed, non-empty and within the limit; the empty error is reported exactly for whitespace-only input |
| `Validation.ValidateTextSpec` | cli.py:113-119 | validation succeeds exactly when the stripped text is non-empty and at most `max_length` long, and then returns the stripped text; the length error is reported exactly when the stripped text is non-empty and too long |
| `Validation.WhitespaceOnlyIsEmpty` | cli.py:115-116 | whitespace-only input gets the "empty after trimming" error whatever the limit, never the length error |
| `Validation.TooLongNamesLimit` | cli.py:117-118 | the length error's message is `Text exceeds maximum length of <n> characters`, and `<n>` reads back as `max_length` |
| `Validation.ValidateTextIdempotent` | cli.py:113-119 | validating an accepted text again accepts it unchanged |
| `Validation.InteriorWhitespaceKept` | cli.py:114 | whitespace inside the message is kept; only the two ends are trimmed |
| `Validation.DefaultLimitExample` | cli.py:117-118 | a 281-character text fails the default limit of 280 with the message `Text exceeds maximum length of 280 characters` |
| `PyStr.IsSpace` | cli.py:94 | the characters `str.isspace()` accepts, and so the ones `strip()` removes: tab through carriage return, the four separators U+001C-U+001F, space, U+0085, U+00A0, U+1680, U+2000-U+200A, U+2028, U+2029, U+202F, U+205F and U+3000 |
| `PyStr.Strip` | cli.py:114 | `str.strip()`: the input without its leading and trailing whitespace (proved in `StripSpec` and `StripUnique`) |
| `PyStr.StripStart` | cli.py:114 | the result is a suffix of the input, everything dropped is whitespace, and the result does not start with whitespace |
| `PyStr.StripEnd` | cli.py:114 | the result is a prefix of the input, everything dropped is whitespace, and the result does not end with whitespace |
| `PyStr.StripSpec` | cli.py:114 | `strip()` cuts out a contiguous piece with whitespace on both sides and none at its ends; it is empty exactly when the input is all whitespace |
| `PyStr.StripUnique` | cli.py:114 | any piece cut that way is the one `strip()` returns |
| `PyStr.StripIdempotent` | cli.py:94 | stripping twice is stripping once |
| `PyStr.StripStripped` | cli.py:99 | a string without whitespace at its ends strips to itself |
| `PyStr.FindChar` | cli.py:97-98 | the index returned is the first `=` in the line, or the line's length when it has none |
| `PyStr.FindSub` | cli.py:39 | the index returned is the first occurrence of the separator, or the string's length when there is none |
| `PyStr.Join` | cli.py:39 | `sep.join(parts)`: the parts in order with the separator between each two; undone by splitting (`SplitJoin`) |
| `PyStr.SplitJoin` | cli.py:39 | joining with a separator whose first character is in no part, then splitting on it, gives back the parts |
| `PyStr.NatToDecimal` | cli.py:118 | `str(n)` for a non-negative `n` is a non-empty string of decimal digits without a leading zero |
| `PyStr.IntToDecimal` | cli.py:118 | `str(n)` for any int: non-empty, starting with `-` exactly when `n` is negative, followed by the decimal digits of its magnitude (read back in `IntToDecimalRoundTrip`) |
| `PyStr.IntToDecimalRoundTrip` | cli.py:118 | the decimal text of any int reads back as that int |

## Left out

- `XClient` (cli.py:49-74) is left out. It wraps `tweepy.Client` and one network call. The shape of the API response belongs to a library this model cannot see.
- `TweetApp` (cli.py:122-179) is left out. It is tkinter widgets, the event loop, message dialogs, and a daemon thread that reports back through `root.after`. That is UI and concurrency. The character counter counts the untrimmed buffer, while `validate_text` counts the trimmed text. That difference is part of the UI and is not modelled.
- The JSON branch of `parse_config_file` (cli.py:86-89) is not modelled. Its `json.load` and its `str(v)` coercion of values are not modelled. A `.json` file enters the model as its already decoded string dictionary (`Config.JsonFile`). The test `path.lower().endswith(".json")` is not modelled either, because Unicode lower-casing is out of scope. The caller chooses between `JsonFile` and `TextFile`.
- The file system is not modelled: `os.path.exists` and `open` (cli.py:83-84, 92). A file is given as the sequence of its lines. Python's splitting into lines, with newline translation, is not modelled. A line may still carry its newline, which stripping removes.
- The file is opened with strict UTF-8 decoding (cli.py:92). Iterating the handle (cli.py:93) raises `UnicodeDecodeError` on bytes that are not valid UTF-8, and `run` then exits with status 1. A file given as its lines (`TextFile`) cannot express that failure, so it is not modelled.
- `os.environ` is not read. It is the parameter `env`.
- `parse_args`, `configure_logging` and `run` (cli.py:77-79, 182-222) are not modelled. Argument parsing, logging and the `SystemExit(1)` on a loading failure are plumbing. The logging calls in the modelled functions are dropped too.
- Python strings may hold lone surrogate code points. Dafny strings cannot, so such strings are outside the model.
