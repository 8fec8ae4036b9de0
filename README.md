# mlp-conf configuration resolution, modelled in Dafny

mlp-conf loads an application's configuration from several layers and records which layer supplied each value:

- a base INI file;
- an optional override file;
- `MLP_<SECTION>_<KEY>` environment variables.

`MlpConfig` validates the override file against the base. Every unknown section or key aborts the load with the first `ValueError`. Each base key is then resolved in six steps:

1. The base value is taken.
2. An override value replaces it.
3. An environment value replaces both.
4. `{name}` references to DEFAULT keys are substituted, in DEFAULT order.
5. The four `{{USER}}`, `{{DATE}}`, `{{GIT_BRANCH}}` and `{{CWD}}` tokens are substituted.
6. The value is typed as int, else float, else boolean word, else text. A key spelled `date` keeps its text.

Each base section becomes a `Namespace` object. `list_params` flattens the namespaces into `(section, key, value, source)` rows and skips attributes whose name starts with `_`. `MlpArgumentParser` adds one flag per such row. The flag defaults to the loaded value and converts its text with the value's type. Booleans go through `str2bool`.

The project has these modules:

- `Text`: Python's `strip`, ASCII case mapping and `str.replace`, with split/join as the reference for replace.
- `Numerals`: the texts `int()` and `float()` accept, the white space they skip, and `str()` of an integer.
- `Values`: the typed value and the boolean vocabulary that inference and `str2bool` share.
- `Layers`: ordered dictionaries, flattened entries, and `setdefault` two-level dictionaries.
- `EnvVar`: the runtime values and `envsubst`.
- `Config`: the loader, as the class `MlpConfig` with loop methods proved against specification functions.
- `ConfigFacts` and `ResolveFacts`: what a load guarantees.
- `ArgParse`: `str2bool` and the parser.

Some behaviours of the code are easy to miss. The model keeps them:

- **DEFAULT substitution chains.** The substitution at `src/mlp_conf/config.py:65-66` is a fold over the DEFAULT keys. Each step rewrites the result of the step before, so a DEFAULT value that mentions a later DEFAULT key is rewritten again (`ResolveFacts.DefaultsChain`).
- **A DEFAULT key `USER` shadows the runtime token.** It rewrites `{{USER}}` into `{<value>}` before `envsubst` runs, so the username never appears (`ResolveFacts.DefaultUserShadowsToken`).
- **Flag names come from the key alone.** `src/mlp_conf/argparse.py:29` and `:32` name each flag `--<key>`, with the key unchanged. The repository's own argparse test expects a name built from both section and key: it reads `args.section_key_1` (`tests/unit/mlp_conf/test_argparse.py:13`) and passes `--section_key_1` (line 23). The model follows the code.
- **`int()`, `float()` and `strip()` skip different white space.** `int()` and `float()` (`src/mlp_conf/config.py:78`, `:82`) skip non-ASCII white space and the ASCII blank, tab, line feed, vertical tab, form feed and carriage return. `strip()` (`:86`) also removes the four separators U+001C to U+001F. The model keeps the two apart (`Numerals.NumberStrip` beside `Text.Strip`).
- **"1" and "0" reach the boolean branch only with a separator at an end.** When `int()` reads exactly "1" or "0", `_infer_type` returns the integer (`ResolveFacts.OneAndZeroAreIntegers`). Text such as `"\u001c1"` is rejected by `int()` and `float()`, strips to "1", and is inferred as True (`ResolveFacts.SeparatorEdgedOneAndZero`, `ResolveFacts.SeparatorDigitIsBool`). `str2bool` accepts both forms as booleans.

## Model

| member | source | states |
|---|---|---|
| Text.Strip | src/mlp_conf/envvar.py:11 | Python's `strip()`: the result has no white space at either end (its contract); the contracts of `Text.StripLeft` and `Text.StripRight` state that only leading and trailing white space is cut, and `Text.StripIsCore` names the slice that is kept |
| Text.StripLeft | src/mlp_conf/envvar.py:11 | the left half of `strip()`: a suffix of the text, every cut-off character white space, the first kept one not |
| Text.StripRight | src/mlp_conf/envvar.py:11 | the right half of `strip()`: a prefix of the text, every cut-off character white space, the last kept one not |
| Text.StripIsCore | src/mlp_conf/config.py:86 | `strip()` keeps exactly the slice from the first to the last character that is not white space, and gives the empty string for text of white space only |
| Text.StripNoEdgeSpace | src/mlp_conf/envvar.py:11 | text with no white space at either end is its own strip |
| Text.StripIdempotent | src/mlp_conf/envvar.py:11 | stripping twice is stripping once |
| Text.Replace | src/mlp_conf/config.py:66 | `str.replace`, left to right and non-overlapping; its reference is `Text.ReplaceIsJoinOfSplit`, its effect `Text.SplitPiecesAreFree` and `Text.ReplaceAbsent` |
| Text.ReplaceIsJoinOfSplit | src/mlp_conf/config.py:66 | the left-to-right `replace` equals `rep.join(s.split(pat))` |
| Text.SplitJoinRoundTrip | src/mlp_conf/config.py:66 | joining the split pieces with the separator gives the string back |
| Text.SplitPiecesAreFree | src/mlp_conf/config.py:66 | no piece of a split contains the separator, so `replace` leaves no occurrence of the pattern it cut |
| Text.ReplaceAbsent | src/mlp_conf/config.py:66 | a string in which the pattern does not occur is unchanged by `replace` |
| Text.ReplaceEachAbsent | src/mlp_conf/config.py:65-66 | a fold of replacements none of whose patterns occurs leaves the string unchanged |
| Numerals.NumberStrip | src/mlp_conf/config.py:78-82 | the text `int()` and `float()` read: white space other than U+001C to U+001F is skipped at both ends (its contract); `Numerals.StripOfNumberStrip` relates it to `strip()` |
| Numerals.StripOfNumberStrip | src/mlp_conf/config.py:78-86 | `strip()` removes at least what `int()` and `float()` skip: the strip of the text they read is the strip of the whole text |
| Numerals.ParseInt | src/mlp_conf/config.py:78 | `int()` on text: surrounding white space other than U+001C to U+001F, an optional sign, then digits with single underscores between them; the lemmas `Numerals.ParseDigits`, `Numerals.ParseNegativeDigits`, `Numerals.UnderscoreJoin` and `Numerals.LeadingLetterIsNotNumeric` state what it accepts and rejects |
| Numerals.ParseDigits | src/mlp_conf/config.py:78 | a digit part is accepted by `int()` as its value |
| Numerals.ParseNegativeDigits | src/mlp_conf/config.py:78 | a minus sign and a digit part are accepted by `int()` as the negated value |
| Numerals.UnderscoreJoin | src/mlp_conf/config.py:78 | two digit parts joined by `_` form a digit part, and its value is that of the two parts joined directly |
| Numerals.DropUnderscore | src/mlp_conf/config.py:78 | removing one underscore anywhere in a text of digits and underscores keeps its value |
| Numerals.IsFloatLiteral | src/mlp_conf/config.py:82 | `float()` succeeds: surrounding white space other than U+001C to U+001F, an optional sign, then a decimal literal or inf/infinity/nan in any case; `Numerals.LeadingLetterIsNotNumeric` and `ResolveFacts.DecimalPointFloat` state what it accepts and rejects |
| Numerals.IntRoundTrip | src/mlp_conf/argparse.py:31 | `int(str(n)) == n` for every integer, negative ones included |
| Numerals.LeadingLetterIsNotNumeric | src/mlp_conf/config.py:77-84 | text whose strip starts with no digit, point or sign, and is not inf/infinity/nan, is rejected by both `int()` and `float()`, whatever separators surround it |
| Numerals.RejectedLead | src/mlp_conf/config.py:77-84 | when the text `int()` and `float()` read starts with no digit, point or sign and is not inf/infinity/nan, both reject it |
| Numerals.RejectedTrail | src/mlp_conf/config.py:77-84 | when the text `int()` and `float()` read ends with a separator U+001C to U+001F, both reject it |
| Numerals.EdgeSpaceIsNoNumber | src/mlp_conf/config.py:77-84 | when the text `int()` and `float()` read starts or ends with a separator U+001C to U+001F, both reject it |
| Numerals.TrailingSpaceIsNoFloat | src/mlp_conf/config.py:81-82 | no decimal literal ends with white space |
| EnvVar.FormatDate | src/mlp_conf/envvar.py:18 | the DATE stamp is exactly eight digits |
| EnvVar.DateRoundTrip | src/mlp_conf/envvar.py:18 | the DATE stamp reads back as the year, month and day it was made from |
| EnvVar.UserName | src/mlp_conf/envvar.py:17 | the USER-or-USERNAME fallback; `EnvVar.UserNameFallback` states it |
| EnvVar.UserNameFallback | src/mlp_conf/envvar.py:17 | USER wins when set and non-empty; otherwise a set, non-empty USERNAME wins; the result is empty exactly when neither is set and non-empty, and otherwise is one of the environment's values |
| EnvVar.GitBranch | src/mlp_conf/envvar.py:5-13 | the branch from `git`'s output, or the empty string when the command fails; `EnvVar.GitBranchIsStripped` states it |
| EnvVar.GitBranchIsStripped | src/mlp_conf/envvar.py:5-13 | a failed branch lookup gives the empty string; a successful one gives the stripped output, which has no surrounding white space |
| EnvVar.GetEnvVars | src/mlp_conf/envvar.py:15-21 | the four runtime values, with the clock, the `git` output and the working directory as parameters; `EnvVar.UserNameFallback`, `EnvVar.FormatDate` and `EnvVar.GitBranchIsStripped` state its parts |
| EnvVar.EnvSubst | src/mlp_conf/envvar.py:23-27 | the loop's result is the fold of the four token replacements in USER, DATE, GIT_BRANCH, CWD order |
| EnvVar.EnvSubstWithoutTokens | src/mlp_conf/envvar.py:23-27 | text holding none of the four tokens is returned unchanged |
| EnvVar.UnknownTokenVerbatim | src/mlp_conf/envvar.py:25-26 | any other `{{NAME}}` token is left verbatim, whatever the runtime values |
| EnvVar.EnvSubstTrailingUser | src/mlp_conf/envvar.py:26 | a trailing `{{USER}}` after brace-free text becomes the username |
| Layers.Assign | src/mlp_conf/config.py:9-13 | setting a dictionary key gives it the new value, keeps every other key's value, keeps an existing key's position and appends a new one |
| Layers.Put2 | src/mlp_conf/config.py:43 | `setdefault(section, {})[key] = value` changes the lookup of exactly that section and key |
| Layers.RepresentsPut | src/mlp_conf/config.py:50 | a two-level dictionary filled entry by entry holds what the last assignment of each (section, key) left |
| Config.FirstUnknownKey | src/mlp_conf/config.py:40-42 | no key is reported exactly when every override key is a key of the base section; a reported key is an override key that the base section lacks |
| Config.OverrideError | src/mlp_conf/config.py:37-42 | no error exactly when every override section exists in the base and holds only its keys; an unknown section is an override section the base lacks; an unknown key belongs to an override section that exists in the base, which lacks the key |
| Config.ReadOverride | src/mlp_conf/config.py:37-43 | the validation loop raises exactly the error `OverrideError` names; when there is none, `override` holds every override value |
| Config.ReadOverrideFile | src/mlp_conf/config.py:33-43 | no override file gives no error and an empty `override`; otherwise the file is validated and read |
| Config.EnvEntriesLookup | src/mlp_conf/config.py:45-50 | `env_overrides` holds a value for a (section, key) exactly when it is a base key whose `MLP_` variable is set, and that value is the variable's |
| Config.CollectEnvOverrides | src/mlp_conf/config.py:45-50 | the environment loop fills `env_overrides` with exactly those values |
| Config.CollectSectionEnv | src/mlp_conf/config.py:47-50 | one pass over a section adds exactly that section's set variables |
| Config.EnvName | src/mlp_conf/config.py:48 | the variable name `MLP_<SECTION>_<KEY>`; `ConfigFacts.CollidingEnvNames` shows two keys reading different names |
| Config.Winner | src/mlp_conf/config.py:55-62 | the raw value of the winning layer; `ConfigFacts.WinnerFollowsSource` states the precedence |
| Config.SourceFor | src/mlp_conf/config.py:56-62 | the name of the winning layer; `ConfigFacts.WinnerFollowsSource` ties it to `Config.Winner` |
| Config.Substitute | src/mlp_conf/config.py:63-67 | DEFAULT references, then the runtime tokens; `ResolveFacts.BraceFreeUnchanged`, `ResolveFacts.DefaultsInOrder`, `ResolveFacts.DefaultsChain` and `ResolveFacts.TrailingUserIsUserName` state it |
| Config.Finalize | src/mlp_conf/config.py:69-70 | type inference, skipped for a `date` key; `ResolveFacts.DateKeyKeepsText` states it |
| Config.InferType | src/mlp_conf/config.py:76-91 | int, else float, else boolean word, else the text, with `int()`/`float()` and `strip()` skipping different white space; the `ResolveFacts.Infer*`, `ResolveFacts.NegativeInteger`, `ResolveFacts.UnderscoreInteger`, `ResolveFacts.DecimalPointFloat`, `ResolveFacts.OneAndZeroAreIntegers` and `ResolveFacts.SeparatorEdgedOneAndZero` lemmas state it |
| Config.ResolveSetting | src/mlp_conf/config.py:55-72 | the value the loader sets is the winning layer's raw value, substituted and typed; the recorded source is the winning layer |
| Config.BuildNamespace | src/mlp_conf/config.py:53-71 | a built namespace has `_name` and exactly the section's keys as attributes |
| Config.Namespaces | src/mlp_conf/config.py:52-74 | `_namespaces` has exactly the base sections |
| Config.SourcesOf | src/mlp_conf/config.py:72 | provenance is recorded for exactly the base (section, key) pairs, each naming the winning layer |
| Config.BuildSection | src/mlp_conf/config.py:53-72 | one pass of the section loop builds that section's namespace and adds its provenance |
| Config.BuildSections | src/mlp_conf/config.py:52-74 | the section loop produces exactly the specified namespaces and provenance map |
| Config.MlpConfig.constructor | src/mlp_conf/config.py:17-18 | both dictionaries start empty |
| Config.MlpConfig.LoadConfig | src/mlp_conf/config.py:23-74 | the load fails with exactly the first validation error and then records nothing; otherwise it records the specified namespaces and provenance |
| Config.MlpConfig.ListParams | src/mlp_conf/config.py:93-102 | the rows are the specified listing of the recorded namespaces |
| Config.Load | src/mlp_conf/config.py:15-21 | construction fails exactly when validation fails, with that error; otherwise it returns a new, loaded configuration |
| ConfigFacts.LoadedAttribute | src/mlp_conf/config.py:52-71 | `conf.<section>.<key>` is the key's resolved value: winning layer, substituted, typed |
| ConfigFacts.AttributesAreBaseKeys | src/mlp_conf/config.py:52-71 | an attribute exists exactly for a base section and one of its keys or `_name`; no layer adds keys |
| ConfigFacts.WinnerFollowsSource | src/mlp_conf/config.py:55-62 | the recorded source names the layer whose value was used; environment over override over base |
| ConfigFacts.ValidatedOverride | src/mlp_conf/config.py:37-43 | after a successful validation, every override value is for a section and key that the base defines |
| ConfigFacts.ExpectedRows | src/mlp_conf/config.py:96-101 | the expected listing holds a row for every base key not starting with `_`, and only such rows |
| ConfigFacts.HiddenAssign | src/mlp_conf/config.py:96-98 | setting an attribute whose name starts with `_` never changes the rows |
| ConfigFacts.VisibleAssign | src/mlp_conf/config.py:96-101 | setting a new visible attribute appends exactly its row |
| ConfigFacts.SectionListing | src/mlp_conf/config.py:96-101 | the rows of one built namespace are the expected rows of its section |
| ConfigFacts.LayerListing | src/mlp_conf/config.py:93-102 | the listing of the built namespaces is the expected listing, under any provenance map that agrees with the layers |
| ConfigFacts.LoadedListing | src/mlp_conf/config.py:93-102 | after a load, `list_params` is one row per base key not starting with `_`, in base order, with its resolved value and its winning layer |
| ConfigFacts.LoadAndList | src/mlp_conf/config.py:93-102 | a load followed by `list_params` fails exactly on a validation error, and otherwise yields the expected listing |
| ConfigFacts.DefaultKeyInEverySection | src/mlp_conf/config.py:29-31 | with the DEFAULT keys merged into every section, a DEFAULT key is an attribute of every namespace, holding that section's resolved value, and its `MLP_` variable overrides it per section |
| ConfigFacts.DefaultKeySettable | src/mlp_conf/config.py:37-42 | with the DEFAULT keys merged into every section, an override file may set a DEFAULT key in any base section without failing validation |
| ConfigFacts.CollidingEnvNames | src/mlp_conf/config.py:48 | the keys `a`/`b.c` and `a.b`/`c` read different variables, `MLP_A_B.C` and `MLP_A.B_C` |
| ConfigFacts.DottedSources | src/mlp_conf/config.py:72 | the dotted provenance map's keys are exactly the entries' dotted keys; under each one it holds the winning layer of the last entry with that dotted key |
| ConfigFacts.DottedAgreesWhenUnambiguous | src/mlp_conf/config.py:100 | where no two (section, key) pairs share a dotted key, looking a pair up in the dotted map gives its winning layer, as the pair-keyed map does |
| ConfigFacts.DottedProvenanceCollides | src/mlp_conf/config.py:72 | two keys of a well-formed base share a dotted key; the value of one comes from the environment, yet the dotted map reports "default" for it, while the pair-keyed map reports "env" |
| ResolveFacts.InferOfInt | src/mlp_conf/config.py:77-78 | whatever `int()` accepts is inferred as that integer |
| ResolveFacts.InferIntRoundTrip | src/mlp_conf/config.py:77-78 | the text of any integer is inferred back to that integer |
| ResolveFacts.NegativeInteger | src/mlp_conf/config.py:77-78 | text that `int()` reads as a minus sign and a digit part is inferred as the negative integer |
| ResolveFacts.UnderscoreInteger | src/mlp_conf/config.py:77-78 | text that `int()` reads as two digit parts joined by `_` is inferred as the integer the two parts spell without the underscore |
| ResolveFacts.DecimalPointFloat | src/mlp_conf/config.py:77-82 | text that `float()` reads as digits, a point and digits is no integer, but a float |
| ResolveFacts.InferOfBool | src/mlp_conf/config.py:81-90 | a boolean word that is neither integer nor float is inferred as its boolean |
| ResolveFacts.BoolWordsInferBool | src/mlp_conf/config.py:85-90 | every boolean word other than "1"/"0" is inferred as its boolean |
| ResolveFacts.OneAndZeroAreIntegers | src/mlp_conf/config.py:77-90 | text that `int()` reads as "1" or "0" is a boolean word, but is inferred as the integer 1 or 0 |
| ResolveFacts.SeparatorEdgedOneAndZero | src/mlp_conf/config.py:77-90 | text that strips to "1" or "0" while `int()` reads something else (a separator U+001C to U+001F at an end) is inferred as True or False |
| ResolveFacts.SeparatorDigitIsBool | src/mlp_conf/config.py:77-90 | "1" or "0" with one separator U+001C to U+001F before or after it is inferred as True or False, e.g. `"\u001c1"` as True |
| ResolveFacts.SeparatorOneIsTrue | src/mlp_conf/config.py:77-90 | the text `"\u001c1"` is inferred as True, not as the integer 1 |
| ResolveFacts.SeparatorDigitIsNoNumber | src/mlp_conf/config.py:77-84 | `int()` and `float()` reject "1" or "0" with one separator U+001C to U+001F before or after it |
| ResolveFacts.SpaceEdgedNumberText | src/mlp_conf/config.py:77-84 | text whose ends `int()` and `float()` do not skip, one of which `strip()` would remove, is rejected by both |
| ResolveFacts.LetterTextStaysText | src/mlp_conf/config.py:85-91 | text starting with a letter that is neither a boolean word nor inf/infinity/nan stays the same string |
| ResolveFacts.DateKeyKeepsText | src/mlp_conf/config.py:69-70 | a key spelled `date` in any letter case (`DATE` and `Date` included) keeps its text, even when it is an integer literal; every other key is inferred |
| ResolveFacts.BraceFreeUnchanged | src/mlp_conf/config.py:64-67 | a value without braces passes both substitution passes unchanged |
| ResolveFacts.DefaultsInOrder | src/mlp_conf/config.py:65-67 | two DEFAULT references are each replaced by their DEFAULT value, and nothing is left for `envsubst` |
| ResolveFacts.DefaultsChain | src/mlp_conf/config.py:65-66 | a DEFAULT value that references a later DEFAULT key is rewritten again |
| ResolveFacts.DefaultUserShadowsToken | src/mlp_conf/config.py:65-67 | a DEFAULT key `USER` turns `{{USER}}` into its value in single braces before `envsubst` runs |
| ResolveFacts.TrailingUserIsUserName | src/mlp_conf/config.py:64-67 | when the runtime was read from the load's environment, a value ending in `{{USER}}` after brace-free text resolves to that text followed by the username: USER when set and non-empty, else USERNAME (DEFAULT keys brace-free and not `USER`, runtime values brace-free) |
| ResolveFacts.UserTokenLoadsUserName | src/mlp_conf/config.py:55-71 | under the same conditions, a key whose winning value ends in `{{USER}}` loads as that text followed by the username (USER itself when set and non-empty), typed as its key demands |
| ArgParse.Str2Bool | src/mlp_conf/argparse.py:4-12 | `str2bool`; `ArgParse.Str2BoolMatchesBoolWord` and `ArgParse.Str2BoolIdempotent` state it |
| ArgParse.Str2BoolMatchesBoolWord | src/mlp_conf/argparse.py:4-12 | `str2bool` accepts exactly the eight words type inference knows, with the same meaning, and otherwise reports the stripped, lower-cased text |
| ArgParse.Str2BoolIdempotent | src/mlp_conf/argparse.py:5-6 | a boolean passes through `str2bool` unchanged |
| ArgParse.Str2BoolAgreesWithInference | src/mlp_conf/argparse.py:7-11 | unless `int()` reads the text as exactly "1" or "0", a word `str2bool` accepts is inferred as the same boolean |
| ArgParse.BoolTextRoundTrip | src/mlp_conf/argparse.py:7-11 | `str2bool(str(b)) == b` |
| ArgParse.KindOf | src/mlp_conf/argparse.py:28-31 | the flag type a value gets: `str2bool` for a boolean, `int` or `float` for numbers, `str` otherwise; `ArgParse.ValueReparses` states it with `ArgParse.ConvertFlag` |
| ArgParse.ConvertFlag | src/mlp_conf/argparse.py:28-32 | what a flag's type converter does with its text, `int` and `float` rejecting text edged with U+001C to U+001F as `Numerals.RejectedLead` and `Numerals.RejectedTrail` state; `ArgParse.ValueReparses` states that it reads every value back from its own text |
| ArgParse.ValueReparses | src/mlp_conf/argparse.py:28-31 | every value converts back from its own text through its flag's converter |
| ArgParse.DefaultReparses | src/mlp_conf/argparse.py:28-31 | every value a key can load with converts back from its own text |
| ArgParse.LoadedDefaultsReparse | src/mlp_conf/argparse.py:21-32 | each flag of a loaded configuration accepts the text of its own default |
| ArgParse.SectionArguments | src/mlp_conf/argparse.py:23-32 | the inner loop adds one argument per visible attribute, in order |
| ArgParse.ConfigArguments | src/mlp_conf/argparse.py:21-32 | the outer loop adds one argument per listed row, in listing order |
| ArgParse.MlpArgumentParser.constructor | src/mlp_conf/argparse.py:16-19 | a new parser holds exactly the arguments for the configuration's listing |
| ArgParse.MlpArgumentParser.AddConfigArgs | src/mlp_conf/argparse.py:21-32 | the arguments of the listing are appended to those already held |

## Left out

- INI parsing is not modelled. The base, the DEFAULT items and the parsed override file are inputs. The base is assumed well-formed (distinct section names, distinct keys per section), as configparser guarantees.
- The merge of DEFAULT keys into each section's items (`src/mlp_conf/config.py:31`) is not computed: the base is given with its items already merged, and `ConfigFacts.DefaultsMerged` states that every section holds every DEFAULT key. The model therefore does not decide which value a section gets for a DEFAULT key (its own, else the DEFAULT's). configparser's ExtendedInterpolation of `${...}` references in those items, and the errors it raises for a lone `$` or a missing reference, are not modelled either.
- File existence and reading are not modelled. An override file that does not exist is `None`.
- `src/mlp_conf/cli.py` and the test files are not part of this model.
- EnvVar.GetEnvVars: the clock, the `git` call and the working directory are parameters. The source reads them anew for every value, so one load could see two dates or two branches; the model reads them once per load. The runtime is an input of the load beside the environment; `Config.SharedEnvironment` ties its username to that environment, and only the lemmas that require it rely on that. DATE, GIT_BRANCH and CWD stay free parameters.
- Config.SourcesOf and Config.MlpConfig.ListParams: provenance is keyed by the (section, key) pair, the corrected form of the string key `f"{section}.{k}"` written at `src/mlp_conf/config.py:72` and read at line 100. The string-keyed map as written is `ConfigFacts.DottedSources`, looked up by `ConfigFacts.DottedLookup`. `ConfigFacts.DottedAgreesWhenUnambiguous` shows that the two agree whenever no two pairs share a dotted key, and `ConfigFacts.DottedProvenanceCollides` shows where they differ.
- EnvVar.FormatDate: only years 1 to 9999 are modelled (Python's `datetime` range), always with four digits. Some platforms' `strftime` does not pad years below 1000.
- Text.Lower: case mapping is ASCII only. This covers the boolean words and `date`. Non-ASCII letters, which `upper()`/`lower()` map too, are not modelled, so `MLP_` variable names for such keys may differ.
- Numerals.ParseInt and Numerals.IsFloatLiteral: digits are ASCII only. Python's `int()` and `float()` also accept other Unicode decimal digits, which the model rejects.
- Numerals.IntRoundTrip: the interpreter's limit on the number of digits `int()` converts is not modelled.
- ArgParse.ValueReparses: a float keeps the text it was read from, so its numeric value, rounding and `repr` are not modelled. A float flag is stated to accept the literal, not to produce the same number.
- `setattr(self, section, ns)` is not modelled (`src/mlp_conf/config.py:73`); the model keeps namespaces only in `_namespaces`. A section named like an `MlpConfig` attribute either replaces that attribute or cannot be set. In these cases the source fails where the model's `Load` returns `Ok`:
  - a section `_namespaces` raises TypeError at line 74 of the same section;
  - a section `_infer_type` raises TypeError at line 70 the next time a value is inferred;
  - a section `_sources` raises TypeError at line 72 in any later section, or AttributeError at line 100 in `list_params`;
  - a section `list_params` makes `list_params()` raise TypeError;
  - a section `__class__` or `__dict__` raises TypeError at line 73, because these attributes only take a class or a dictionary; a section `__weakref__` raises AttributeError there, because that attribute is not writable.
- Config.BuildNamespace: the keys `__class__`, `__dict__` and `__weakref__` are stored like any other key. In the source, `Namespace.__setattr__` (`src/mlp_conf/config.py:9-13`, reached from line 71) passes keys starting with `_` to `object.__setattr__`. For these three keys that raises: TypeError for `__class__` and `__dict__`, AttributeError for `__weakref__`. So a base key `__dict__` makes the source's load fail where `Config.Load` and `Config.MlpConfig.LoadConfig` return `Ok`.
- The override parser uses configparser's default BasicInterpolation (`src/mlp_conf/config.py:34`, read at `:40`). A lone `%` in an override value raises an interpolation error, and `%(name)s` is replaced. The model takes override values literally.
- argparse's own behaviour is not modelled: errors for two sections declaring the same key (a conflicting `--<key>` option), help formatting, and the parsing of the command line itself. `ConvertFlag` states what each flag's converter does with the text it is given. argparse also converts string defaults with the flag's type, but for `str` that is the identity.

## Findings

| source | as written | input that shows it | evidently intended | confidence | as-written member | corrected member |
|---|---|---|---|---|---|---|
| src/mlp_conf/config.py:72 | provenance is stored under the string `f"{section}.{k}"`, and `list_params` reads it back under the same string (line 100) | base section `a` with key `b.c` and section `a.b` with key `c`, with only `MLP_A_B.C` set: the value of `a`/`b.c` comes from the environment, but `list_params` reports "default" for it, because the later key overwrote the shared entry `a.b.c` | one provenance per (section, key) pair | high; not executed | ConfigFacts.DottedProvenanceCollides | Config.SourcesOf |
